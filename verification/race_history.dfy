/**
 What the shadow record of one byte decides about the history of accesses to it: up to and
 including the first report, a race is reported exactly when there is one.
 */
module RaceHistory {
  import opened Clocks
  import opened RaceRecords

  /** A non-atomic access: its thread and that thread's clock at the time. */
  datatype Access = Access(tid: nat, cv: Clock, write: bool)

  function Own(e: Access): nat {
    Get(e.cv, e.tid)
  }

  function EpochOf(e: Access): Epoch {
    Epoch(e.tid, Own(e))
  }

  /** `a` has synchronized with something its own thread or `e`'s thread did after `e`. */
  predicate Ordered(e: Access, a: Access) {
    e.tid == a.tid || Get(a.cv, e.tid) > Own(e)
  }

  predicate Racy(e: Access, a: Access) {
    (e.write || a.write) && !Ordered(e, a)
  }

  /** What synchronization guarantees: an access that comes before another passes on its clock. */
  ghost predicate PassesOn(e: Access, a: Access) {
    Ordered(e, a) ==> Leq(e.cv, a.cv)
  }

  ghost predicate Causal(h: seq<Access>) {
    && (forall i :: 0 <= i < |h| ==> Own(h[i]) > 0)
    && (forall i, j :: 0 <= i < j < |h| ==> PassesOn(h[i], h[j]))
  }

  // ----- running a history through the checks -----

  function Check(c: Cell, a: Access): (Cell, Report) {
    if a.write then WriteCell(c, a.tid, a.cv) else ReadCell(c, a.tid, a.cv)
  }

  /** The shadow entry after the accesses `h`; shadow memory starts out zero. */
  function CellAfter(h: seq<Access>): Cell {
    if h == [] then Word(0) else Check(CellAfter(h[..|h| - 1]), h[|h| - 1]).0
  }

  function ReportAt(h: seq<Access>, n: nat): Report
    requires n < |h|
  {
    Check(CellAfter(h[..n]), h[n]).1
  }

  function FullCheck(r: Record, a: Access): (Record, Report) {
    if a.write then FullWrite(r, a.tid, a.cv) else FullRead(r, a.tid, a.cv)
  }

  lemma CheckMeaning(c: Cell, a: Access)
    requires WfCell(c) && Own(a) > 0
    ensures WfCell(Check(c, a).0)
    ensures Meaning(Check(c, a).0) == FullCheck(Meaning(c), a).0
    ensures Check(c, a).1 == FullCheck(Meaning(c), a).1
  {
    if a.write {
      WriteCellMeaning(c, a.tid, a.cv);
    } else {
      ReadCellMeaning(c, a.tid, a.cv);
    }
  }

  // ----- what the loops over the recorded reads compute -----

  lemma {:induction false} UnsubsumedIn(cv: Clock, tid: nat, readers: seq<Epoch>, e: Epoch)
    ensures e in Unsubsumed(cv, tid, readers) <==> e in readers && MayRace(cv, tid, e)
  {
    if readers != [] {
      var n := |readers| - 1;
      UnsubsumedIn(cv, tid, readers[..n], e);
      assert readers == readers[..n] + [readers[n]];
    }
  }

  lemma {:induction false} FirstRacingReadIn(cv: Clock, tid: nat, readers: seq<Epoch>)
    ensures var f := FirstRacingRead(cv, tid, readers);
            match f
            case NoRace => forall e :: e in readers ==> !MayRace(cv, tid, e)
            case RaceWith(e, isWrite) => e in readers && MayRace(cv, tid, e) && !isWrite
  {
    if readers != [] && !MayRace(cv, tid, readers[0]) {
      FirstRacingReadIn(cv, tid, readers[1..]);
      assert readers == [readers[0]] + readers[1..];
    }
  }

  // ----- what a record remembers of a history without races -----

  /** Some recorded read speaks for access `i`. */
  ghost predicate Covered(h: seq<Access>, r: Record, i: nat) {
    exists j :: i <= j < |h| && Ordered(h[i], h[j]) && EpochOf(h[j]) in r.readers
  }

  /** Every recorded read is one of the accesses since the last write. */
  ghost predicate Recorded(h: seq<Access>, k: int, e: Epoch) {
    exists j :: k < j < |h| && 0 <= j && EpochOf(h[j]) == e
  }

  /** `k` is the last write, or -1. */
  ghost predicate Remembers(h: seq<Access>, r: Record, k: int) {
    && -1 <= k < |h|
    && (forall i :: k < i < |h| && 0 <= i ==> !h[i].write)
    && (if k < 0 then r.write.clock == 0 else h[k].write && r.write == EpochOf(h[k]))
    && (forall i :: 0 <= i < k ==> Ordered(h[i], h[k]))
    && (forall i {:trigger Covered(h, r, i)} :: k < i < |h| && 0 <= i ==> Covered(h, r, i))
    && (forall e {:trigger Recorded(h, k, e)} :: e in r.readers ==> Recorded(h, k, e))
  }

  /** Order is transitive along a causal history. */
  lemma OrderedTrans(e: Access, f: Access, a: Access)
    requires Ordered(e, f) && Ordered(f, a) && PassesOn(e, f) && PassesOn(f, a)
    ensures Ordered(e, a)
  {
    assert Get(e.cv, e.tid) <= Get(f.cv, e.tid) && Get(f.cv, e.tid) <= Get(a.cv, e.tid);
  }

  lemma MayRaceIff(e: Access, a: Access)
    requires Own(e) > 0
    ensures MayRace(a.cv, a.tid, EpochOf(e)) <==> !Ordered(e, a)
  {
  }

  /** A report names an access that really races. */
  lemma ReportSound(h: seq<Access>, r: Record, k: int, a: Access)
    requires Remembers(h, r, k) && Causal(h)
    ensures match FullCheck(r, a).1
            case NoRace => true
            case RaceWith(e, w) => exists i :: 0 <= i < |h| && Racy(h[i], a) && EpochOf(h[i]) == e && h[i].write == w
  {
    FirstRacingReadIn(a.cv, a.tid, r.readers);
    match FullCheck(r, a).1
    case NoRace =>
    case RaceWith(e, w) =>
      if w {
        MayRaceIff(h[k], a);
        assert Racy(h[k], a);
      } else {
        assert Recorded(h, k, e);
        var j :| k < j < |h| && 0 <= j && EpochOf(h[j]) == e;
        MayRaceIff(h[j], a);
        assert Racy(h[j], a);
      }
  }

  /** A recorded access that the check would race with makes it report. */
  lemma RecordReports(r: Record, a: Access, e: Epoch)
    requires MayRace(a.cv, a.tid, e) && (e == r.write || (e in r.readers && a.write))
    ensures FullCheck(r, a).1 != NoRace
  {
    FirstRacingReadIn(a.cv, a.tid, r.readers);
  }

  /** Nothing that races goes unreported, although subsumed reads and all reads before a write are forgotten. */
  lemma ReportComplete(h: seq<Access>, r: Record, k: int, a: Access, i: nat)
    requires Remembers(h, r, k) && Causal(h + [a]) && i < |h| && Racy(h[i], a)
    ensures FullCheck(r, a).1 != NoRace
  {
    hide FullCheck;
    hide MayRace;
    hide Leq;
    var g := h + [a];
    assert forall j :: 0 <= j < |h| ==> g[j] == h[j] && PassesOn(g[j], g[|h|]) && Own(g[j]) > 0;
    var j := k;
    if i > k {
      assert Covered(h, r, i);
      j :| i <= j < |h| && Ordered(h[i], h[j]) && EpochOf(h[j]) in r.readers;
    }
    if Ordered(h[j], a) && i < j {
      assert PassesOn(g[i], g[j]);
      OrderedTrans(h[i], h[j], a);
    }
    MayRaceIff(h[j], a);
    RecordReports(r, a, EpochOf(h[j]));
  }

  /** As long as nothing is reported, the record goes on remembering enough. */
  lemma RemembersStep(h: seq<Access>, r: Record, k: int, a: Access)
    requires Remembers(h, r, k) && Causal(h + [a]) && FullCheck(r, a).1 == NoRace
    ensures Remembers(h + [a], FullCheck(r, a).0, if a.write then |h| else k)
  {
    var g, s := h + [a], FullCheck(r, a).0;
    assert forall j :: 0 <= j < |h| ==> g[j] == h[j];
    forall i | 0 <= i < |h| ensures !Racy(h[i], a) {
      if Racy(h[i], a) {
        ReportComplete(h, r, k, a, i);
      }
    }
    if !a.write {
      forall i | k < i < |g| && 0 <= i ensures Covered(g, s, i) {
        ReadCovers(h, r, k, a, i);
      }
      forall e | e in s.readers ensures Recorded(g, k, e) {
        UnsubsumedIn(a.cv, a.tid, r.readers, e);
        if e in r.readers {
          assert Recorded(h, k, e);
          var j :| k < j < |h| && 0 <= j && EpochOf(h[j]) == e;
          assert EpochOf(g[j]) == e;
        } else {
          assert EpochOf(g[|h|]) == e;
        }
      }
    }
  }

  lemma ReadCovers(h: seq<Access>, r: Record, k: int, a: Access, i: nat)
    requires Remembers(h, r, k) && Causal(h + [a]) && !a.write && k < i <= |h|
    ensures Covered(h + [a], FullCheck(r, a).0, i)
  {
    var g, s := h + [a], FullCheck(r, a).0;
    assert EpochOf(g[|h|]) == s.readers[|s.readers| - 1];
    if i < |h| {
      assert Covered(h, r, i);
      var j :| i <= j < |h| && Ordered(h[i], h[j]) && EpochOf(h[j]) in r.readers;
      assert g[j] == h[j] && g[i] == h[i] && PassesOn(g[j], g[|h|]) && PassesOn(g[i], g[|h|]);
      assert i < j ==> PassesOn(g[i], g[j]);
      UnsubsumedIn(a.cv, a.tid, r.readers, EpochOf(h[j]));
      MayRaceIff(h[j], a);
      if Ordered(h[j], a) {
        if i < j {
          OrderedTrans(h[i], h[j], a);
        }
        assert Ordered(g[i], g[|h|]);
      } else {
        assert EpochOf(g[j]) in s.readers;
      }
    }
  }

  // ----- whole histories -----

  ghost predicate Quiet(h: seq<Access>) {
    forall m :: 0 <= m < |h| ==> ReportAt(h, m) == NoRace
  }

  lemma CausalPrefix(h: seq<Access>, n: nat)
    requires Causal(h) && n <= |h|
    ensures Causal(h[..n])
  {
    forall i, j | 0 <= i < j < n ensures PassesOn(h[..n][i], h[..n][j]) {
      assert PassesOn(h[i], h[j]);
    }
  }

  lemma QuietPrefix(h: seq<Access>, n: nat)
    requires Quiet(h) && n <= |h|
    ensures Quiet(h[..n])
  {
    forall m | 0 <= m < n ensures ReportAt(h[..n], m) == NoRace {
      assert h[..n][..m] == h[..m] && ReportAt(h, m) == NoRace;
    }
  }

  lemma {:induction false} QuietRemembers(h: seq<Access>) returns (k: int)
    requires Causal(h) && Quiet(h)
    ensures WfCell(CellAfter(h)) && Remembers(h, Meaning(CellAfter(h)), k)
  {
    k := -1;
    if h != [] {
      var n := |h| - 1;
      CausalPrefix(h, n);
      QuietPrefix(h, n);
      k := QuietRemembers(h[..n]);
      CheckMeaning(CellAfter(h[..n]), h[n]);
      assert ReportAt(h, n) == NoRace && h == h[..n] + [h[n]];
      RemembersStep(h[..n], Meaning(CellAfter(h[..n])), k, h[n]);
      k := if h[n].write then n else k;
    }
  }

  /**
   For every history of accesses to a byte, up to the first report: the check at access `n`
   reports a race exactly when an earlier access races with it, and it names such an access.
   */
  lemma ReportsExactly(h: seq<Access>, n: nat)
    requires Causal(h) && n < |h| && Quiet(h[..n])
    ensures ReportAt(h, n) != NoRace <==> exists i :: 0 <= i < n && Racy(h[i], h[n])
    ensures match ReportAt(h, n)
            case NoRace => true
            case RaceWith(e, w) => exists i :: 0 <= i < n && Racy(h[i], h[n]) && EpochOf(h[i]) == e && h[i].write == w
  {
    CausalPrefix(h, n);
    CausalPrefix(h, n + 1);
    var k := QuietRemembers(h[..n]);
    var r := Meaning(CellAfter(h[..n]));
    CheckMeaning(CellAfter(h[..n]), h[n]);
    assert h[..n + 1] == h[..n] + [h[n]];
    ReportSound(h[..n], r, k, h[n]);
    forall i | 0 <= i < n && Racy(h[i], h[n]) ensures ReportAt(h, n) != NoRace {
      ReportComplete(h[..n], r, k, h[n], i);
    }
  }

  ghost predicate HasRace(h: seq<Access>) {
    exists i, j :: 0 <= i < j < |h| && Racy(h[i], h[j])
  }

  lemma QuietLast(h: seq<Access>, n: nat)
    requires |h| == n + 1
    ensures Quiet(h) <==> Quiet(h[..n]) && ReportAt(h, n) == NoRace
  {
    hide CellAfter;
    hide Check;
    if Quiet(h) {
      QuietPrefix(h, n);
    } else {
      var m :| 0 <= m < |h| && ReportAt(h, m) != NoRace;
      if m < n {
        assert h[..n][..m] == h[..m];
        assert ReportAt(h[..n], m) != NoRace;
      }
    }
  }

  lemma HasRaceLast(h: seq<Access>, n: nat)
    requires |h| == n + 1
    ensures HasRace(h) <==> HasRace(h[..n]) || exists i :: 0 <= i < n && Racy(h[i], h[n])
  {
    if HasRace(h) {
      var i, j :| 0 <= i < j < |h| && Racy(h[i], h[j]);
      if j < n {
        assert Racy(h[..n][i], h[..n][j]);
      }
    }
    if HasRace(h[..n]) {
      var i, j :| 0 <= i < j < n && Racy(h[..n][i], h[..n][j]);
      assert Racy(h[i], h[j]);
    }
  }

  /** A history is checked without a report exactly when it has no race. */
  lemma {:induction false} QuietIffRaceFree(h: seq<Access>)
    requires Causal(h)
    ensures Quiet(h) <==> !HasRace(h)
  {
    hide Racy;
    hide ReportAt;
    if h != [] {
      var n := |h| - 1;
      CausalPrefix(h, n);
      QuietIffRaceFree(h[..n]);
      QuietLast(h, n);
      HasRaceLast(h, n);
      if Quiet(h[..n]) {
        ReportsExactly(h, n);
      }
    }
  }
}
