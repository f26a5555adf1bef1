/**
 Shadow memory over whole histories of multi-byte accesses: the entry of a byte is what the
 accesses covering that byte leave, so checks of any sizes report exactly the races.
 */
module ShadowHistory {
  import opened Options
  import opened Clocks
  import opened RaceRecords
  import opened RaceHistory
  import opened ShadowMemories
  import opened ExecutionState
  import opened RaceEngine

  /** An access to the `n` bytes from `addr`. */
  datatype Touch = Touch(addr: nat, n: nat, access: Access)

  predicate Covers(k: Touch, b: nat) {
    k.addr <= b < k.addr + k.n
  }

  predicate InMemory(k: Touch) {
    k.addr + k.n <= ADDRESSES
  }

  function CheckOf(k: Touch): ShadowMemories.Check {
    ShadowMemories.Check(k.access.tid, Some(k.access.cv), k.access.write)
  }

  /** Shadow memory, empty at first, after the checks for `ks`. */
  function AfterAll(ks: seq<Touch>): Shadow {
    if ks == [] then map[]
    else Bytewise(AfterAll(ks[..|ks| - 1]), ks[|ks| - 1].addr, ks[|ks| - 1].n, CheckOf(ks[|ks| - 1]))
  }

  /** The reports of check `j`, byte by byte. */
  function ReportsOf(ks: seq<Touch>, j: nat): seq<Report>
    requires j < |ks|
  {
    BytewiseReports(AfterAll(ks[..j]), ks[j].addr, ks[j].n, CheckOf(ks[j]))
  }

  /** The accesses that cover one byte. */
  function AccessesTo(ks: seq<Touch>, b: nat): seq<Access> {
    if ks == [] then []
    else
      var before := AccessesTo(ks[..|ks| - 1], b);
      if Covers(ks[|ks| - 1], b) then before + [ks[|ks| - 1].access] else before
  }

  ghost predicate AllInMemory(ks: seq<Touch>) {
    forall k :: 0 <= k < |ks| ==> InMemory(ks[k])
  }

  lemma {:induction false} AfterAllWf(ks: seq<Touch>)
    ensures WfShadow(AfterAll(ks))
  {
    if ks != [] {
      var last := ks[|ks| - 1];
      AfterAllWf(ks[..|ks| - 1]);
      BytewiseWf(AfterAll(ks[..|ks| - 1]), last.addr, last.n, CheckOf(last));
    }
  }

  lemma CheckedIs(c: Cell, k: Touch)
    ensures Checked(c, CheckOf(k)) == RaceHistory.Check(c, k.access).0
    ensures Reported(c, CheckOf(k)) == RaceHistory.Check(c, k.access).1
  {
    hide WriteCell;
    hide ReadCell;
  }

  /** The entry of a byte is what the accesses that cover it, and no others, make of it. */
  lemma {:induction false} EntryAfter(ks: seq<Touch>, b: nat)
    requires AllInMemory(ks) && b < ADDRESSES
    ensures Entry(AfterAll(ks), b) == CellAfter(AccessesTo(ks, b))
  {
    hide Entry;
    hide Bytewise;
    hide Checked;
    hide RaceHistory.Check;
    if ks != [] {
      var front, last := ks[..|ks| - 1], ks[|ks| - 1];
      EntryAfter(front, b);
      AfterAllWf(front);
      BytewiseEntry(AfterAll(front), last.addr, last.n, CheckOf(last), b);
      var h := AccessesTo(front, b);
      assert (h + [last.access])[..|h|] == h;
      CheckedIs(CellAfter(h), last);
    } else {
      EmptyEntry(b);
    }
  }

  lemma EmptyEntry(b: nat)
    ensures Entry(map[], b) == Word(0)
  {
  }

  // ----- races between accesses -----

  ghost predicate CausalTouches(ks: seq<Touch>) {
    Causal(seq(|ks|, k requires 0 <= k < |ks| => ks[k].access))
  }

  /** Accesses `i` and `j` share a byte and race. */
  ghost predicate RacyTouches(ks: seq<Touch>, i: nat, j: nat) {
    i < j < |ks| && (exists b :: Covers(ks[i], b) && Covers(ks[j], b)) && Racy(ks[i].access, ks[j].access)
  }

  lemma {:induction false} AccessFrom(ks: seq<Touch>, b: nat, m: nat) returns (i: nat)
    requires m < |AccessesTo(ks, b)|
    ensures i < |ks| && Covers(ks[i], b) && ks[i].access == AccessesTo(ks, b)[m]
  {
    var n := |ks| - 1;
    if m < |AccessesTo(ks[..n], b)| {
      i := AccessFrom(ks[..n], b, m);
    } else {
      i := n;
    }
  }

  lemma {:induction false} AccessIn(ks: seq<Touch>, b: nat, i: nat) returns (m: nat)
    requires i < |ks| && Covers(ks[i], b)
    ensures m < |AccessesTo(ks, b)| && ks[i].access == AccessesTo(ks, b)[m]
  {
    var n := |ks| - 1;
    if i < n {
      m := AccessIn(ks[..n], b, i);
    } else {
      m := |AccessesTo(ks[..n], b)|;
    }
  }

  lemma CausalTouchesPrefix(ks: seq<Touch>, n: nat)
    requires CausalTouches(ks) && n <= |ks|
    ensures CausalTouches(ks[..n])
  {
    var h := seq(|ks|, k requires 0 <= k < |ks| => ks[k].access);
    CausalPrefix(h, n);
    assert h[..n] == seq(n, k requires 0 <= k < n => ks[..n][k].access);
  }

  /** The accesses to one byte are causal when all accesses are. */
  lemma {:induction false} CausalAt(ks: seq<Touch>, b: nat)
    requires CausalTouches(ks)
    ensures Causal(AccessesTo(ks, b))
  {
    if ks != [] {
      var n := |ks| - 1;
      CausalTouchesPrefix(ks, n);
      CausalAt(ks[..n], b);
      var h, all := AccessesTo(ks[..n], b), seq(|ks|, k requires 0 <= k < |ks| => ks[k].access);
      assert all[n] == ks[n].access && Own(all[n]) > 0;
      forall m | 0 <= m < |h| ensures PassesOn(h[m], ks[n].access) {
        var i := AccessFrom(ks[..n], b, m);
        assert PassesOn(all[i], all[n]);
      }
      hide PassesOn;
      if Covers(ks[n], b) {
        CausalSnoc(h, ks[n].access);
      }
    }
  }

  lemma CausalSnoc(h: seq<Access>, a: Access)
    requires Causal(h) && Own(a) > 0 && forall m :: 0 <= m < |h| ==> PassesOn(h[m], a)
    ensures Causal(h + [a])
  {
    var g := h + [a];
    forall i, j | 0 <= i < j < |g| ensures PassesOn(g[i], g[j]) {
      assert j < |h| ==> PassesOn(h[i], h[j]);
    }
  }

  // ----- reports -----

  /** While nothing has been reported, every byte's own history is quiet. */
  ghost predicate NoReports(ks: seq<Touch>) {
    forall j :: 0 <= j < |ks| ==> ReportsOf(ks, j) == []
  }

  lemma NoReportsPrefix(ks: seq<Touch>, n: nat)
    requires NoReports(ks) && n <= |ks|
    ensures NoReports(ks[..n])
  {
    forall j | 0 <= j < n ensures ReportsOf(ks[..n], j) == [] {
      assert ks[..n][..j] == ks[..j] && ReportsOf(ks, j) == [];
    }
  }

  /** A check reports something if and only if the history of some byte it covers does. */
  lemma ReportsAt(ks: seq<Touch>, j: nat)
    requires AllInMemory(ks) && j < |ks|
    ensures ReportsOf(ks, j) != [] <==> exists b :: Covers(ks[j], b) && RaceHistory.Check(CellAfter(AccessesTo(ks[..j], b)), ks[j].access).1 != NoRace
  {
    hide Entry;
    hide Bytewise;
    hide Reported;
    hide CellAfter;
    hide RaceHistory.Check;
    var m, k := AfterAll(ks[..j]), ks[j];
    var all := ReportsOf(ks, j);
    AfterAllWf(ks[..j]);
    forall r ensures r in all <==> ByteReports(m, k.addr, k.n, CheckOf(k), r) {
      BytewiseReported(m, k.addr, k.n, CheckOf(k), r);
    }
    forall b: nat | Covers(k, b)
      ensures Reported(Entry(m, b), CheckOf(k)) == RaceHistory.Check(CellAfter(AccessesTo(ks[..j], b)), k.access).1
    {
      EntryAfter(ks[..j], b);
      CheckedIs(Entry(m, b), k);
    }
    hide ReportsOf;
    if all != [] {
      assert all[0] in all;
      var b :| k.addr <= b < k.addr + k.n && Reported(Entry(m, b), CheckOf(k)) == all[0];
      assert Covers(k, b);
    }
    if b: nat :| Covers(k, b) && RaceHistory.Check(CellAfter(AccessesTo(ks[..j], b)), k.access).1 != NoRace {
      assert Reported(Entry(m, b), CheckOf(k)) in all;
    }
  }

  /** As long as nothing was reported, the history of every byte is quiet. */
  lemma {:induction false} QuietAt(ks: seq<Touch>, b: nat)
    requires AllInMemory(ks) && NoReports(ks)
    ensures Quiet(AccessesTo(ks, b))
  {
    hide RaceHistory.Check;
    hide CellAfter;
    if ks != [] {
      var n := |ks| - 1;
      NoReportsPrefix(ks, n);
      QuietAt(ks[..n], b);
      if Covers(ks[n], b) {
        var h := AccessesTo(ks[..n], b);
        ReportsAt(ks, n);
        assert ReportsOf(ks, n) == [];
        assert (h + [ks[n].access])[..|h|] == h;
        QuietLast(h + [ks[n].access], |h|);
      }
    }
  }

  /** What a byte's own history says about the next access. */
  lemma ByteVerdict(ks: seq<Touch>, j: nat, b: nat)
    requires AllInMemory(ks) && CausalTouches(ks) && j < |ks| && NoReports(ks[..j]) && Covers(ks[j], b)
    ensures RaceHistory.Check(CellAfter(AccessesTo(ks[..j], b)), ks[j].access).1 != NoRace
            <==> exists i :: 0 <= i < j && Covers(ks[i], b) && Racy(ks[i].access, ks[j].access)
  {
    hide RaceHistory.Check;
    hide CellAfter;
    hide Racy;
    var h, a := AccessesTo(ks[..j], b), ks[j].access;
    CausalTouchesPrefix(ks, j + 1);
    CausalAt(ks[..j + 1], b);
    assert ks[..j + 1][..j] == ks[..j];
    assert AccessesTo(ks[..j + 1], b) == h + [a] && (h + [a])[..|h|] == h;
    QuietAt(ks[..j], b);
    ReportsExactly(h + [a], |h|);
    assert ReportAt(h + [a], |h|) == RaceHistory.Check(CellAfter(h), a).1;
    if m: nat :| 0 <= m < |h| && Racy((h + [a])[m], a) {
      var i := AccessFrom(ks[..j], b, m);
      assert Covers(ks[i], b) && Racy(ks[i].access, a);
    }
    if i: nat :| 0 <= i < j && Covers(ks[i], b) && Racy(ks[i].access, a) {
      var m := AccessIn(ks[..j], b, i);
      assert Racy((h + [a])[m], a);
    }
  }

  /**
   Up to the first report, a check on any number of bytes reports something if and only if an
   earlier access that shares a byte with it races with it.
   */
  lemma TouchReportsExactly(ks: seq<Touch>, j: nat)
    requires AllInMemory(ks) && CausalTouches(ks) && j < |ks| && NoReports(ks[..j])
    ensures ReportsOf(ks, j) != [] <==> exists i :: 0 <= i < j && RacyTouches(ks, i, j)
  {
    hide RaceHistory.Check;
    hide CellAfter;
    hide Racy;
    hide ReportsOf;
    ReportsAt(ks, j);
    forall b | Covers(ks[j], b)
      ensures RaceHistory.Check(CellAfter(AccessesTo(ks[..j], b)), ks[j].access).1 != NoRace
              <==> exists i :: 0 <= i < j && Covers(ks[i], b) && Racy(ks[i].access, ks[j].access)
    {
      ByteVerdict(ks, j, b);
    }
    if i :| 0 <= i < j && RacyTouches(ks, i, j) {
      var b :| Covers(ks[i], b) && Covers(ks[j], b);
      assert RaceHistory.Check(CellAfter(AccessesTo(ks[..j], b)), ks[j].access).1 != NoRace;
    }
    if ReportsOf(ks, j) != [] {
      var b :| Covers(ks[j], b) && RaceHistory.Check(CellAfter(AccessesTo(ks[..j], b)), ks[j].access).1 != NoRace;
      var i :| 0 <= i < j && Covers(ks[i], b) && Racy(ks[i].access, ks[j].access);
      assert RacyTouches(ks, i, j);
    }
  }

  ghost predicate RaceFree(ks: seq<Touch>) {
    forall i: nat, j: nat :: !RacyTouches(ks, i, j)
  }

  lemma RaceFreeLast(ks: seq<Touch>, n: nat)
    requires |ks| == n + 1
    ensures RaceFree(ks) <==> RaceFree(ks[..n]) && forall i: nat :: i < n ==> !RacyTouches(ks, i, n)
  {
    hide Racy;
    forall i: nat, j: nat | j < n ensures RacyTouches(ks[..n], i, j) <==> RacyTouches(ks, i, j) {
      assert i < j ==> ks[..n][i] == ks[i] && ks[..n][j] == ks[j];
    }
    if RaceFree(ks[..n]) && forall i: nat :: i < n ==> !RacyTouches(ks, i, n) {
      forall i: nat, j: nat ensures !RacyTouches(ks, i, j) {
        assert j < n ==> !RacyTouches(ks[..n], i, j);
      }
    }
    if RaceFree(ks) {
      forall i: nat, j: nat ensures !RacyTouches(ks[..n], i, j) {
        assert !RacyTouches(ks, i, j);
      }
    }
  }

  /** Accesses of any sizes are checked without a report if and only if no two that share a byte race. */
  lemma {:induction false} SilentIffRaceFree(ks: seq<Touch>)
    requires AllInMemory(ks) && CausalTouches(ks)
    ensures NoReports(ks) <==> RaceFree(ks)
  {
    hide ReportsOf;
    hide RacyTouches;
    if ks == [] {
      NoneRacy(ks);
    } else {
      var n := |ks| - 1;
      CausalTouchesPrefix(ks, n);
      SilentIffRaceFree(ks[..n]);
      RaceFreeLast(ks, n);
      NoReportsLast(ks, n);
      if NoReports(ks[..n]) {
        TouchReportsExactly(ks, n);
      }
    }
  }

  lemma NoneRacy(ks: seq<Touch>)
    requires ks == []
    ensures RaceFree(ks)
  {
  }

  lemma NoReportsLast(ks: seq<Touch>, n: nat)
    requires |ks| == n + 1
    ensures NoReports(ks) <==> NoReports(ks[..n]) && ReportsOf(ks, n) == []
  {
    hide AfterAll;
    if NoReports(ks) {
      NoReportsPrefix(ks, n);
    }
    if NoReports(ks[..n]) && ReportsOf(ks, n) == [] {
      forall j | 0 <= j < |ks| ensures ReportsOf(ks, j) == [] {
        if j < n {
          assert ks[..n][..j] == ks[..j] && ReportsOf(ks[..n], j) == [];
        }
      }
    }
  }

  /**
   For every run of the engine and every sequence of non-atomic accesses, of any sizes and to any
   addresses, along it: the checks stay silent if and only if no two accesses that share a byte race.
   */
  lemma RunChecksSilent(ss: seq<State>, ls: seq<Label>, ps: seq<Point>, ks: seq<Touch>)
    requires IsRun(ss, ls) && Points(ss, ps) && |ks| == |ps| && AllInMemory(ks)
    requires forall k :: 0 <= k < |ks| ==> ks[k].access == AccessOf(ss, ps[k])
    ensures NoReports(ks) <==> RaceFree(ks)
  {
    hide Step;
    RunCausal(ss, ls, ps);
    assert History(ss, ps) == seq(|ks|, k requires 0 <= k < |ks| => ks[k].access);
    SilentIffRaceFree(ks);
  }
}
