/**
 The two halves meet: the clocks the execution engine hands to the race detector are causal,
 so what the detector reports of a run is exact.
 */
module RaceEngine {
  import opened Clocks
  import opened MoGraph
  import opened Actions
  import opened Coherence
  import opened ExecutionState
  import opened Engine
  import opened EngineClocks
  import opened EngineEntries
  import EngineSync
  import opened RaceRecords
  import opened RaceHistory

  /** A non-atomic access by thread `tid` while the run is in state `at`. */
  datatype Point = Point(at: nat, tid: nat, write: bool)

  ghost predicate Points(ss: seq<State>, ps: seq<Point>) {
    && (forall k :: 0 <= k < |ps| ==> ps[k].at < |ss| && ps[k].tid in ss[ps[k].at].last)
    && (forall j, k :: 0 <= j < k < |ps| ==> ps[j].at <= ps[k].at)
  }

  /** `get_cv` of a thread that has acted: the clock of its last action. */
  ghost function AccessOf(ss: seq<State>, p: Point): Access
    requires p.at < |ss|
  {
    Access(p.tid, ParentCv(ss[p.at], p.tid), p.write)
  }

  ghost function History(ss: seq<State>, ps: seq<Point>): (h: seq<Access>)
    requires Points(ss, ps)
    ensures |h| == |ps|
  {
    seq(|ps|, k requires 0 <= k < |ps| => AccessOf(ss, ps[k]))
  }

  /** The clock a thread shows is that of its last action, whose own entry is its number. */
  lemma ShownClock(s: State, tid: nat)
    requires Inv(s) && tid in s.last
    ensures s.last[tid] in s.info && s.last[tid].tid == tid && ParentCv(s, tid) == s.info[s.last[tid]].cv
    ensures Get(ParentCv(s, tid), tid) == s.last[tid].seqno >= 1
  {
    assert WfAct(s.info, s.used, s.last[tid]);
  }

  lemma LaterLast(s: State, t: State, tid: nat)
    requires Inv(s) && Inv(t) && GrowsTo(s.info, t.info) && tid in s.last && tid in t.last
    ensures s.last[tid].seqno <= t.last[tid].seqno
  {
    ShownClock(s, tid);
    assert LastCovers(t, s.last[tid]);
  }

  lemma CoveredBefore(m: Infos, a: Act, b: Act)
    requires a in m && b in m && Get(m[b].cv, a.tid) >= a.seqno >= 1
    ensures HappensBefore(m, a, b)
  {
  }

  lemma RunPassesOn(ss: seq<State>, ls: seq<Label>, p: Point, q: Point)
    requires IsRun(ss, ls) && p.at <= q.at < |ss|
    requires p.tid in ss[p.at].last && q.tid in ss[q.at].last
    ensures PassesOn(AccessOf(ss, p), AccessOf(ss, q))
  {
    hide Inv;
    hide Step;
    hide GrowsTo;
    var s, t := ss[p.at], ss[q.at];
    RunInv(ss, ls, q.at);
    RunInv(ss, ls, p.at);
    RunGrows(ss, ls, p.at, q.at);
    ShownClock(s, p.tid);
    ShownClock(t, q.tid);
    var a, b := s.last[p.tid], t.last[q.tid];
    GrowsAt(s.info, t.info, a);
    if RaceHistory.Ordered(AccessOf(ss, p), AccessOf(ss, q)) {
      if p.tid == q.tid {
        LaterLast(s, t, p.tid);
      }
      CoveredBefore(t.info, a, b);
      RunHappensBeforeTransitive(ss, ls, q.at, a, a, b);
    }
  }

  /** Whatever accesses a run makes to a byte, their clocks make a causal history. */
  lemma RunCausal(ss: seq<State>, ls: seq<Label>, ps: seq<Point>)
    requires IsRun(ss, ls) && Points(ss, ps)
    ensures Causal(History(ss, ps))
  {
    hide Inv;
    hide Step;
    hide PassesOn;
    forall k | 0 <= k < |ps| ensures Own(History(ss, ps)[k]) > 0 {
      RunInv(ss, ls, ps[k].at);
      ShownClock(ss[ps[k].at], ps[k].tid);
    }
    forall j, k | 0 <= j < k < |ps| ensures PassesOn(History(ss, ps)[j], History(ss, ps)[k]) {
      RunPassesOn(ss, ls, ps[j], ps[k]);
    }
  }

  /**
   For every run of the engine and every sequence of non-atomic accesses made to a byte along
   it, the shadow record stays silent exactly when no two of them race.
   */
  lemma RunSilentIffRaceFree(ss: seq<State>, ls: seq<Label>, ps: seq<Point>)
    requires IsRun(ss, ls) && Points(ss, ps)
    ensures Quiet(History(ss, ps)) <==> !HasRace(History(ss, ps))
  {
    hide Step;
    RunCausal(ss, ls, ps);
    QuietIffRaceFree(History(ss, ps));
  }

  // ----- what a race is, without clocks -----

  /** The thread of `p` did something after `p` that the thread of `q` knows of at `q`. */
  ghost predicate KnownSince(ss: seq<State>, p: Point, q: Point)
    requires p.at < |ss| && q.at < |ss| && q.tid in ss[q.at].last && ss[q.at].last[q.tid] in ss[q.at].info
  {
    exists x :: x in ss[q.at].info && x !in ss[p.at].info && x.tid == p.tid
                && HappensBefore(ss[q.at].info, x, ss[q.at].last[q.tid])
  }

  /**
   In every run two accesses race if and only if they are by different threads, one of them writes,
   and nothing that the earlier one's thread did after it happens before the last action of the
   later one's thread.
   */
  lemma RunRacyExact(ss: seq<State>, ls: seq<Label>, p: Point, q: Point)
    requires IsRun(ss, ls) && p.at <= q.at < |ss| && p.tid in ss[p.at].last && q.tid in ss[q.at].last
    ensures ss[q.at].last[q.tid] in ss[q.at].info
    ensures Racy(AccessOf(ss, p), AccessOf(ss, q)) <==> (p.write || q.write) && p.tid != q.tid && !KnownSince(ss, p, q)
  {
    hide Step;
    hide Inv;
    hide EntriesInv;
    var s, t := ss[p.at], ss[q.at];
    RunInv(ss, ls, p.at);
    RunInv(ss, ls, q.at);
    ShownClock(s, p.tid);
    ShownClock(t, q.tid);
    var b := t.last[q.tid];
    if p.tid != q.tid && Get(t.info[b].cv, p.tid) > Own(AccessOf(ss, p)) {
      RunEntries(ss, ls, q.at);
      var x := EntryOf(t, b, p.tid);
      NotOlder(s, x, p.tid);
    }
    if x :| x in t.info && x !in s.info && x.tid == p.tid && HappensBefore(t.info, x, b) {
      if x.seqno <= s.used {
        EngineSync.OlderThere(ss, ls, p.at, q.at, x);
      }
      UsedBound(s, s.last[p.tid]);
    }
  }

  lemma NotOlder(s: State, x: Act, tid: nat)
    requires Inv(s) && tid in s.last && x.tid == tid && x.seqno > s.last[tid].seqno
    ensures x !in s.info
  {
    assert LastCovers(s, x);
  }

  lemma UsedBound(s: State, a: Act)
    requires Inv(s) && a in s.info
    ensures a.seqno <= s.used
  {
    assert WfAct(s.info, s.used, a);
  }
}
