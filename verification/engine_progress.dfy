/**
 When a read finds a write it may read from: on an acyclic modification order the loop of
 `process_read` always ends with one, as soon as the location was written.
 */
module EngineProgress {
  import opened Options
  import opened Clocks
  import opened MoGraph
  import opened Actions
  import opened Coherence
  import opened ExecutionState
  import opened Engine
  import opened EngineOrder
  import opened EngineClocks

  // ----- the lists of writes -----

  /** Every write is in the list of its thread, which is in execution order. */
  ghost predicate WriteListed(s: State, a: Act) {
    IsWrite(s.info, a) ==> a in At(s.wlists, a.loc, a.tid) && Sorted(At(s.wlists, a.loc, a.tid))
  }

  ghost predicate WritesInv(s: State) {
    forall a {:trigger WriteListed(s, a)} :: WriteListed(s, a)
  }

  /** `t` records `a` with `i`. */
  ghost predicate Records(s: State, a: Act, i: Info, t: State) {
    && t.info == s.info[a := i] && a.seqno == s.used + 1
    && t.wlists == if i.IsWrite() then Append(s.wlists, a) else s.wlists
  }

  lemma StepWrites(s: State, l: Label, t: State) returns (a: Act, i: Info)
    requires Step(s, l, t) && !l.Defer?
    ensures Records(s, a, i, t)
  {
    match l {
      case Load(tid, loc, order, rf, history, budget) => a := Begin(s, tid, loc, order).act;
      case Store(tid, loc, order, value) => a := Begin(s, tid, loc, order).act;
      case Update(tid, loc, order, p, rf, history, value) => a := Begin(s, tid, loc, order).act;
      case FailedSwap(tid, loc, order, p, rf, history) => a := Begin(s, tid, loc, order).act;
      case FenceOp(tid, order) => a := Begin(s, tid, FENCE_LOCATION, order).act;
      case Sync(tid, loc, first) => a := Begin(s, tid, loc, SeqCst).act;
      case Spawn(tid, loc) => a := Begin(s, tid, loc, SeqCst).act;
    }
    i := t.info[a];
  }

  lemma RecordedListed(s: State, a: Act, i: Info, t: State)
    requires Inv(s) && WritesInv(s) && Records(s, a, i, t)
    ensures WritesInv(t)
  {
    forall b ensures WriteListed(t, b) {
      assert WriteListed(s, b) && WriteListOk(s, a.loc, a.tid);
      var l := At(s.wlists, a.loc, a.tid);
      forall k | 0 <= k < |l| ensures l[k].seqno < a.seqno && WriteListed(s, l[k]) {
        assert l[k] in l;
        assert WfAct(s.info, s.used, l[k]);
      }
      if l != [] {
        assert l[0] in l && Sorted(l);
      }
    }
  }

  lemma {:induction false} RunWrites(ss: seq<State>, ls: seq<Label>, i: nat)
    requires IsRun(ss, ls) && i < |ss|
    ensures WritesInv(ss[i])
  {
    hide Step;
    hide Inv;
    hide WritesInv;
    if i == 0 {
      InitListed();
    } else {
      RunWrites(ss, ls, i - 1);
      RunInv(ss, ls, i - 1);
      if ls[i - 1].Defer? {
        DeferListed(ss[i - 1], ls[i - 1], ss[i]);
      } else {
        var a, n := StepWrites(ss[i - 1], ls[i - 1], ss[i]);
        RecordedListed(ss[i - 1], a, n, ss[i]);
      }
    }
  }

  lemma InitListed()
    ensures WritesInv(Init())
  {
    forall a ensures WriteListed(Init(), a) {}
  }

  lemma DeferListed(s: State, l: Label, t: State)
    requires WritesInv(s) && Step(s, l, t) && l.Defer?
    ensures WritesInv(t)
  {
    forall a ensures WriteListed(t, a) {
      assert WriteListed(s, a);
    }
  }

  // ----- every write is ordered before a candidate -----

  /** What is known of a state of a run. */
  ghost predicate Reached(s: State) {
    Inv(s) && WritesInv(s) && ScInv(s)
  }

  lemma LaterReached(s: State, a: Act, b: Act)
    requires Inv(s) && IsWrite(s.info, a) && IsWrite(s.info, b) && a != b && a.loc == b.loc && HappensBefore(s.info, a, b)
    ensures Reach(s.graph, a, b)
  {
    assert Ordered(s.info, s.graph, a, b);
    ObservedReachesWriter(s.info, s.used, s.graph, b);
    ReachTrans(s.graph, a, Observed(s.info, b), b);
  }

  lemma SameThreadBefore(s: State, a: Act, b: Act)
    requires Inv(s) && IsWrite(s.info, a) && IsWrite(s.info, b) && a.tid == b.tid && a.seqno < b.seqno
    ensures HappensBefore(s.info, a, b)
  {
    assert WfAct(s.info, s.used, a) && WfAct(s.info, s.used, b) && ThreadMono(s.info, a, b);
    assert Get(s.info[a].cv, a.tid) <= Get(s.info[b].cv, a.tid);
  }

  /** A write that a read may not read has a later one that it is ordered before. */
  lemma DeniedLater(s: State, c: Cur, p: Purpose, w: Act) returns (x: Act)
    requires Reached(s) && IsWrite(s.info, w) && w.loc == c.act.loc && !AllowsRead(s, c, p, w)
    ensures IsWrite(s.info, x) && x.loc == w.loc && w.seqno < x.seqno && Reach(s.graph, w, x)
  {
    if WouldSucceed(s.info, w, p) && HasRmw(s.graph, w) {
      x := s.graph[w].rmw.value;
      assert RmwOf(s.graph, w, x);
      assert WfAct(s.info, s.used, x);
      assert Edge(s.graph, w, x);
      ReachEdge(s.graph, w, x);
    } else {
      assert ScLast(s, w);
      x := s.lastSc[c.act.loc];
      assert ScPair(s, w, x);
      if !SeqCstAct(s.info, w) {
        LaterReached(s, w, x);
        CoveredOlder(s, w, x);
      } else {
        assert !SameSeq(w, x);
      }
    }
  }

  lemma CoveredOlder(s: State, a: Act, b: Act)
    requires Inv(s) && a in s.info && b in s.info && a != b && HappensBefore(s.info, a, b)
    ensures a.seqno < b.seqno
  {
    assert WfAct(s.info, s.used, a) && WfAct(s.info, s.used, b) && !SameSeq(a, b);
    assert Get(s.info[b].cv, a.tid) <= b.seqno;
  }

  lemma {:induction false} CandidateAfter(s: State, c: Cur, p: Purpose, history: int, w: Act) returns (q: Act)
    requires Reached(s) && IsWrite(s.info, w) && w.loc == c.act.loc
    ensures q in MayReadFrom(s, c, p, history, s.threads) && Reach(s.graph, w, q)
    decreases s.used - w.seqno
  {
    hide AllowsRead;
    hide MayReadFrom;
    var l := At(s.wlists, w.loc, w.tid);
    assert WriteListed(s, w) && WriteListOk(s, w.loc, w.tid) && LastCovers(s, w);
    assert WfAct(s.info, s.used, w);
    var x := l[|l| - 1];
    if x != w {
      assert x in l;
      SameThreadBefore(s, w, x);
      LaterReached(s, w, x);
      assert WfAct(s.info, s.used, x);
    } else if AllowsRead(s, c, p, w) {
      LastCandidate(s, c, p, history, w.tid, s.threads);
      ReachRefl(s.graph, w);
      return w;
    } else {
      x := DeniedLater(s, c, p, w);
      assert WfAct(s.info, s.used, x);
    }
    q := CandidateAfter(s, c, p, history, x);
    ReachTrans(s.graph, w, x, q);
  }

  // ----- some candidate is accepted -----

  /** Of finitely many writes some reaches no other. */
  lemma {:induction false} SomeLast(g: Graph, qs: seq<Act>) returns (q: Act)
    requires Acyclic(g) && qs != []
    ensures q in qs && forall r :: r in qs && Reach(g, q, r) ==> r == q
  {
    var init, last := qs[..|qs| - 1], qs[|qs| - 1];
    assert qs == init + [last];
    if init == [] {
      return last;
    }
    q := SomeLast(g, init);
    if Reach(g, q, last) {
      forall r | r in qs && Reach(g, last, r) ensures r == last {
        ReachTrans(g, q, last, r);
        if r in init {
          AcyclicApart(g, last, q);
        }
      }
      q := last;
    }
  }

  /** A candidate that reaches no other candidate passes the check. */
  lemma LastAccepted(s: State, c: Cur, p: Purpose, history: int, q: Act)
    requires Reached(s) && Acyclic(s.graph) && c.act.tid < s.threads && q in MayReadFrom(s, c, p, history, s.threads)
    requires forall r :: r in MayReadFrom(s, c, p, history, s.threads) && Reach(s.graph, q, r) ==> r == q
    ensures ReadAccepts(s, c, q)
  {
    hide MayReadFrom;
    CandidateWrites(s, c, p, history, s.threads, q);
    forall t | 0 <= t < s.threads ensures Passes(s, c, q, t) {
      var target := ReadTarget(s, c, q, t);
      if target.Some? && target.value != q && Test(s.graph, q, target.value) {
        TargetWrites(s, c, q, t);
        CommittedTestSound(s.info, s.used, s.graph, q, target.value);
        var r := CandidateAfter(s, c, p, history, target.value);
        ReachTrans(s.graph, q, target.value, r);
        AcyclicApart(s.graph, q, target.value);
      }
    }
  }

  /**
   In every run, while the modification order is acyclic, a read, be it a load, a fetch-and-op or
   a compare-and-swap, finds a write to read from if and only if its location has been written.
   */
  lemma RunProgress(ss: seq<State>, ls: seq<Label>, i: nat, c: Cur, p: Purpose, history: int)
    requires IsRun(ss, ls) && i < |ss| && Acyclic(ss[i].graph) && c.act.tid < ss[i].threads
    ensures !Stuck(ss[i], c, p, history) <==> exists w :: IsWrite(ss[i].info, w) && w.loc == c.act.loc
  {
    var s := ss[i];
    RunInv(ss, ls, i);
    RunWrites(ss, ls, i);
    RunScInv(ss, ls, i);
    hide Inv;
    hide WritesInv;
    hide ScInv;
    hide MayReadFrom;
    hide ReadAccepts;
    if w :| IsWrite(s.info, w) && w.loc == c.act.loc {
      var r := CandidateAfter(s, c, p, history, w);
      var q := SomeLast(s.graph, MayReadFrom(s, c, p, history, s.threads));
      LastAccepted(s, c, p, history, q);
    }
    forall rf | rf in MayReadFrom(s, c, p, history, s.threads) ensures IsWrite(s.info, rf) && rf.loc == c.act.loc {
      CandidateWrites(s, c, p, history, s.threads, rf);
    }
  }
}
