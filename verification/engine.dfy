/**
 What every step of the execution engine keeps, and what follows for every run.
 */
module Engine {
  import opened Sequences
  import opened Options
  import opened Clocks
  import opened MoGraph
  import opened Actions
  import opened Coherence
  import opened ExecutionState

  // ----- invariants of the bookkeeping -----

  ghost predicate LastCovers(s: State, a: Act) {
    a in s.info ==> a.tid in s.last && a.seqno <= s.last[a.tid].seqno && a.tid < s.threads
  }

  ghost predicate ThreadsInv(s: State) {
    && s.threads > 0
    && (forall a {:trigger LastCovers(s, a)} :: LastCovers(s, a))
    && (forall t :: t in s.last ==> s.last[t] in s.info && s.last[t].tid == t)
    && (forall t :: t in s.creation ==> s.creation[t] in s.info)
    && (forall t :: t in s.relFence ==> s.relFence[t] in s.info && s.relFence[t].tid == t)
    && (forall t, k: nat :: t in s.acqCv ==> Get(s.acqCv[t], k) <= s.used)
  }

  ghost predicate Sorted(l: seq<Act>) {
    forall i, j :: 0 <= i < j < |l| ==> l[i].seqno < l[j].seqno
  }

  /** Some listed access of the thread, at or before `a`, stands for the same write. */
  ghost predicate Represented(s: State, a: Act) {
    IsMem(s.info, a) ==> exists b :: Represents(s, b, a)
  }

  ghost predicate Represents(s: State, b: Act, a: Act) {
    && a in s.info && b in s.info && b in At(s.lists, a.loc, a.tid)
    && b.seqno <= a.seqno && Writer(s.info, b) == Writer(s.info, a)
  }

  ghost predicate ListOk(s: State, loc: nat, t: nat) {
    && Sorted(At(s.lists, loc, t))
    && forall b :: b in At(s.lists, loc, t) ==> IsMem(s.info, b) && b.loc == loc && b.tid == t
  }

  ghost predicate WriteListOk(s: State, loc: nat, t: nat) {
    forall b :: b in At(s.wlists, loc, t) ==> IsWrite(s.info, b) && b.loc == loc && b.tid == t
  }

  ghost predicate ListsInv(s: State) {
    && (forall a {:trigger Represented(s, a)} :: Represented(s, a))
    && (forall loc: nat, t: nat {:trigger ListOk(s, loc, t)} :: ListOk(s, loc, t))
    && (forall loc: nat, t: nat {:trigger WriteListOk(s, loc, t)} :: WriteListOk(s, loc, t))
    && (forall loc :: loc in s.lastSc ==> IsWrite(s.info, s.lastSc[loc]) && s.lastSc[loc].loc == loc)
  }

  ghost predicate Inv(s: State) {
    MoInv(s.info, s.used, s.graph) && ThreadsInv(s) && ListsInv(s)
  }

  // ----- the current action -----

  /** The new action's clock: its own number, nothing younger, and everything its thread already knew. */
  lemma BeginOk(s: State, tid: nat, loc: nat, order: Order)
    requires InfosInv(s.info, s.used) && ThreadsInv(s)
    ensures var c := Begin(s, tid, loc, order);
            && c.act.seqno == s.used + 1 && c.act.tid == tid && WfClock(c.act, c.cv)
            && forall a :: a in s.info && a.tid == tid ==> Leq(s.info[a].cv, c.cv)
  {
    var c := Begin(s, tid, loc, order);
    var p := if tid in s.last then s.last[tid] else if tid in s.creation then s.creation[tid] else c.act;
    assert WfAct(s.info, s.used, p);
    forall a | a in s.info && a.tid == tid ensures Leq(s.info[a].cv, c.cv) {
      assert LastCovers(s, a);
      assert ThreadMono(s.info, a, p);
      assert WfAct(s.info, s.used, a);
      forall t: nat ensures Get(s.info[a].cv, t) <= Get(c.cv, t) {
        assert Get(s.info[a].cv, t) <= Get(s.info[p].cv, t);
      }
    }
  }

  lemma {:induction false} RelClockBound(m: Infos, used: nat, w: Act, t: nat)
    requires InfosInv(m, used) && w in m
    ensures Get(RelClock(m, w), t) <= w.seqno
    decreases w.seqno
  {
    assert WfAct(m, used, w);
    HeadClockLeq(m, used, w);
    assert Get(HeadClock(m, w), t) <= Get(m[w].cv, t);
    if m[w].kind.Rmw? {
      RelClockBound(m, used, m[w].rf.value, t);
    }
  }

  // ----- the scans -----

  lemma {:induction false} ReadStopFinds(s: State, c: Cur, rf: Act, t: nat, l: seq<Act>, b: Act)
    requires b in l && HbCur(c, b) && Sorted(l)
    ensures ReadStop(s, c, rf, t, l).Some?
    ensures ReadStop(s, c, rf, t, l).value in l && b.seqno <= ReadStop(s, c, rf, t, l).value.seqno
  {
    var x := l[|l| - 1];
    if !StopsRead(s, c, rf, t, x) {
      ReadStopFinds(s, c, rf, t, l[..|l| - 1], b);
    }
  }

  lemma {:induction false} WriteStopFinds(s: State, c: Cur, t: nat, l: seq<Act>, b: Act)
    requires b in l && HbCur(c, b) && Sorted(l)
    ensures WriteStop(s, c, t, l).Some?
    ensures WriteStop(s, c, t, l).value in l && b.seqno <= WriteStop(s, c, t, l).value.seqno
  {
    var x := l[|l| - 1];
    if !StopsWrite(s, c, t, x) {
      WriteStopFinds(s, c, t, l[..|l| - 1], b);
    }
  }

  lemma {:induction false} ReadStopIn(s: State, c: Cur, rf: Act, t: nat, l: seq<Act>)
    ensures ReadStop(s, c, rf, t, l).Some? ==>
              ReadStop(s, c, rf, t, l).value in l && StopsRead(s, c, rf, t, ReadStop(s, c, rf, t, l).value)
  {
    if l != [] && !StopsRead(s, c, rf, t, l[|l| - 1]) {
      ReadStopIn(s, c, rf, t, l[..|l| - 1]);
    }
  }

  lemma {:induction false} WriteStopIn(s: State, c: Cur, t: nat, l: seq<Act>)
    ensures WriteStop(s, c, t, l).Some? ==> WriteStop(s, c, t, l).value in l
  {
    if l != [] && !StopsWrite(s, c, t, l[|l| - 1]) {
      WriteStopIn(s, c, t, l[..|l| - 1]);
    }
  }

  /** An access stands before any later listed access of its thread. */
  lemma RepresentedBefore(s: State, a: Act, b: Act, x: Act)
    requires Inv(s) && IsMem(s.info, a) && Represents(s, b, a)
    requires x in At(s.lists, a.loc, a.tid) && b.seqno <= x.seqno
    ensures x in s.info && Reach(s.graph, Writer(s.info, a), Writer(s.info, x))
  {
    assert ListOk(s, a.loc, a.tid);
    SameThreadHappensBefore(s.info, s.used, b, x);
    CoherentWriters(s.info, s.used, s.graph, b, x);
  }

  /** The scan of `a`'s thread stops at an access that `a` is ordered before. */
  lemma ReadScanCovers(s: State, c: Cur, rf: Act, a: Act) returns (x: Act)
    requires Inv(s) && IsMem(s.info, a) && a.loc == c.act.loc && Get(c.cv, a.tid) >= a.seqno
    ensures ReadStop(s, c, rf, a.tid, At(s.lists, a.loc, a.tid)) == Some(x)
    ensures x in s.info && Reach(s.graph, Writer(s.info, a), Writer(s.info, x))
  {
    assert WfAct(s.info, s.used, a);
    assert Represented(s, a) && ListOk(s, a.loc, a.tid);
    var b :| Represents(s, b, a);
    assert WfAct(s.info, s.used, b);
    ReadStopFinds(s, c, rf, a.tid, At(s.lists, a.loc, a.tid), b);
    x := ReadStop(s, c, rf, a.tid, At(s.lists, a.loc, a.tid)).value;
    RepresentedBefore(s, a, b, x);
  }

  lemma WriteScanCovers(s: State, c: Cur, a: Act) returns (x: Act)
    requires Inv(s) && IsMem(s.info, a) && a.loc == c.act.loc && Get(c.cv, a.tid) >= a.seqno
    ensures WriteStop(s, c, a.tid, At(s.lists, a.loc, a.tid)) == Some(x)
    ensures x in s.info && Reach(s.graph, Writer(s.info, a), Writer(s.info, x))
  {
    assert WfAct(s.info, s.used, a);
    assert Represented(s, a) && ListOk(s, a.loc, a.tid);
    var b :| Represents(s, b, a);
    assert WfAct(s.info, s.used, b);
    WriteStopFinds(s, c, a.tid, At(s.lists, a.loc, a.tid), b);
    x := WriteStop(s, c, a.tid, At(s.lists, a.loc, a.tid)).value;
    RepresentedBefore(s, a, b, x);
  }

  // ----- the sets of sources -----

  lemma {:induction false} PriorsIn(s: State, c: Cur, rf: Act, k: nat, j: nat)
    requires s.threads > 0 && j < k && ReadTarget(s, c, rf, Visit(s, c, j)).Some?
    requires ReadTarget(s, c, rf, Visit(s, c, j)).value != rf
    ensures ReadTarget(s, c, rf, Visit(s, c, j)).value in Priors(s, c, rf, k)
  {
    if j < k - 1 {
      PriorsIn(s, c, rf, k - 1, j);
    }
  }

  lemma {:induction false} PriorsOnly(s: State, c: Cur, rf: Act, k: nat, p: Act)
    requires c.act.tid < s.threads && k <= s.threads && p in Priors(s, c, rf, k)
    ensures exists t :: 0 <= t < s.threads && ReadTarget(s, c, rf, t) == Some(p) && p != rf
  {
    var tgt := ReadTarget(s, c, rf, Visit(s, c, k - 1));
    if tgt.None? || tgt.value == rf || p in Priors(s, c, rf, k - 1) {
      PriorsOnly(s, c, rf, k - 1, p);
    } else {
      assert p == tgt.value;
    }
  }

  /** The cyclic order visits every thread. */
  lemma VisitsAll(s: State, c: Cur, t: nat) returns (j: nat)
    requires t < s.threads && c.act.tid < s.threads
    ensures j < s.threads && Visit(s, c, j) == t
  {
    j := if t >= c.act.tid then t - c.act.tid else t + s.threads - c.act.tid;
  }

  lemma TargetIsPrior(s: State, c: Cur, rf: Act, t: nat)
    requires t < s.threads && c.act.tid < s.threads && ReadTarget(s, c, rf, t).Some?
    requires ReadTarget(s, c, rf, t).value != rf
    ensures ReadTarget(s, c, rf, t).value in Priors(s, c, rf, s.threads)
  {
    var j := VisitsAll(s, c, t);
    PriorsIn(s, c, rf, s.threads, j);
  }

  lemma {:induction false} EdgeSetIn(s: State, c: Cur, rmw: bool, k: nat, t: nat)
    requires t < k && WriteTarget(s, c, rmw, t).Some?
    ensures WriteTarget(s, c, rmw, t).value in EdgeSet(s, c, rmw, k)
  {
    if t < k - 1 {
      EdgeSetIn(s, c, rmw, k - 1, t);
    }
  }

  lemma WriterIsWrite(s: State, x: Act)
    requires Inv(s) && IsMem(s.info, x)
    ensures IsWrite(s.info, Writer(s.info, x)) && Writer(s.info, x).loc == x.loc
  {
    assert WfAct(s.info, s.used, x);
  }

  lemma {:induction false} EdgeSetWrites(s: State, c: Cur, rmw: bool, k: nat, p: Act)
    requires Inv(s) && p in EdgeSet(s, c, rmw, k)
    ensures IsWrite(s.info, p) && p.loc == c.act.loc
  {
    if k > 0 {
      var tgt := WriteTarget(s, c, rmw, k - 1);
      if tgt.Some? && p !in EdgeSet(s, c, rmw, k - 1) {
        WriteStopIn(s, c, k - 1, At(s.lists, c.act.loc, k - 1));
        assert ListOk(s, c.act.loc, k - 1);
        WriterIsWrite(s, WriteStop(s, c, k - 1, At(s.lists, c.act.loc, k - 1)).value);
      } else {
        EdgeSetWrites(s, c, rmw, k - 1, p);
      }
    }
  }

  lemma TargetWrites(s: State, c: Cur, rf: Act, t: nat)
    requires Inv(s) && ReadTarget(s, c, rf, t).Some?
    ensures IsWrite(s.info, ReadTarget(s, c, rf, t).value) && ReadTarget(s, c, rf, t).value.loc == c.act.loc
  {
    ReadStopIn(s, c, rf, t, At(s.lists, c.act.loc, t));
    assert ListOk(s, c.act.loc, t);
    WriterIsWrite(s, ReadStop(s, c, rf, t, At(s.lists, c.act.loc, t)).value);
  }

  lemma PriorWrites(s: State, c: Cur, rf: Act, p: Act)
    requires Inv(s) && c.act.tid < s.threads && p in Priors(s, c, rf, s.threads)
    ensures IsWrite(s.info, p) && p.loc == c.act.loc && p != rf
  {
    PriorsOnly(s, c, rf, s.threads, p);
    var t :| 0 <= t < s.threads && ReadTarget(s, c, rf, t) == Some(p) && p != rf;
    TargetWrites(s, c, rf, t);
  }

  lemma {:induction false} CandidatesAllowed(s: State, c: Cur, p: Purpose, l: seq<Act>, history: int, w: Act)
    requires w in Candidates(s, c, p, l, history)
    ensures w in l && AllowsRead(s, c, p, w)
    decreases |l|
  {
    var x, rest := l[|l| - 1], l[..|l| - 1];
    if AllowsRead(s, c, p, x) {
      if w != x {
        CandidatesAllowed(s, c, p, rest, history - 1, w);
      }
    } else {
      CandidatesAllowed(s, c, p, rest, history, w);
    }
  }

  lemma {:induction false} CandidateWrites(s: State, c: Cur, p: Purpose, history: int, k: nat, w: Act)
    requires Inv(s) && w in MayReadFrom(s, c, p, history, k)
    ensures IsWrite(s.info, w) && w.loc == c.act.loc && AllowsRead(s, c, p, w)
  {
    if w in MayReadFrom(s, c, p, history, k - 1) {
      CandidateWrites(s, c, p, history, k - 1, w);
    } else {
      CandidatesAllowed(s, c, p, At(s.wlists, c.act.loc, k - 1), history, w);
      assert WriteListOk(s, c.act.loc, k - 1);
    }
  }

  // ----- the graph after the read part -----

  lemma GraphGrows(m: Infos, used: nat, g: Graph, h: Graph)
    requires MoInv(m, used, g) && GraphInv(h) && Embeds(g, h) && NodesAreWrites(m, h)
    requires RmwKept(g, h) && g.Keys <= h.Keys
    ensures MoInv(m, used, h)
  {
    forall a, b ensures Ordered(m, h, a, b) {
      assert Ordered(m, g, a, b);
      if IsMem(m, a) && IsMem(m, b) && Reach(g, Writer(m, a), Observed(m, b)) {
        ReachEmbeds(g, h, Writer(m, a), Observed(m, b));
      }
    }
    forall r ensures RmwRecorded(m, h, r) {
      assert RmwRecorded(m, g, r);
    }
    forall n, r | RmwOf(h, n, r) ensures r in m && m[r].kind.Rmw? && m[r].rf == Some(n) {
      assert RmwOf(g, n, r);
    }
  }

  lemma ReadGraph(s: State, c: Cur, p: Purpose, rf: Act, history: int, g: Graph)
    requires Inv(s) && ReadPart(s, c, p, rf, history, g)
    ensures MoInv(s.info, s.used, g) && Embeds(s.graph, g) && RmwKept(s.graph, g) && s.graph.Keys <= g.Keys
    ensures AllReach(g, Priors(s, c, rf, s.threads), rf)
    ensures EdgeMono(s.graph) ==> EdgeMono(g)
  {
    var froms := Priors(s, c, rf, s.threads);
    CandidateWrites(s, c, p, history, s.threads, rf);
    assert WfAct(s.info, s.used, rf);
    WritesAttached(s.info, s.used, s.graph, rf);
    forall a | a in froms ensures a in WriteSet(s.info) && a.loc == rf.loc {
      PriorWrites(s, c, rf, a);
    }
    AddedAllInv(s.graph, WriteSet(s.info), froms, rf, false, g);
    if EdgeMono(s.graph) {
      AddedAllMono(s.graph, WriteSet(s.info), froms, rf, false, g);
    }
    forall n | n in g ensures IsWrite(s.info, n) {
      assert n in WriteSet(s.info);
    }
    GraphGrows(s.info, s.used, s.graph, g);
  }

  lemma TargetReaches(s: State, c: Cur, rf: Act, t: nat, x: Act, g: Graph)
    requires c.act.tid < s.threads && t < s.threads && x in s.info
    requires AllReach(g, Priors(s, c, rf, s.threads), rf) && ReadTarget(s, c, rf, t) == Some(Writer(s.info, x))
    ensures Reach(g, Writer(s.info, x), rf)
  {
    if Writer(s.info, x) == rf {
      ReachRefl(g, rf);
    } else {
      TargetIsPrior(s, c, rf, t);
      assert Reach(g, Writer(s.info, x), rf);
    }
  }

  /**
   The heart of the read rule. Looking at one access per thread, and at no access at all of
   threads whose clock has not moved, still orders everything the reader knows before `rf`.
   */
  lemma ReadOrders(s: State, c: Cur, rf: Act, g: Graph, a: Act)
    requires Inv(s) && c.act.tid < s.threads && Embeds(s.graph, g)
    requires AllReach(g, Priors(s, c, rf, s.threads), rf)
    requires IsMem(s.info, a) && a.loc == c.act.loc && Get(c.cv, a.tid) >= a.seqno
    ensures Reach(g, Writer(s.info, a), rf)
  {
    assert LastCovers(s, a);
    assert WfAct(s.info, s.used, a);
    var x: Act;
    if SkipsRead(s, c, rf, a.tid) {
      x := PrevSame(s, c, rf).value;
      ReadStopIn(s, c, rf, c.act.tid, At(s.lists, c.act.loc, c.act.tid));
      assert ListOk(s, c.act.loc, c.act.tid);
      CoherentWriters(s.info, s.used, s.graph, a, x);
      TargetReaches(s, c, rf, c.act.tid, x, g);
    } else {
      x := ReadScanCovers(s, c, rf, a);
      TargetReaches(s, c, rf, a.tid, x, g);
    }
    ReachEmbeds(s.graph, g, Writer(s.info, a), Writer(s.info, x));
    ReachTrans(g, Writer(s.info, a), Writer(s.info, x), rf);
  }

  /** Also what the reader learns by acquiring from `rf` is ordered before `rf`. */
  lemma ReadClockOrders(s: State, c: Cur, p: Purpose, rf: Act, history: int, g: Graph, cv: Clock, a: Act)
    requires Inv(s) && c.act.tid < s.threads && ReadPart(s, c, p, rf, history, g) && ReadClock(s, c, rf, cv)
    requires IsMem(s.info, a) && a.loc == c.act.loc && Get(cv, a.tid) >= a.seqno
    ensures Reach(g, Writer(s.info, a), rf)
  {
    ReadGraph(s, c, p, rf, history, g);
    CandidateWrites(s, c, p, history, s.threads, rf);
    if Get(c.cv, a.tid) >= a.seqno {
      ReadOrders(s, c, rf, g, a);
    } else {
      assert Get(cv, a.tid) <= Get(Join(c.cv, RelClock(s.info, rf)), a.tid);
      RelClockOrdered(s.info, s.used, g, rf, a);
    }
  }

  lemma ReadInfoOk(s: State, tid: nat, loc: nat, order: Order, rf: Act, kind: Kind, value: nat, cv: Clock)
    requires Inv(s) && IsWrite(s.info, rf) && rf.loc == loc && (kind.Read? || kind.Rmw?)
    requires ReadClock(s, Begin(s, tid, loc, order), rf, cv)
    ensures NewInfo(s.info, s.used, Begin(s, tid, loc, order).act,
                    Info(kind, order, value, Some(rf), cv, MapGet(s.relFence, tid)))
  {
    var c := Begin(s, tid, loc, order);
    BeginOk(s, tid, loc, order);
    assert WfAct(s.info, s.used, rf);
    forall t: nat ensures Get(cv, t) <= c.act.seqno {
      RelClockBound(s.info, s.used, rf, t);
      assert Get(cv, t) <= Get(if order.IsAcquire() then Join(c.cv, RelClock(s.info, rf)) else c.cv, t);
    }
    assert Leq(c.cv, cv) by {
      forall t: nat ensures Get(c.cv, t) <= Get(cv, t) {
        assert Get(if order.IsAcquire() then Join(c.cv, RelClock(s.info, rf)) else c.cv, t) <= Get(cv, t);
      }
    }
    assert Get(c.cv, tid) <= Get(cv, tid);
    forall a | a in s.info && a.tid == tid ensures Leq(s.info[a].cv, cv) {
      LeqTrans(s.info[a].cv, c.cv, cv);
    }
    if order.IsAcquire() {
      LeqTrans(RelClock(s.info, rf), Join(c.cv, RelClock(s.info, rf)), cv);
    }
  }

  // ----- recording the action -----

  /** `t` is `s` with `a` recorded, whatever happened to the graph and to thread creation. */
  ghost predicate Committed(s: State, a: Act, i: Info, pruned: bool, t: State) {
    t == Commit(s, a, i, pruned)
         .(graph := t.graph, acqCv := t.acqCv, lastSc := t.lastSc, threads := t.threads, creation := t.creation)
  }

  lemma CommittedThreads(s: State, a: Act, i: Info, pruned: bool, t: State)
    requires Inv(s) && NewInfo(s.info, s.used, a, i) && a.tid < s.threads && Committed(s, a, i, pruned, t)
    requires s.threads <= t.threads && forall k :: k in t.creation ==> t.creation[k] in t.info
    requires forall k, j: nat :: k in t.acqCv ==> Get(t.acqCv[k], j) <= t.used
    ensures ThreadsInv(t)
  {
    forall x ensures LastCovers(t, x) {
      assert LastCovers(s, x);
      if x in s.info { NewIsFresh(s.info, s.used, a, x); }
    }
  }

  lemma AppendAt(lists: map<(nat, nat), seq<Act>>, a: Act, loc: nat, t: nat)
    ensures At(Append(lists, a), loc, t) == At(lists, loc, t) + if loc == a.loc && t == a.tid then [a] else []
  {}

  lemma CommittedRepresents(s: State, a: Act, i: Info, pruned: bool, t: State, x: Act)
    requires Inv(s) && NewInfo(s.info, s.used, a, i) && Committed(s, a, i, pruned, t)
    requires pruned ==> exists b :: Represents(t, b, a)
    ensures Represented(t, x)
  {
    AppendAt(s.lists, a, x.loc, x.tid);
    if x == a {
      if i.IsMem() && !pruned {
        assert Represents(t, a, a);
      }
    } else if IsMem(t.info, x) {
      assert Represented(s, x);
      var b :| Represents(s, b, x);
      NewIsFresh(s.info, s.used, a, b);
      assert Represents(t, b, x);
    }
  }

  lemma CommittedListOk(s: State, a: Act, i: Info, pruned: bool, t: State, loc: nat, k: nat)
    requires Inv(s) && NewInfo(s.info, s.used, a, i) && Committed(s, a, i, pruned, t)
    ensures ListOk(t, loc, k)
  {
    assert ListOk(s, loc, k);
    assert InfosInv(s.info, s.used) && a.seqno > s.used;
    hide Inv;
    hide InfosInv;
    hide NewInfo;
    AppendAt(s.lists, a, loc, k);
    forall b | b in At(s.lists, loc, k) ensures b.seqno < a.seqno && b != a {
      NewIsFresh(s.info, s.used, a, b);
    }
  }

  lemma CommittedWriteListOk(s: State, a: Act, i: Info, pruned: bool, t: State, loc: nat, k: nat)
    requires Inv(s) && NewInfo(s.info, s.used, a, i) && Committed(s, a, i, pruned, t)
    ensures WriteListOk(t, loc, k)
  {
    assert WriteListOk(s, loc, k);
    assert InfosInv(s.info, s.used) && a.seqno > s.used;
    hide Inv;
    hide InfosInv;
    hide NewInfo;
    AppendAt(s.wlists, a, loc, k);
    forall b | b in At(s.wlists, loc, k) ensures b != a {
      NewIsFresh(s.info, s.used, a, b);
    }
  }

  lemma CommittedLists(s: State, a: Act, i: Info, pruned: bool, t: State)
    requires Inv(s) && NewInfo(s.info, s.used, a, i) && Committed(s, a, i, pruned, t)
    requires pruned ==> exists b :: Represents(t, b, a)
    requires forall loc :: loc in t.lastSc ==> IsWrite(t.info, t.lastSc[loc]) && t.lastSc[loc].loc == loc
    ensures ListsInv(t)
  {
    forall x ensures Represented(t, x) {
      CommittedRepresents(s, a, i, pruned, t, x);
    }
    forall loc: nat, k: nat ensures ListOk(t, loc, k) {
      CommittedListOk(s, a, i, pruned, t, loc, k);
    }
    forall loc: nat, k: nat ensures WriteListOk(t, loc, k) {
      CommittedWriteListOk(s, a, i, pruned, t, loc, k);
    }
  }

  lemma LastScKept(s: State, a: Act, i: Info, pruned: bool, t: State)
    requires Inv(s) && NewInfo(s.info, s.used, a, i) && Committed(s, a, i, pruned, t)
    requires t.lastSc == s.lastSc || (i.IsWrite() && t.lastSc == s.lastSc[a.loc := a])
    ensures forall loc :: loc in t.lastSc ==> IsWrite(t.info, t.lastSc[loc]) && t.lastSc[loc].loc == loc
  {
    forall loc | loc in s.lastSc ensures s.lastSc[loc] != a {
      NewIsFresh(s.info, s.used, a, s.lastSc[loc]);
    }
  }

  /** The graph invariants once `a` is on record, for an action that is not an RMW. */
  lemma RecordMo(m: Infos, used: nat, g: Graph, a: Act, i: Info, h: Graph)
    requires MoInv(m, used, g) && NewInfo(m, used, a, i) && !i.kind.Rmw?
    requires GraphInv(h) && Embeds(g, h) && RmwKept(g, h) && g.Keys <= h.Keys
    requires forall n :: n in h ==> IsWrite(m, n) || (n == a && i.IsWrite())
    requires forall x {:trigger NewOrdered(m, h, a, i, x)} :: NewOrdered(m, h, a, i, x)
    ensures MoInv(m[a := i], a.seqno, h)
  {
    var n := m[a := i];
    RecordInfos(m, used, a, i);
    RecordCoherent(m, used, g, a, i, h);
    assert WfAct(m, used, a);
    forall r ensures RmwRecorded(n, h, r) {
      assert RmwRecorded(m, g, r);
    }
    forall x, r | RmwOf(h, x, r) ensures r in n && n[r].kind.Rmw? && n[r].rf == Some(x) {
      assert RmwOf(g, x, r);
    }
  }

  // ----- the steps -----

  lemma AcqBound(s: State, tid: nat, rf: Act, acq: map<nat, Clock>)
    requires Inv(s) && rf in s.info && AcqUpdated(s, tid, rf, acq)
    ensures forall k, j: nat :: k in acq ==> Get(acq[k], j) <= s.used
  {
    assert WfAct(s.info, s.used, rf);
    var v :| acq == s.acqCv[tid := v] && SameClock(v, Join(AcqOf(s, tid), RelClock(s.info, rf)));
    forall k, j: nat | k in acq ensures Get(acq[k], j) <= s.used {
      if k == tid {
        RelClockBound(s.info, s.used, rf, j);
        assert Get(v, j) <= Get(Join(AcqOf(s, tid), RelClock(s.info, rf)), j);
      }
    }
  }

  /** What a recorded read needs: `c` is the reading action, `i` its record, `g` the new graph. */
  ghost predicate ReadRecorded(s: State, c: Cur, p: Purpose, rf: Act, history: int, i: Info, g: Graph, acq: map<nat, Clock>) {
    && c == Begin(s, c.act.tid, c.act.loc, c.order)
    && ReadPart(s, c, p, rf, history, g) && ReadClock(s, c, rf, i.cv) && AcqUpdated(s, c.act.tid, rf, acq)
    && i == Info(i.kind, c.order, i.value, Some(rf), i.cv, MapGet(s.relFence, c.act.tid))
  }

  lemma ReadRecordedMo(s: State, c: Cur, p: Purpose, rf: Act, history: int, i: Info, g: Graph, acq: map<nat, Clock>)
    requires Inv(s) && c.act.tid < s.threads && ReadRecorded(s, c, p, rf, history, i, g, acq) && i.kind.Read?
    ensures NewInfo(s.info, s.used, c.act, i)
    ensures MoInv(s.info[c.act := i], c.act.seqno, g)
  {
    CandidateWrites(s, c, p, history, s.threads, rf);
    ReadInfoOk(s, c.act.tid, c.act.loc, c.order, rf, i.kind, i.value, i.cv);
    ReadGraph(s, c, p, rf, history, g);
    forall a ensures NewOrdered(s.info, g, c.act, i, a) {
      if IsMem(s.info, a) && a.loc == c.act.loc && Get(i.cv, a.tid) >= a.seqno {
        ReadClockOrders(s, c, p, rf, history, g, i.cv, a);
      }
    }
    EmbedsSuper(g, g);
    RecordMo(s.info, s.used, g, c.act, i, g);
  }

  lemma PrunedRepresents(s: State, c: Cur, rf: Act, i: Info, t: State)
    requires Inv(s) && NewInfo(s.info, s.used, c.act, i) && CanPrune(s, c, rf) && Committed(s, c.act, i, true, t)
    requires i.kind.Read? && i.rf == Some(rf)
    ensures exists b :: Represents(t, b, c.act)
  {
    var b := ReadStop(s, c, rf, c.act.tid, At(s.lists, c.act.loc, c.act.tid)).value;
    ReadStopIn(s, c, rf, c.act.tid, At(s.lists, c.act.loc, c.act.tid));
    assert ListOk(s, c.act.loc, c.act.tid);
    NewIsFresh(s.info, s.used, c.act, b);
    assert Represents(t, b, c.act);
  }

  /** Both kinds of recorded read keep the invariant. */
  lemma ReadStepInv(s: State, c: Cur, p: Purpose, rf: Act, history: int, i: Info, pruned: bool, t: State)
    requires Inv(s) && c.act.tid < s.threads && i.kind.Read?
    requires ReadRecorded(s, c, p, rf, history, i, t.graph, t.acqCv) && (pruned ==> CanPrune(s, c, rf))
    requires Committed(s, c.act, i, pruned, t)
    requires t.lastSc == s.lastSc && t.threads == s.threads && t.creation == s.creation
    ensures Inv(t)
  {
    CandidateWrites(s, c, p, history, s.threads, rf);
    ReadRecordedMo(s, c, p, rf, history, i, t.graph, t.acqCv);
    AcqBound(s, c.act.tid, rf, t.acqCv);
    CommittedThreads(s, c.act, i, pruned, t);
    if pruned {
      PrunedRepresents(s, c, rf, i, t);
    }
    LastScKept(s, c.act, i, pruned, t);
    CommittedLists(s, c.act, i, pruned, t);
  }

  lemma LoadStepInv(s: State, tid: nat, loc: nat, order: Order, rf: Act, history: int, budget: bool, t: State)
    requires Inv(s) && tid < s.threads && LoadStep(s, tid, loc, order, rf, history, budget, t)
    ensures Inv(t)
  {
    var c := Begin(s, tid, loc, order);
    var g, cv, acq :|
      && ReadPart(s, c, PlainRead, rf, history, g)
      && ReadClock(s, c, rf, cv) && AcqUpdated(s, tid, rf, acq)
      && t == Commit(s, c.act, Info(Read, order, 0, Some(rf), cv, MapGet(s.relFence, tid)), budget && CanPrune(s, c, rf))
                .(graph := g, acqCv := acq);
    ReadStepInv(s, c, PlainRead, rf, history, t.info[c.act], budget && CanPrune(s, c, rf), t);
  }

  lemma FailedSwapStepInv(s: State, tid: nat, loc: nat, order: Order, p: Purpose, rf: Act, history: int, t: State)
    requires Inv(s) && tid < s.threads && FailedSwapStep(s, tid, loc, order, p, rf, history, t)
    ensures Inv(t)
  {
    var c := Begin(s, tid, loc, order);
    var g, cv, acq :|
      && p.CompareSwap? && !WouldSucceed(s.info, rf, p) && ReadPart(s, c, p, rf, history, g)
      && ReadClock(s, c, rf, cv) && AcqUpdated(s, tid, rf, acq)
      && t == Commit(s, c.act, Info(Read, order, p.expected, Some(rf), cv, MapGet(s.relFence, tid)), false)
                .(graph := g, acqCv := acq);
    ReadStepInv(s, c, p, rf, history, t.info[c.act], false, t);
  }

  lemma StoreGraph(s: State, c: Cur, g: Graph)
    requires Inv(s) && c.act.seqno > s.used && AddedPruned(s.graph, EdgeSet(s, c, false, s.threads), c.act, g)
    ensures GraphInv(g) && Embeds(s.graph, g) && RmwKept(s.graph, g) && s.graph.Keys <= g.Keys
    ensures forall n :: n in g ==> IsWrite(s.info, n) || n == c.act
    ensures AllReach(g, EdgeSet(s, c, false, s.threads), c.act)
    ensures EdgeMono(s.graph) ==> EdgeMono(g)
  {
    var es := EdgeSet(s, c, false, s.threads);
    WritesAttached(s.info, s.used, s.graph, c.act);
    forall a | a in es ensures a in WriteSet(s.info) && a.loc == c.act.loc {
      EdgeSetWrites(s, c, false, s.threads, a);
    }
    AddedPrunedInv(s.graph, WriteSet(s.info), es, c.act, g);
    forall n | n in g ensures IsWrite(s.info, n) || n == c.act {
      assert n in WriteSet(s.info) + {c.act};
    }
  }

  /** Looking at one access per thread orders everything the writer knows before the new write. */
  lemma StoreOrders(s: State, c: Cur, g: Graph, a: Act)
    requires Inv(s) && c.act.seqno > s.used && AddedPruned(s.graph, EdgeSet(s, c, false, s.threads), c.act, g)
    requires IsMem(s.info, a) && a.loc == c.act.loc && Get(c.cv, a.tid) >= a.seqno
    ensures Reach(g, Writer(s.info, a), c.act)
  {
    StoreGraph(s, c, g);
    assert LastCovers(s, a);
    var x := WriteScanCovers(s, c, a);
    EdgeSetIn(s, c, false, s.threads, a.tid);
    assert Reach(g, Writer(s.info, x), c.act);
    ReachEmbeds(s.graph, g, Writer(s.info, a), Writer(s.info, x));
    ReachTrans(g, Writer(s.info, a), Writer(s.info, x), c.act);
  }

  lemma PlainInfoOk(s: State, tid: nat, loc: nat, order: Order, i: Info)
    requires Inv(s) && !i.IsRead() && i.rf.None? && i.fence == MapGet(s.relFence, tid)
    requires Leq(Begin(s, tid, loc, order).cv, i.cv) && WfClock(Begin(s, tid, loc, order).act, i.cv)
    ensures NewInfo(s.info, s.used, Begin(s, tid, loc, order).act, i)
  {
    var c := Begin(s, tid, loc, order);
    BeginOk(s, tid, loc, order);
    forall a | a in s.info && a.tid == tid ensures Leq(s.info[a].cv, i.cv) {
      LeqTrans(s.info[a].cv, c.cv, i.cv);
    }
  }

  lemma StoreStepInv(s: State, tid: nat, loc: nat, order: Order, value: nat, t: State)
    requires Inv(s) && tid < s.threads && StoreStep(s, tid, loc, order, value, t)
    ensures Inv(t)
  {
    var c := Begin(s, tid, loc, order);
    var i := Info(Write, order, value, None, c.cv, MapGet(s.relFence, tid));
    BeginOk(s, tid, loc, order);
    PlainInfoOk(s, tid, loc, order, i);
    StoreGraph(s, c, t.graph);
    forall a ensures NewOrdered(s.info, t.graph, c.act, i, a) {
      if IsMem(s.info, a) && a.loc == loc && Get(c.cv, a.tid) >= a.seqno {
        StoreOrders(s, c, t.graph, a);
      }
    }
    RecordMo(s.info, s.used, s.graph, c.act, i, t.graph);
    CommittedThreads(s, c.act, i, false, t);
    LastScKept(s, c.act, i, false, t);
    CommittedLists(s, c.act, i, false, t);
  }

  /** Fences, joins, locks and thread creation touch neither the graph nor the access lists. */
  lemma OtherStepInv(s: State, tid: nat, loc: nat, order: Order, i: Info, t: State)
    requires Inv(s) && tid < s.threads && !i.IsMem() && i.rf.None? && i.fence == MapGet(s.relFence, tid)
    requires Leq(Begin(s, tid, loc, order).cv, i.cv) && WfClock(Begin(s, tid, loc, order).act, i.cv)
    requires Committed(s, Begin(s, tid, loc, order).act, i, false, t)
    requires t.graph == s.graph && t.acqCv == s.acqCv && t.lastSc == s.lastSc
    requires s.threads <= t.threads && forall k :: k in t.creation ==> t.creation[k] in t.info
    ensures Inv(t)
  {
    var c := Begin(s, tid, loc, order);
    PlainInfoOk(s, tid, loc, order, i);
    EmbedsSuper(s.graph, s.graph);
    forall a ensures NewOrdered(s.info, s.graph, c.act, i, a) {}
    RecordMo(s.info, s.used, s.graph, c.act, i, s.graph);
    CommittedThreads(s, c.act, i, false, t);
    LastScKept(s, c.act, i, false, t);
    CommittedLists(s, c.act, i, false, t);
  }

  /** Merging an older clock into a new action's clock keeps it well formed. */
  lemma JoinOk(c: Cur, older: Clock, cv: Clock)
    requires WfClock(c.act, c.cv) && SameClock(cv, Join(c.cv, older))
    requires forall t: nat :: Get(older, t) < c.act.seqno
    ensures WfClock(c.act, cv) && Leq(c.cv, cv)
  {
    forall t: nat ensures Get(cv, t) == Max(Get(c.cv, t), Get(older, t)) {
      assert Get(cv, t) <= Get(Join(c.cv, older), t) <= Get(cv, t);
    }
  }

  lemma SameOk(c: Cur, cv: Clock)
    requires WfClock(c.act, c.cv) && SameClock(cv, c.cv)
    ensures WfClock(c.act, cv) && Leq(c.cv, cv)
  {
    forall t: nat ensures Get(cv, t) == Get(c.cv, t) {
      assert Get(cv, t) <= Get(c.cv, t) <= Get(cv, t);
    }
  }

  lemma FenceClockOk(s: State, c: Cur, cv: Clock)
    requires ThreadsInv(s) && WfClock(c.act, c.cv) && c.act.seqno == s.used + 1
    requires SameClock(cv, if c.order.IsAcquire() then Join(c.cv, AcqOf(s, c.act.tid)) else c.cv)
    ensures WfClock(c.act, cv) && Leq(c.cv, cv)
  {
    if c.order.IsAcquire() {
      JoinOk(c, AcqOf(s, c.act.tid), cv);
    } else {
      SameOk(c, cv);
    }
  }

  lemma FenceStepInv(s: State, tid: nat, order: Order, t: State)
    requires Inv(s) && tid < s.threads && FenceStep(s, tid, order, t)
    ensures Inv(t)
  {
    var c := Begin(s, tid, FENCE_LOCATION, order);
    BeginOk(s, tid, FENCE_LOCATION, order);
    var cv :|
      && SameClock(cv, if order.IsAcquire() then Join(c.cv, AcqOf(s, tid)) else c.cv)
      && t == Commit(s, c.act, Info(Kind.Fence, order, 0, None, cv, MapGet(s.relFence, tid)), false);
    FenceClockOk(s, c, cv);
    hide Inv;
    OtherStepInv(s, tid, FENCE_LOCATION, order, t.info[c.act], t);
  }

  lemma SyncStepInv(s: State, tid: nat, loc: nat, first: Option<Act>, t: State)
    requires Inv(s) && tid < s.threads && SyncStep(s, tid, loc, first, t)
    ensures Inv(t)
  {
    var c := Begin(s, tid, loc, SeqCst);
    BeginOk(s, tid, loc, SeqCst);
    var cv :|
      && SameClock(cv, if first.Some? then Join(c.cv, CvOf(s.info, first.value)) else c.cv)
      && t == Commit(s, c.act, Info(Other, SeqCst, 0, None, cv, MapGet(s.relFence, tid)), false);
    if first.Some? {
      assert WfAct(s.info, s.used, first.value);
      JoinOk(c, CvOf(s.info, first.value), cv);
    } else {
      SameOk(c, cv);
    }
    OtherStepInv(s, tid, loc, SeqCst, t.info[c.act], t);
  }

  lemma SpawnStepInv(s: State, tid: nat, loc: nat, t: State)
    requires Inv(s) && tid < s.threads && SpawnStep(s, tid, loc, t)
    ensures Inv(t)
  {
    BeginOk(s, tid, loc, SeqCst);
    OtherStepInv(s, tid, loc, SeqCst, t.info[Begin(s, tid, loc, SeqCst).act], t);
  }

  // ----- the RMW step -----

  /** Before the splice both nodes exist, and neither has been read by an RMW. */
  lemma RmwSpliceReady(s: State, c: Cur, p: Purpose, rf: Act, history: int, g1: Graph)
    requires Inv(s) && c.act.seqno > s.used && ReadPart(s, c, p, rf, history, g1) && WouldSucceed(s.info, rf, p)
    ensures IsWrite(s.info, rf) && rf.loc == c.act.loc
    ensures var g := WithNode(WithNode(g1, rf), c.act);
            GraphInv(g) && Embeds(g1, g) && RmwKept(g1, g) && g.Keys == g1.Keys + {rf, c.act} &&
            SpliceReady(g, rf, c.act) && g[c.act] == FreshNode(c.act) && (EdgeMono(g1) ==> EdgeMono(g))
  {
    CandidateWrites(s, c, p, history, s.threads, rf);
    ReadGraph(s, c, p, rf, history, g1);
    assert WfAct(s.info, s.used, rf);
    assert WfAct(s.info, s.used, c.act);
    WithTwoInv(g1, rf, c.act);
    assert c.act !in g1;
  }

  /** After the splice the RMW can be recorded: all the reader knows is ordered before `rf`, hence before it. */
  lemma RmwRecordedMo(s: State, c: Cur, p: Purpose, rf: Act, history: int, i: Info, g1: Graph, g2: Graph)
    requires Inv(s) && c == Begin(s, c.act.tid, c.act.loc, c.order) && c.act.tid < s.threads
    requires RmwSpliced(s, c, p, rf, history, i, g1, g2)
    ensures NewInfo(s.info, s.used, c.act, i)
    ensures MoInv(s.info[c.act := i], c.act.seqno, g2) && Embeds(s.graph, g2)
  {
    var n := s.info[c.act := i];
    var g := WithNode(WithNode(g1, rf), c.act);
    RmwSpliceReady(s, c, p, rf, history, g1);
    ReadGraph(s, c, p, rf, history, g1);
    ReadInfoOk(s, c.act.tid, c.act.loc, c.order, rf, i.kind, i.value, i.cv);
    AddedRmwInv(g, rf, c.act, g2);
    EmbedsTrans(g1, g, g2);
    EmbedsTrans(s.graph, g1, g2);
    forall a ensures NewOrdered(s.info, g2, c.act, i, a) {
      if IsMem(s.info, a) && a.loc == c.act.loc && Get(i.cv, a.tid) >= a.seqno {
        ReadClockOrders(s, c, p, rf, history, g1, i.cv, a);
        ReachEmbeds(g1, g2, Writer(s.info, a), rf);
      }
    }
    RecordInfos(s.info, s.used, c.act, i);
    RecordCoherent(s.info, s.used, g1, c.act, i, g2);
    RmwLinkedAfter(s.info, s.used, g1, rf, c.act, i, g, g2);
  }

  lemma RmwLinkedAfter(m: Infos, used: nat, g1: Graph, rf: Act, a: Act, i: Info, g: Graph, g2: Graph)
    requires MoInv(m, used, g1) && NewInfo(m, used, a, i) && i.kind.Rmw? && i.rf == Some(rf)
    requires RmwKept(g1, g) && g.Keys == g1.Keys + {rf, a} && g2.Keys == g.Keys && g[rf].rmw.None?
    requires forall n :: n in g ==> g2[n].rmw == if n == rf then Some(a) else g[n].rmw
    ensures RmwLinked(m[a := i], g2) && NodesAreWrites(m[a := i], g2)
  {
    var n := m[a := i];
    assert WfAct(m, used, a);
    forall r ensures RmwRecorded(n, g2, r) {
      assert RmwRecorded(m, g1, r);
    }
    forall x, r | RmwOf(g2, x, r) ensures r in n && n[r].kind.Rmw? && n[r].rf == Some(x) {
      assert x != rf ==> RmwOf(g1, x, r);
    }
  }

  lemma RmwWritePart(s: State, c: Cur, i: Info, es: seq<Act>, g2: Graph, g3: Graph)
    requires InfosInv(s.info, s.used) && NewInfo(s.info, s.used, c.act, i) && i.IsWrite()
    requires MoInv(s.info[c.act := i], c.act.seqno, g2) && AddedPruned(g2, es, c.act, g3)
    requires forall a :: a in es ==> IsWrite(s.info, a) && a.loc == c.act.loc
    ensures MoInv(s.info[c.act := i], c.act.seqno, g3) && Embeds(g2, g3) && AllReach(g3, es, c.act)
    ensures EdgeMono(g2) ==> EdgeMono(g3)
  {
    var n := s.info[c.act := i];
    WritesAttached(n, c.act.seqno, g2, c.act);
    forall a | a in es ensures a in WriteSet(n) && a.loc == c.act.loc {
      NewIsFresh(s.info, s.used, c.act, a);
    }
    AddedPrunedInv(g2, WriteSet(n), es, c.act, g3);
    forall x | x in g3 ensures IsWrite(n, x) {
      assert x in WriteSet(n) + {c.act};
    }
    GraphGrows(n, c.act.seqno, g2, g3);
  }

  lemma RmwViaInv(s: State, c: Cur, p: Purpose, rf: Act, history: int, i: Info, g1: Graph, g2: Graph, t: State)
    requires Inv(s) && c == Begin(s, c.act.tid, c.act.loc, c.order) && c.act.tid < s.threads
    requires RmwStepVia(s, c, p, rf, history, i, g1, g2, t)
    ensures Inv(t)
  {
    var es := EdgeSet(s, c.(cv := i.cv), true, s.threads);
    CandidateWrites(s, c, p, history, s.threads, rf);
    RmwRecordedMo(s, c, p, rf, history, i, g1, g2);
    forall a | a in es ensures IsWrite(s.info, a) && a.loc == c.act.loc {
      EdgeSetWrites(s, c.(cv := i.cv), true, s.threads, a);
    }
    RmwWritePart(s, c, i, es, g2, t.graph);
    AcqBound(s, c.act.tid, rf, t.acqCv);
    CommittedThreads(s, c.act, i, false, t);
    LastScKept(s, c.act, i, false, t);
    CommittedLists(s, c.act, i, false, t);
  }

  lemma RmwStepInv(s: State, tid: nat, loc: nat, order: Order, p: Purpose, rf: Act, history: int, value: nat, t: State)
    requires Inv(s) && tid < s.threads && RmwStep(s, tid, loc, order, p, rf, history, value, t)
    ensures Inv(t)
  {
    var i: Info, g1, g2 :| i.value == value && RmwStepVia(s, Begin(s, tid, loc, order), p, rf, history, i, g1, g2, t);
    RmwViaInv(s, Begin(s, tid, loc, order), p, rf, history, i, g1, g2, t);
  }

  // ----- every run -----

  lemma InitInv()
    ensures Inv(Init())
  {
    var s := Init();
    forall a ensures LastCovers(s, a) {}
    forall a ensures Represented(s, a) {}
    assert InfosInv(s.info, s.used);
    assert GraphInv(s.graph);
    assert Coherent(s.info, s.graph);
    assert RmwLinked(s.info, s.graph);
  }

  lemma DeferInv(s: State)
    requires Inv(s)
    ensures Inv(s.(used := s.used + 1))
  {
    var t := s.(used := s.used + 1);
    assert InfosInv(t.info, t.used) by {
      forall a ensures WfAct(t.info, t.used, a) {
        assert WfAct(s.info, s.used, a);
      }
    }
    forall a ensures LastCovers(t, a) { assert LastCovers(s, a); }
    assert ListsInv(t) by {
      forall a ensures Represented(t, a) {
        assert Represented(s, a);
        if IsMem(s.info, a) {
          var b :| Represents(s, b, a);
          assert Represents(t, b, a);
        }
      }
      forall loc: nat, k: nat ensures ListOk(t, loc, k) { assert ListOk(s, loc, k); }
      forall loc: nat, k: nat ensures WriteListOk(t, loc, k) { assert WriteListOk(s, loc, k); }
    }
  }

  lemma StepInv(s: State, l: Label, t: State)
    requires Inv(s) && Step(s, l, t)
    ensures Inv(t)
  {
    hide Inv;
    hide LoadStep;
    hide FailedSwapStep;
    hide StoreStep;
    hide RmwStep;
    hide FenceStep;
    hide SyncStep;
    hide SpawnStep;
    match l
    case Load(tid, loc, order, rf, history, budget) => LoadStepInv(s, tid, loc, order, rf, history, budget, t);
    case Store(tid, loc, order, value) => StoreStepInv(s, tid, loc, order, value, t);
    case Update(tid, loc, order, p, rf, history, value) => RmwStepInv(s, tid, loc, order, p, rf, history, value, t);
    case FailedSwap(tid, loc, order, p, rf, history) => FailedSwapStepInv(s, tid, loc, order, p, rf, history, t);
    case FenceOp(tid, order) => FenceStepInv(s, tid, order, t);
    case Sync(tid, loc, first) => SyncStepInv(s, tid, loc, first, t);
    case Spawn(tid, loc) => SpawnStepInv(s, tid, loc, t);
    case Defer(_) => DeferInv(s);
  }

  lemma {:induction false} RunInv(ss: seq<State>, ls: seq<Label>, i: nat)
    requires IsRun(ss, ls) && i < |ss|
    ensures Inv(ss[i])
  {
    hide Inv;
    hide Step;
    if i == 0 {
      InitInv();
    } else {
      RunInv(ss, ls, i - 1);
      StepInv(ss[i - 1], ls[i - 1], ss[i]);
    }
  }

  /**
   Coherence of every run: if `a` happens before `b` and both access the same location, the
   write of `a` equals or reaches, in modification order, the write of `b`; and for a read it
   equals or reaches what the read returned.
   */
  lemma RunCoherent(ss: seq<State>, ls: seq<Label>, i: nat, a: Act, b: Act)
    requires IsRun(ss, ls) && i < |ss|
    requires IsMem(ss[i].info, a) && IsMem(ss[i].info, b) && a.loc == b.loc && HappensBefore(ss[i].info, a, b)
    ensures Reach(ss[i].graph, Writer(ss[i].info, a), Writer(ss[i].info, b))
    ensures a != b ==> Reach(ss[i].graph, Writer(ss[i].info, a), Observed(ss[i].info, b))
  {
    RunInv(ss, ls, i);
    var s := ss[i];
    CoherentWriters(s.info, s.used, s.graph, a, b);
    assert Ordered(s.info, s.graph, a, b);
  }

  /** In every run the one-entry test is sound: it never claims an order the graph does not have. */
  lemma RunTestSound(ss: seq<State>, ls: seq<Label>, i: nat, a: Act, b: Act)
    requires IsRun(ss, ls) && i < |ss|
    requires a.loc == b.loc && Test(ss[i].graph, a, b)
    ensures Reach(ss[i].graph, a, b)
  {
    RunInv(ss, ls, i);
    CommittedTestSound(ss[i].info, ss[i].used, ss[i].graph, a, b);
  }

  /** In every run at most one RMW reads from any write, and it is the write's only successor. */
  lemma RunOneRmw(ss: seq<State>, ls: seq<Label>, i: nat, r: Act, q: Act)
    requires IsRun(ss, ls) && i < |ss|
    requires r in ss[i].info && ss[i].info[r].kind.Rmw? && q in ss[i].info && ss[i].info[q].kind.Rmw?
    ensures ss[i].info[r].rf == ss[i].info[q].rf ==> r == q
    ensures ss[i].info[r].rf.Some? && ss[i].info[r].rf.value in ss[i].graph
    ensures ss[i].graph[ss[i].info[r].rf.value].edges == [r]
  {
    RunInv(ss, ls, i);
    var s := ss[i];
    assert WfAct(s.info, s.used, r);
    assert RmwRecorded(s.info, s.graph, r) && RmwRecorded(s.info, s.graph, q);
    assert RmwOf(s.graph, s.info[r].rf.value, r);
  }

  /** In every run out-edge and in-edge lists are mutual inverses without repetition. */
  lemma RunListsInverse(ss: seq<State>, ls: seq<Label>, i: nat, u: Act, v: Act)
    requires IsRun(ss, ls) && i < |ss| && u in ss[i].graph && v in ss[i].graph
    ensures v in ss[i].graph[u].edges <==> u in ss[i].graph[v].inedges
    ensures Distinct(ss[i].graph[u].edges) && Distinct(ss[i].graph[u].inedges)
  {
    RunInv(ss, ls, i);
  }
}
