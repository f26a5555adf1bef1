/**
 Further properties of whole runs: when the one-entry test decides reachability exactly, that
 the modification order of runs without successful RMWs is acyclic, that sequentially
 consistent writes are ordered as executed, and that happens-before is transitive.
 */
module EngineOrder {
  import opened Options
  import opened Clocks
  import opened MoGraph
  import opened Actions
  import opened Coherence
  import opened ExecutionState
  import opened Engine

  // ----- exactness of the clock test -----

  lemma NoSuccessorReach(g: Graph, a: Act, b: Act)
    requires Reach(g, a, b) && (a in g ==> g[a].edges == [])
    ensures a == b
  {
    var p :| Walk(g, a, p, b);
  }

  /** A node without edges that is younger than all others is in nobody's clock. */
  lemma FreshUnknown(g: Graph, rmw: Act)
    requires Justified(g) && rmw in g && g[rmw] == FreshNode(rmw)
    requires forall n :: n in g && n != rmw ==> n.seqno < rmw.seqno
    ensures JustCreated(g, rmw)
  {
    forall n | n in g && n != rmw ensures Get(g[n].cv, rmw.tid) < rmw.seqno {
      if Get(g[n].cv, rmw.tid) > 0 {
        assert EntryJustified(g, n, rmw.tid);
        var u :| Witness(g, n, rmw.tid, u);
        if u == rmw {
          NoSuccessorReach(g, u, n);
        }
      }
    }
  }

  /** The node of a brand-new RMW: nobody's clock has heard of it. */
  lemma RmwJustCreated(s: State, c: Cur, p: Purpose, rf: Act, history: int, g1: Graph)
    requires Inv(s) && c.act.seqno > s.used && ReadPart(s, c, p, rf, history, g1) && WouldSucceed(s.info, rf, p)
    ensures JustCreated(WithNode(WithNode(g1, rf), c.act), c.act)
  {
    var g := WithNode(WithNode(g1, rf), c.act);
    RmwSpliceReady(s, c, p, rf, history, g1);
    ReadGraph(s, c, p, rf, history, g1);
    forall n | n in g && n != c.act ensures n.seqno < c.act.seqno {
      assert WfAct(s.info, s.used, n);
    }
    FreshUnknown(g, c.act);
  }

  /** The step satisfies the side condition of `addRMWEdge`, if it gets that far. */
  ghost predicate SpliceGuard(s: State, l: Label, t: State) {
    l.Update? ==>
      var c := Begin(s, l.tid, l.loc, l.order);
      exists i: Info, g1, g2 ::
        && RmwStepVia(s, c, l.purpose, l.rf, l.history, i, g1, g2, t)
        && l.rf in WithNode(WithNode(g1, l.rf), c.act)
        && SplicePushes(WithNode(WithNode(g1, l.rf), c.act), l.rf, c.act)
  }

  lemma RmwStepMono(s: State, c: Cur, p: Purpose, rf: Act, history: int, i: Info, g1: Graph, g2: Graph, t: State)
    requires Inv(s) && c == Begin(s, c.act.tid, c.act.loc, c.order) && c.act.tid < s.threads
    requires RmwStepVia(s, c, p, rf, history, i, g1, g2, t) && EdgeMono(s.graph)
    requires var g := WithNode(WithNode(g1, rf), c.act); rf in g && SplicePushes(g, rf, c.act)
    ensures EdgeMono(t.graph)
  {
    var es := EdgeSet(s, c.(cv := i.cv), true, s.threads);
    RmwSpliceReady(s, c, p, rf, history, g1);
    ReadGraph(s, c, p, rf, history, g1);
    RmwJustCreated(s, c, p, rf, history, g1);
    SpliceExact(WithNode(WithNode(g1, rf), c.act), rf, c.act, g2);
    RmwRecordedMo(s, c, p, rf, history, i, g1, g2);
    forall a | a in es ensures IsWrite(s.info, a) && a.loc == c.act.loc {
      EdgeSetWrites(s, c.(cv := i.cv), true, s.threads, a);
    }
    RmwWritePart(s, c, i, es, g2, t.graph);
  }

  lemma StepMono(s: State, l: Label, t: State)
    requires Inv(s) && Step(s, l, t) && EdgeMono(s.graph) && SpliceGuard(s, l, t)
    ensures EdgeMono(t.graph)
  {
    var c := Begin(s, l.tid, if l.FenceOp? || l.Defer? then FENCE_LOCATION else l.loc,
                   if l.Load? || l.Store? || l.Update? || l.FailedSwap? || l.FenceOp? then l.order else SeqCst);
    match l
    case Load(tid, loc, order, rf, history, budget) =>
      assert ReadPart(s, c, PlainRead, rf, history, t.graph);
      ReadGraph(s, c, PlainRead, rf, history, t.graph);
    case FailedSwap(tid, loc, order, p, rf, history) =>
      assert ReadPart(s, c, p, rf, history, t.graph);
      ReadGraph(s, c, p, rf, history, t.graph);
    case Store(tid, loc, order, value) =>
      StoreGraph(s, c, t.graph);
    case Update(tid, loc, order, p, rf, history, value) =>
      var i: Info, g1, g2 :|
        && RmwStepVia(s, c, p, rf, history, i, g1, g2, t)
        && rf in WithNode(WithNode(g1, rf), c.act)
        && SplicePushes(WithNode(WithNode(g1, rf), c.act), rf, c.act);
      RmwStepMono(s, c, p, rf, history, i, g1, g2, t);
    case _ =>
  }

  ghost predicate GuardedRun(ss: seq<State>, ls: seq<Label>) {
    IsRun(ss, ls) && forall i :: 0 <= i < |ls| ==> SpliceGuard(ss[i], ls[i], ss[i + 1])
  }

  lemma {:induction false} RunMono(ss: seq<State>, ls: seq<Label>, i: nat)
    requires GuardedRun(ss, ls) && i < |ss|
    ensures EdgeMono(ss[i].graph)
  {
    hide Inv;
    hide Step;
    hide SpliceGuard;
    if i > 0 {
      RunMono(ss, ls, i - 1);
      RunInv(ss, ls, i - 1);
      StepMono(ss[i - 1], ls[i - 1], ss[i]);
    }
  }

  /**
   In every run whose RMWs meet the side condition, `checkReachable` and path existence agree
   on all pairs of same-location nodes.
   */
  lemma RunTestExact(ss: seq<State>, ls: seq<Label>, i: nat, a: Act, b: Act)
    requires GuardedRun(ss, ls) && i < |ss|
    requires a in ss[i].graph && b in ss[i].graph && a.loc == b.loc
    ensures Test(ss[i].graph, a, b) <==> Reach(ss[i].graph, a, b)
  {
    RunInv(ss, ls, i);
    RunMono(ss, ls, i);
    if Test(ss[i].graph, a, b) {
      RunTestSound(ss, ls, i, a, b);
    }
    if Reach(ss[i].graph, a, b) {
      TestComplete(ss[i].graph, a, b);
    }
  }

  // ----- acyclicity -----

  /** `f` is where the RMW chain of `a` ends, stopping short of `to`. */
  ghost predicate Tail(g: Graph, a: Act, to: Act, f: Act) {
    (f in g ==> g[f].rmw.None? || g[f].rmw == Some(to)) && exists p :: Chain(g, a, p, to, f)
  }

  /** `to` does not reach the place where an edge from `a` would be attached. */
  ghost predicate TailClear(g: Graph, a: Act, to: Act) {
    forall f {:trigger Tail(g, a, to, f)} :: Tail(g, a, to, f) ==> !Reach(g, to, f)
  }

  ghost predicate SameRmw(g: Graph, h: Graph) {
    forall n, m {:trigger RmwOf(h, n, m)} :: RmwOf(h, n, m) <==> RmwOf(g, n, m)
  }

  /** `h` gives `to` no successor it did not have. */
  ghost predicate NothingNewAfter(g: Graph, h: Graph, to: Act) {
    forall x {:trigger Reach(h, to, x)} :: Reach(h, to, x) ==> Reach(g, to, x)
  }

  lemma {:induction false} SameChain(g: Graph, h: Graph, a: Act, p: seq<Act>, to: Act, f: Act)
    requires SameRmw(g, h) && Chain(h, a, p, to, f)
    ensures Chain(g, a, p, to, f)
    decreases |p|
  {
    if p != [] {
      SameChain(g, h, p[0], p[1..], to, f);
    }
  }

  lemma SameTail(g: Graph, h: Graph, a: Act, to: Act, f: Act)
    requires SameRmw(g, h) && Tail(h, a, to, f) && g.Keys <= h.Keys
    ensures Tail(g, a, to, f)
  {
    var p :| Chain(h, a, p, to, f);
    SameChain(g, h, a, p, to, f);
    if f in g && g[f].rmw.Some? {
      assert RmwOf(g, f, g[f].rmw.value);
      assert RmwOf(h, f, g[f].rmw.value);
    }
  }

  lemma TailClearKept(g: Graph, h: Graph, a: Act, to: Act)
    requires SameRmw(g, h) && g.Keys <= h.Keys && NothingNewAfter(g, h, to) && TailClear(g, a, to)
    ensures TailClear(h, a, to)
  {
    forall f | Tail(h, a, to, f) ensures !Reach(h, to, f) {
      SameTail(g, h, a, to, f);
    }
  }

  lemma SameEdgesAcyclic(g: Graph, h: Graph)
    requires Acyclic(g) && Embeds(h, g) && forall u, v :: Edge(h, u, v) ==> Edge(g, u, v)
    ensures Acyclic(h)
  {
    forall u, v | Edge(h, u, v) ensures !Reach(h, v, u) {
      assert Edge(g, u, v);
      if Reach(h, v, u) {
        ReachEmbeds(h, g, v, u);
      }
    }
  }

  lemma PushedSameRmw(g: Graph, f: Act, to: Act, h: Graph)
    requires f in g && to in g && SameShape(WithEdge(g, f, to), h)
    ensures SameRmw(g, h) && g.Keys == h.Keys
  {}

  lemma AddedEdgeForward(g: Graph, a: Act, to: Act, force: bool, h: Graph)
    requires Acyclic(g) && a in g && to in g && TailClear(g, a, to) && AddedEdge(g, a, to, force, h)
    ensures Acyclic(h) && NothingNewAfter(g, h, to) && SameRmw(g, h) && g.Keys == h.Keys
  {
    if force || !Test(g, a, to) {
      var f :| ChainEnd(g, a, to, f) && Propagated(WithEdge(g, f, to), f, to, h);
      assert Tail(g, a, to, f);
      AddedEdgeAcyclic(g, a, to, force, f, h);
      PushedForward(g, f, to, h);
      PushedSameRmw(g, f, to, h);
    }
  }

  lemma PushedForward(g: Graph, f: Act, to: Act, h: Graph)
    requires f in g && to in g && SameShape(WithEdge(g, f, to), h)
    ensures NothingNewAfter(g, h, to)
  {
    SameShapeReach(WithEdge(g, f, to), h);
    forall x | Reach(h, to, x) ensures Reach(g, to, x) {
      ReachEmbeds(h, WithEdge(g, f, to), to, x);
      WithEdgeReach(g, f, to, to, x);
    }
  }

  lemma WithTwoForward(g: Graph, a: Act, to: Act)
    requires Acyclic(g)
    ensures var h := WithNode(WithNode(g, a), to);
            Acyclic(h) && NothingNewAfter(g, h, to) && SameRmw(g, h) && g.Keys <= h.Keys
  {
    var g1 := WithNode(g, a);
    var h := WithNode(g1, to);
    WithNodeEdges(g, a);
    WithNodeEdges(g1, to);
    EmbedsTrans(h, g1, g);
    SameEdgesAcyclic(g, h);
    forall x | Reach(h, to, x) ensures Reach(g, to, x) {
      ReachEmbeds(h, g, to, x);
    }
  }

  lemma AddedOneForward(g: Graph, a: Act, to: Act, same: bool, h: Graph)
    requires Acyclic(g) && TailClear(g, a, to) && AddedOne(g, a, to, same, h)
    ensures Acyclic(h) && NothingNewAfter(g, h, to) && SameRmw(g, h) && g.Keys <= h.Keys
  {
    var m := WithNode(WithNode(g, a), to);
    WithTwoForward(g, a, to);
    TailClearKept(g, m, a, to);
    AddedEdgeForward(m, a, to, same && a.tid == to.tid, h);
    forall x | Reach(h, to, x) ensures Reach(g, to, x) {
      assert Reach(m, to, x);
    }
  }

  lemma {:induction false} AddedAllForward(g: Graph, froms: seq<Act>, to: Act, same: bool, h: Graph)
    requires Acyclic(g) && forall a :: a in froms ==> TailClear(g, a, to)
    requires AddedAll(g, froms, to, same, h)
    ensures Acyclic(h) && NothingNewAfter(g, h, to) && SameRmw(g, h) && g.Keys <= h.Keys
    decreases |froms|
  {
    if froms != [] {
      var init, last := froms[..|froms| - 1], froms[|froms| - 1];
      var k :| AddedAll(g, init, to, same, k) && AddedOne(k, last, to, same, h);
      AddedAllForward(g, init, to, same, k);
      TailClearKept(g, k, last, to);
      AddedOneForward(k, last, to, same, h);
      forall x | Reach(h, to, x) ensures Reach(g, to, x) {
        assert Reach(k, to, x);
      }
    }
  }

  lemma {:induction false} WithNodesEdges(g: Graph, es: seq<Act>)
    ensures forall u, v :: Edge(WithNodes(g, es), u, v) ==> Edge(g, u, v)
    ensures SameRmw(g, WithNodes(g, es)) && g.Keys <= WithNodes(g, es).Keys
    ensures Embeds(WithNodes(g, es), g)
    decreases |es|
  {
    if es != [] {
      var m := WithNodes(g, es[..|es| - 1]);
      WithNodesEdges(g, es[..|es| - 1]);
      WithNodeEdges(m, es[|es| - 1]);
      forall n, k ensures RmwOf(WithNodes(g, es), n, k) <==> RmwOf(g, n, k) {
        assert RmwOf(m, n, k) <==> RmwOf(g, n, k);
      }
    }
    EmbedsSuper(WithNodes(g, es), g);
  }

  lemma AddedPrunedForward(g: Graph, es: seq<Act>, to: Act, h: Graph)
    requires Acyclic(g) && (forall a :: a in es ==> TailClear(g, a, to)) && AddedPruned(g, es, to, h)
    ensures Acyclic(h) && SameRmw(g, h)
  {
    var m := WithNodes(g, es);
    WithNodesEdges(g, es);
    SameEdgesAcyclic(g, m);
    var ps: seq<Act> :| PruneOf(m, es, ps) && AddedAll(m, ps, to, true, h);
    forall x | Reach(m, to, x) ensures Reach(g, to, x) {
      ReachEmbeds(m, g, to, x);
    }
    forall a | a in ps ensures TailClear(m, a, to) {
      TailClearKept(g, m, a, to);
    }
    AddedAllForward(m, ps, to, true, h);
  }

  // ----- splicing in a new RMW cannot close a cycle -----

  ghost predicate FreshSplice(g: Graph, a: Act, rmw: Act, h: Graph) {
    Closed(g) && InOut(g) && SpliceReady(g, a, rmw) && g[rmw] == FreshNode(rmw) && Spliced(g, a, rmw, h)
  }

  lemma FreshNotTarget(g: Graph, rmw: Act, u: Act)
    requires InOut(g) && rmw in g && g[rmw] == FreshNode(rmw)
    ensures !Edge(g, u, rmw)
  {
    assert u !in g[rmw].inedges;
  }

  /** Every path after the splice is a path before it, with the RMW standing for the write it read. */
  lemma {:induction false} SplicedWalk(g: Graph, a: Act, rmw: Act, h: Graph, x: Act, p: seq<Act>, y: Act)
    requires FreshSplice(g, a, rmw, h) && Walk(WithEdge(h, a, rmw), x, p, y)
    ensures Reach(g, if x == rmw then a else x, if y == rmw then a else y)
    decreases |p|
  {
    SplicedEdges(g, a, rmw, h);
    var x' := if x == rmw then a else x;
    if p == [] {
      ReachRefl(g, x');
    } else {
      SplicedWalk(g, a, rmw, h, p[0], p[1..], y);
      FreshNotTarget(g, rmw, x);
      if !(x == a && p[0] == rmw) {
        assert Edge(g, x', p[0]);
        ReachEdge(g, x', p[0]);
        ReachTrans(g, x', p[0], if y == rmw then a else y);
      }
    }
  }

  /** A cycle after the splice comes from a cycle before it. */
  lemma SplicedCycle(g: Graph, a: Act, rmw: Act, h: Graph, u: Act, v: Act, p: seq<Act>)
    requires FreshSplice(g, a, rmw, h) && Edge(WithEdge(h, a, rmw), u, v) && Walk(WithEdge(h, a, rmw), v, p, u)
    ensures !Acyclic(g)
  {
    SplicedEdges(g, a, rmw, h);
    FreshNotTarget(g, rmw, u);
    if v == rmw {
      FreshNotTarget(g, rmw, rmw);
      SplicedWalk(g, a, rmw, h, p[0], p[1..], u);
      assert Edge(WithEdge(h, a, rmw), rmw, p[0]);
      assert Edge(g, a, p[0]);
    } else {
      SplicedWalk(g, a, rmw, h, v, p, u);
      assert Edge(g, if u == rmw then a else u, v);
    }
  }

  lemma SplicedAcyclic(g: Graph, a: Act, rmw: Act, h: Graph)
    requires FreshSplice(g, a, rmw, h) && Acyclic(g)
    ensures Acyclic(WithEdge(h, a, rmw))
  {
    var e := WithEdge(h, a, rmw);
    forall u, v | Edge(e, u, v) ensures !Reach(e, v, u) {
      if Reach(e, v, u) {
        var p :| Walk(e, v, p, u);
        SplicedCycle(g, a, rmw, h, u, v, p);
      }
    }
  }

  lemma AddedRmwAcyclic(g: Graph, a: Act, rmw: Act, k: Graph)
    requires Closed(g) && InOut(g) && SpliceReady(g, a, rmw) && g[rmw] == FreshNode(rmw)
    requires Acyclic(g) && AddedRmw(g, a, rmw, k)
    ensures Acyclic(k)
  {
    var h :| Spliced(g, a, rmw, h) && Propagated(WithEdge(h, a, rmw), a, rmw, k);
    SplicedAcyclic(g, a, rmw, h);
    SameShapeAcyclic(WithEdge(h, a, rmw), k);
  }

  // ----- runs -----

  ghost predicate ReadClear(s: State, c: Cur, rf: Act) {
    s.threads > 0 ==> forall p :: p in Priors(s, c, rf, s.threads) ==> TailClear(s.graph, p, rf)
  }

  ghost predicate UpdateClear(s: State, c: Cur, i: Info, g2: Graph) {
    forall p :: p in EdgeSet(s, c.(cv := i.cv), true, s.threads) ==> TailClear(g2, p, c.act)
  }

  /**
   No edge of the step is attached at a node its target already reaches. Plain stores always
   qualify; a read must clear its priors, an RMW also its own edge set.
   */
  ghost predicate StepClear(s: State, l: Label, t: State) {
    match l
    case Load(tid, loc, order, rf, _, _) => ReadClear(s, Begin(s, tid, loc, order), rf)
    case FailedSwap(tid, loc, order, _, rf, _) => ReadClear(s, Begin(s, tid, loc, order), rf)
    case Update(tid, loc, order, p, rf, history, _) =>
      var c := Begin(s, tid, loc, order);
      ReadClear(s, c, rf) &&
      exists i, g1, g2 :: RmwStepVia(s, c, p, rf, history, i, g1, g2, t) && UpdateClear(s, c, i, g2)
    case _ => true
  }

  lemma StoreClear(s: State, c: Cur, p: Act)
    requires Inv(s) && c.act.seqno > s.used && p in EdgeSet(s, c, false, s.threads)
    ensures TailClear(s.graph, p, c.act)
  {
    EdgeSetWrites(s, c, false, s.threads, p);
    assert WfAct(s.info, s.used, p);
    assert WfAct(s.info, s.used, c.act);
    forall f | Tail(s.graph, p, c.act, f) ensures !Reach(s.graph, c.act, f) {
      var ch :| Chain(s.graph, p, ch, c.act, f);
      ChainAvoids(s.graph, p, ch, c.act, f);
      if Reach(s.graph, c.act, f) {
        NoSuccessorReach(s.graph, c.act, f);
      }
    }
  }

  lemma {:induction false} ChainAvoids(g: Graph, a: Act, p: seq<Act>, to: Act, f: Act)
    requires Chain(g, a, p, to, f) && a != to
    ensures f != to
    decreases |p|
  {
    if p != [] {
      ChainAvoids(g, p[0], p[1..], to, f);
    }
  }

  lemma UpdateAcyclic(s: State, c: Cur, p: Purpose, rf: Act, history: int, i: Info, g1: Graph, g2: Graph, t: State)
    requires Inv(s) && c == Begin(s, c.act.tid, c.act.loc, c.order) && Acyclic(s.graph)
    requires ReadClear(s, c, rf) && RmwStepVia(s, c, p, rf, history, i, g1, g2, t) && UpdateClear(s, c, i, g2)
    ensures Acyclic(t.graph)
  {
    AddedAllForward(s.graph, Priors(s, c, rf, s.threads), rf, false, g1);
    RmwSpliceReady(s, c, p, rf, history, g1);
    WithTwoForward(g1, rf, c.act);
    AddedRmwAcyclic(WithNode(WithNode(g1, rf), c.act), rf, c.act, g2);
    AddedPrunedForward(g2, EdgeSet(s, c.(cv := i.cv), true, s.threads), c.act, t.graph);
  }

  lemma StepAcyclic(s: State, l: Label, t: State)
    requires Inv(s) && Acyclic(s.graph) && Step(s, l, t) && StepClear(s, l, t)
    ensures Acyclic(t.graph)
    ensures !l.Update? ==> SameRmw(s.graph, t.graph)
  {
    hide Inv;
    hide Acyclic;
    hide TailClear;
    match l
    case Load(tid, loc, order, rf, history, budget) =>
      AddedAllForward(s.graph, Priors(s, Begin(s, tid, loc, order), rf, s.threads), rf, false, t.graph);
    case FailedSwap(tid, loc, order, p, rf, history) =>
      AddedAllForward(s.graph, Priors(s, Begin(s, tid, loc, order), rf, s.threads), rf, false, t.graph);
    case Store(tid, loc, order, value) =>
      var c := Begin(s, tid, loc, order);
      forall p | p in EdgeSet(s, c, false, s.threads) ensures TailClear(s.graph, p, c.act) {
        StoreClear(s, c, p);
      }
      AddedPrunedForward(s.graph, EdgeSet(s, c, false, s.threads), c.act, t.graph);
    case Update(tid, loc, order, p, rf, history, value) =>
      var c := Begin(s, tid, loc, order);
      var i, g1, g2 :| RmwStepVia(s, c, p, rf, history, i, g1, g2, t) && UpdateClear(s, c, i, g2);
      UpdateAcyclic(s, c, p, rf, history, i, g1, g2, t);
    case _ =>
  }

  lemma {:induction false} RunAcyclicInv(ss: seq<State>, ls: seq<Label>, i: nat)
    requires IsRun(ss, ls) && i < |ss| && forall j :: 0 <= j < i ==> StepClear(ss[j], ls[j], ss[j + 1])
    ensures Acyclic(ss[i].graph)
  {
    hide Inv;
    hide Step;
    hide StepClear;
    if i > 0 {
      RunAcyclicInv(ss, ls, i - 1);
      RunInv(ss, ls, i - 1);
      StepAcyclic(ss[i - 1], ls[i - 1], ss[i]);
    }
  }

  lemma AcyclicApart(g: Graph, a: Act, b: Act)
    requires Acyclic(g) && Reach(g, a, b) && Reach(g, b, a)
    ensures a == b
  {
    var p :| Walk(g, a, p, b);
    if p != [] {
      assert Walk(g, p[0], p[1..], b);
      ReachTrans(g, p[0], b, a);
    }
  }

  /** In a run of clear steps, RMWs included, no two distinct writes reach each other. */
  lemma RunAcyclicIfClear(ss: seq<State>, ls: seq<Label>, i: nat, a: Act, b: Act)
    requires IsRun(ss, ls) && i < |ss| && forall j :: 0 <= j < i ==> StepClear(ss[j], ls[j], ss[j + 1])
    requires Reach(ss[i].graph, a, b) && Reach(ss[i].graph, b, a)
    ensures a == b
  {
    RunAcyclicInv(ss, ls, i);
    AcyclicApart(ss[i].graph, a, b);
  }

  // ----- without successful RMWs every step is clear -----

  ghost predicate NoRmw(g: Graph) {
    forall n, m {:trigger RmwOf(g, n, m)} :: !RmwOf(g, n, m)
  }

  /** The clock check of an accepted read is all that is needed when there are no RMW chains. */
  lemma AcceptedClear(s: State, c: Cur, rf: Act)
    requires Inv(s) && EdgeMono(s.graph) && NoRmw(s.graph) && c.act.tid < s.threads && ReadAccepts(s, c, rf)
    ensures ReadClear(s, c, rf)
  {
    forall p | p in Priors(s, c, rf, s.threads) ensures TailClear(s.graph, p, rf) {
      PriorsOnly(s, c, rf, s.threads, p);
      var t: nat :| t < s.threads && ReadTarget(s, c, rf, t) == Some(p) && p != rf;
      assert Passes(s, c, rf, t);
      forall f | Tail(s.graph, p, rf, f) ensures !Reach(s.graph, rf, f) {
        var ch :| Chain(s.graph, p, ch, rf, f);
        assert f == p;
        if Reach(s.graph, rf, p) {
          if rf in s.graph {
            TestComplete(s.graph, rf, p);
          } else {
            NoSuccessorReach(s.graph, rf, p);
          }
        }
      }
    }
  }

  lemma RmwFreeStep(s: State, l: Label, t: State)
    requires Inv(s) && EdgeMono(s.graph) && NoRmw(s.graph) && Acyclic(s.graph) && Step(s, l, t) && !l.Update?
    ensures NoRmw(t.graph) && Acyclic(t.graph)
  {
    match l {
      case Load(tid, loc, order, rf, history, budget) => AcceptedClear(s, Begin(s, tid, loc, order), rf);
      case FailedSwap(tid, loc, order, p, rf, history) => AcceptedClear(s, Begin(s, tid, loc, order), rf);
      case _ =>
    }
    StepAcyclic(s, l, t);
  }

  lemma {:induction false} RmwFreeInv(ss: seq<State>, ls: seq<Label>, i: nat)
    requires IsRun(ss, ls) && i < |ss| && forall j :: 0 <= j < |ls| ==> !ls[j].Update?
    ensures NoRmw(ss[i].graph) && Acyclic(ss[i].graph)
  {
    hide Inv;
    if i > 0 {
      assert Step(ss[i - 1], ls[i - 1], ss[i]);
      hide Step;
      RmwFreeInv(ss, ls, i - 1);
      RunInv(ss, ls, i - 1);
      RunMono(ss, ls, i - 1);
      RmwFreeStep(ss[i - 1], ls[i - 1], ss[i]);
    }
  }

  /**
   In every run without a successful RMW the modification order is acyclic: no two distinct
   writes reach each other.
   */
  lemma RunAcyclic(ss: seq<State>, ls: seq<Label>, i: nat, a: Act, b: Act)
    requires IsRun(ss, ls) && i < |ss| && forall j :: 0 <= j < |ls| ==> !ls[j].Update?
    requires Reach(ss[i].graph, a, b) && Reach(ss[i].graph, b, a)
    ensures a == b
  {
    RmwFreeInv(ss, ls, i);
    AcyclicApart(ss[i].graph, a, b);
  }
}
