/**
 When exactly a step keeps the clock test exact: only an RMW can spoil it, and what is added
 after its splice can make up for that.
 */
module EngineExact {
  import opened Options
  import opened Clocks
  import opened MoGraph
  import opened Actions
  import opened Coherence
  import opened ExecutionState
  import opened Engine
  import opened EngineOrder
  import opened EngineCycles

  /** The one-entry test decides reachability between nodes of one location. */
  ghost predicate TestsExact(g: Graph) {
    forall a, b {:trigger Test(g, a, b)} {:trigger Reach(g, a, b)} ::
      a in g && b in g && a.loc == b.loc ==> (Test(g, a, b) <==> Reach(g, a, b))
  }

  /** The test is exact exactly when clocks agree with edges. */
  lemma MonoExact(m: Infos, used: nat, g: Graph)
    requires MoInv(m, used, g)
    ensures TestsExact(g) <==> EdgeMono(g)
  {
    if EdgeMono(g) {
      forall a, b | a in g && b in g && a.loc == b.loc ensures Test(g, a, b) <==> Reach(g, a, b) {
        if Test(g, a, b) {
          CommittedTestSound(m, used, g, a, b);
        }
        if Reach(g, a, b) {
          TestComplete(g, a, b);
        }
      }
    }
    if TestsExact(g) {
      forall u, v | Edge(g, u, v) ensures v in g && Leq(g[u].cv, g[v].cv) {
        forall t: nat ensures Get(g[u].cv, t) <= Get(g[v].cv, t) {
          if Get(g[u].cv, t) > 0 {
            EntryPassed(g, u, v, t);
          }
        }
      }
    }
  }

  lemma EntryPassed(g: Graph, u: Act, v: Act, t: nat)
    requires GraphInv(g) && TestsExact(g) && Edge(g, u, v) && Get(g[u].cv, t) > 0
    ensures v in g && Get(g[u].cv, t) <= Get(g[v].cv, t)
  {
    assert EntryJustified(g, u, t);
    var x :| Witness(g, u, t, x);
    ReachEdge(g, u, v);
    ReachTrans(g, x, u, v);
    ReachKeepsLoc(g, x, v);
    assert Test(g, x, v);
  }

  // ----- edges into a node whose own edges may lag -----

  ghost predicate MonoBut(g: Graph, r: Act) {
    forall u, v :: Edge(g, u, v) && u != r ==> v in g && Leq(g[u].cv, g[v].cv)
  }

  /** No clock of `g` has grown. */
  ghost predicate SameClocks(g: Graph, h: Graph) {
    forall n :: n in g ==> n in h && Leq(h[n].cv, g[n].cv)
  }

  lemma PropagatedBut(e: Graph, f: Act, r: Act, h: Graph)
    requires Propagated(e, f, r, h)
    requires forall u, v :: Edge(e, u, v) && u != r ==> v in e && ((u == f && v == r) || Leq(e[u].cv, e[v].cv))
    ensures MonoBut(h, r)
  {
    forall u, v | Edge(h, u, v) && u != r ensures v in h && Leq(h[u].cv, h[v].cv) {
      assert Edge(e, u, v);
      if Leq(h[u].cv, e[u].cv) && !(u == f && v == r) {
        LeqTrans(h[u].cv, e[u].cv, e[v].cv);
        LeqTrans(h[u].cv, e[v].cv, h[v].cv);
      }
    }
  }

  lemma PushedBut(g: Graph, f: Act, r: Act, h: Graph)
    requires Closed(g) && MonoBut(g, r) && f in g && r in g && f != r && f.loc == r.loc && Propagated(WithEdge(g, f, r), f, r, h)
    ensures MonoBut(h, r) && h.Keys == g.Keys && Leq(g[r].cv, h[r].cv)
    ensures if Leq(h[r].cv, g[r].cv) then SameClocks(g, h) else EdgeMono(h)
  {
    var e := WithEdge(g, f, r);
    WithEdgeEdges(g, f, r);
    PropagatedBut(e, f, r, h);
    if Leq(h[r].cv, g[r].cv) {
      if !Leq(e[f].cv, e[r].cv) {
        PushChanges(e, f, r, h);
      }
    } else {
      PropagatedMonoChanged(e, f, r, h);
    }
  }

  lemma AddedEdgeBut(g: Graph, a: Act, r: Act, force: bool, h: Graph)
    requires GraphInv(g) && MonoBut(g, r) && a in g && r in g && a != r && a.loc == r.loc && AddedEdge(g, a, r, force, h)
    ensures GraphInv(h) && MonoBut(h, r) && h.Keys == g.Keys && Leq(g[r].cv, h[r].cv)
    ensures if Leq(h[r].cv, g[r].cv) then SameClocks(g, h) else EdgeMono(h)
  {
    AddedEdgeInv(g, a, r, force, h);
    if force || !Test(g, a, r) {
      var f :| ChainEnd(g, a, r, f) && Propagated(WithEdge(g, f, r), f, r, h);
      var p :| Chain(g, a, p, r, f);
      ChainAvoids(g, a, p, r, f);
      ChainEndReach(g, a, r, f);
      assert Closed(g);
      hide GraphInv;
      PushedBut(g, f, r, h);
    }
  }

  lemma WithNodeBut(g: Graph, a: Act, r: Act)
    requires MonoBut(g, r)
    ensures MonoBut(WithNode(g, a), r)
  {
    WithNodeEdges(g, a);
  }

  lemma AddedOneBut(g: Graph, a: Act, r: Act, same: bool, h: Graph)
    requires GraphInv(g) && MonoBut(g, r) && r in g && a != r && a.loc == r.loc && a.seqno >= 1 && AddedOne(g, a, r, same, h)
    ensures GraphInv(h) && MonoBut(h, r) && r in h && Leq(g[r].cv, h[r].cv)
    ensures if Leq(h[r].cv, g[r].cv) then SameClocks(g, h) else EdgeMono(h)
  {
    hide GraphInv;
    hide MonoBut;
    hide AddedEdge;
    var m := WithNode(g, a);
    assert WithNode(m, r) == m;
    WithNodeInv(g, a);
    WithNodeBut(g, a, r);
    AddedEdgeBut(m, a, r, same && a.tid == r.tid, h);
  }

  lemma {:induction false} AddedAllBut(g: Graph, es: seq<Act>, r: Act, same: bool, h: Graph)
    requires GraphInv(g) && MonoBut(g, r) && r in g && AddedAll(g, es, r, same, h)
    requires forall a :: a in es ==> a != r && a.loc == r.loc && a.seqno >= 1
    ensures GraphInv(h) && MonoBut(h, r) && r in h && Leq(g[r].cv, h[r].cv)
    ensures if Leq(h[r].cv, g[r].cv) then SameClocks(g, h) else EdgeMono(h)
    decreases |es|
  {
    hide GraphInv;
    hide MonoBut;
    if es != [] {
      var init, last := es[..|es| - 1], es[|es| - 1];
      var k: Graph :| AddedAll(g, init, r, same, k) && AddedOne(k, last, r, same, h);
      AddedAllBut(g, init, r, same, k);
      AddedOneBut(k, last, r, same, h);
      LeqTrans(g[r].cv, k[r].cv, h[r].cv);
      if !Leq(k[r].cv, g[r].cv) {
        GrownMono(k, last, r, same, h);
        if Leq(h[r].cv, g[r].cv) {
          LeqTrans(k[r].cv, h[r].cv, g[r].cv);
        }
      } else if Leq(h[r].cv, k[r].cv) {
        LeqTrans(h[r].cv, k[r].cv, g[r].cv);
        forall n | n in g ensures n in h && Leq(h[n].cv, g[n].cv) {
          LeqTrans(h[n].cv, k[n].cv, g[n].cv);
        }
      } else if Leq(h[r].cv, g[r].cv) {
        LeqTrans(h[r].cv, g[r].cv, k[r].cv);
      }
    }
  }

  lemma GrownMono(k: Graph, a: Act, r: Act, same: bool, h: Graph)
    requires GraphInv(k) && EdgeMono(k) && r in k && a.loc == r.loc && a.seqno >= 1 && AddedOne(k, a, r, same, h)
    ensures EdgeMono(h)
  {
    assert r.seqno >= 1;
    AddedOneMono(k, a, r, same, h);
  }

  lemma AddedPrunedBut(g: Graph, es: seq<Act>, r: Act, h: Graph)
    requires GraphInv(g) && MonoBut(g, r) && r in g && AddedPruned(g, es, r, h)
    requires forall a :: a in es ==> a != r && a.loc == r.loc && a.seqno >= 1
    ensures r in h && if Leq(h[r].cv, g[r].cv) then SameClocks(g, h) else EdgeMono(h)
  {
    var m := WithNodes(g, es);
    var ps :| PruneOf(m, es, ps) && AddedAll(m, ps, r, true, h);
    WithNodesInv(g, es);
    WithNodesEdges(g, es);
    assert MonoBut(m, r);
    AddedAllBut(m, ps, r, true, h);
  }

  // ----- the RMW -----

  lemma SplicedLags(g: Graph, a: Act, r: Act, h: Graph, u: Act, v: Act)
    requires Closed(g) && EdgeMono(g) && SpliceReady(g, a, r) && Spliced(g, a, r, h) && Edge(WithEdge(h, a, r), u, v) && u != r
    ensures var e := WithEdge(h, a, r); v in e && ((u == a && v == r) || Leq(e[u].cv, e[v].cv))
  {
    SplicedEdges(g, a, r, h);
    if u != a {
      assert Edge(g, u, v);
    }
  }

  lemma SplicedBut(g: Graph, a: Act, r: Act, k: Graph)
    requires GraphInv(g) && EdgeMono(g) && SpliceReady(g, a, r) && AddedRmw(g, a, r, k)
    ensures MonoBut(k, r)
  {
    assert Closed(g);
    hide GraphInv;
    hide EdgeMono;
    hide Spliced;
    hide WithEdge;
    hide MonoBut;
    hide Propagated;
    var h :| Spliced(g, a, r, h) && Propagated(WithEdge(h, a, r), a, r, k);
    var e := WithEdge(h, a, r);
    forall u, v | Edge(e, u, v) && u != r ensures v in e && ((u == a && v == r) || Leq(e[u].cv, e[v].cv)) {
      SplicedLags(g, a, r, h, u, v);
    }
    PropagatedBut(e, a, r, k);
  }

  /** The splice pushed the RMW's clock, or the write part did. */
  ghost predicate Informs(c: Cur, rf: Act, g1: Graph, g2: Graph, t: State) {
    var g := WithNode(WithNode(g1, rf), c.act);
    rf in g && (SplicePushes(g, rf, c.act) || (c.act in g2 && c.act in t.graph && !Leq(t.graph[c.act].cv, g2[c.act].cv)))
  }

  /** Where the splice pushed nothing, the test is exact again if and only if the write part made up for it. */
  lemma UpdateLags(s: State, c: Cur, p: Purpose, rf: Act, history: int, i: Info, g1: Graph, g2: Graph, t: State)
    requires Inv(s) && c == Begin(s, c.act.tid, c.act.loc, c.order) && c.act.tid < s.threads
    requires RmwStepVia(s, c, p, rf, history, i, g1, g2, t)
    requires var g := WithNode(WithNode(g1, rf), c.act);
             GraphInv(g) && EdgeMono(g) && SpliceReady(g, rf, c.act) && JustCreated(g, c.act) && !SplicePushes(g, rf, c.act)
    ensures c.act in g2 && c.act in t.graph && (EdgeMono(t.graph) <==> !Leq(t.graph[c.act].cv, g2[c.act].cv))
  {
    var es, r := EdgeSet(s, c.(cv := i.cv), true, s.threads), c.act;
    var g := WithNode(WithNode(g1, rf), r);
    UpdateWrites(s, c, p, rf, history, i, g1, g2, t);
    AddedRmwInv(g, rf, r, g2);
    SplicedBut(g, rf, r, g2);
    SpliceExact(g, rf, r, g2);
    var x :| x in g2 && Reach(g2, r, x) && !Test(g2, r, x);
    forall a | a in es ensures a != r && a.loc == r.loc && a.seqno >= 1 {
      EdgeSetWrites(s, c.(cv := i.cv), true, s.threads, a);
      assert WfAct(s.info, s.used, a);
    }
    hide Inv;
    AddedPrunedBut(g2, es, r, t.graph);
    if Leq(t.graph[r].cv, g2[r].cv) {
      StillMissed(g2, r, x, t.graph);
    }
  }

  lemma UpdateExact(s: State, c: Cur, p: Purpose, rf: Act, history: int, i: Info, g1: Graph, g2: Graph, t: State)
    requires Inv(s) && c == Begin(s, c.act.tid, c.act.loc, c.order) && c.act.tid < s.threads
    requires RmwStepVia(s, c, p, rf, history, i, g1, g2, t) && EdgeMono(s.graph)
    ensures EdgeMono(t.graph) <==> Informs(c, rf, g1, g2, t)
  {
    var g := WithNode(WithNode(g1, rf), c.act);
    RmwSpliceReady(s, c, p, rf, history, g1);
    ReadGraph(s, c, p, rf, history, g1);
    RmwJustCreated(s, c, p, rf, history, g1);
    hide Inv;
    hide GraphInv;
    hide EdgeMono;
    if SplicePushes(g, rf, c.act) {
      RmwStepMono(s, c, p, rf, history, i, g1, g2, t);
    } else {
      UpdateLags(s, c, p, rf, history, i, g1, g2, t);
    }
  }

  lemma StillMissed(g: Graph, r: Act, x: Act, h: Graph)
    requires GraphInv(h) && Embeds(g, h) && SameClocks(g, h) && r in g && x in g && Reach(g, r, x) && !Test(g, r, x)
    ensures !EdgeMono(h)
  {
    ReachEmbeds(g, h, r, x);
    assert Get(h[x].cv, r.tid) <= Get(g[x].cv, r.tid);
    if EdgeMono(h) {
      ReachMono(h, r, x);
    }
  }

  // ----- steps and runs -----

  /** An RMW informs the writes it takes over; other steps have nothing to do. */
  ghost predicate StepInforms(s: State, l: Label, t: State) {
    l.Update? ==>
      var c := Begin(s, l.tid, l.loc, l.order);
      exists i: Info, g1, g2 :: RmwStepVia(s, c, l.purpose, l.rf, l.history, i, g1, g2, t) && Informs(c, l.rf, g1, g2, t)
  }

  lemma UpdateMonoExact(s: State, l: Label, t: State)
    requires Inv(s) && Step(s, l, t) && EdgeMono(s.graph) && l.Update?
    ensures EdgeMono(t.graph) <==> StepInforms(s, l, t)
  {
    var c := Begin(s, l.tid, l.loc, l.order);
    var i: Info, g1, g2 :| i.value == l.value && RmwStepVia(s, c, l.purpose, l.rf, l.history, i, g1, g2, t);
    hide Inv;
    hide EdgeMono;
    hide RmwStepVia;
    hide Informs;
    UpdateExact(s, c, l.purpose, l.rf, l.history, i, g1, g2, t);
    forall j: Info, h1, h2 | RmwStepVia(s, c, l.purpose, l.rf, l.history, j, h1, h2, t)
      ensures EdgeMono(t.graph) <==> Informs(c, l.rf, h1, h2, t)
    {
      UpdateExact(s, c, l.purpose, l.rf, l.history, j, h1, h2, t);
    }
  }

  /** From a state where the test is exact, a step leaves one where it is exactly when it informs. */
  lemma StepTestExact(s: State, l: Label, t: State)
    requires Inv(s) && Inv(t) && Step(s, l, t) && TestsExact(s.graph)
    ensures TestsExact(t.graph) <==> StepInforms(s, l, t)
  {
    MonoExact(s.info, s.used, s.graph);
    MonoExact(t.info, t.used, t.graph);
    hide TestsExact;
    hide EdgeMono;
    hide Inv;
    if l.Update? {
      UpdateMonoExact(s, l, t);
    } else {
      StepMono(s, l, t);
    }
  }

  /** In every run the test is exact in all states up to a given one if and only if all steps before it inform. */
  lemma {:induction false} RunTestsExact(ss: seq<State>, ls: seq<Label>, i: nat)
    requires IsRun(ss, ls) && i < |ss|
    ensures (forall j :: 0 <= j <= i ==> TestsExact(ss[j].graph)) <==> forall j :: 0 <= j < i ==> StepInforms(ss[j], ls[j], ss[j + 1])
  {
    hide Inv;
    hide Step;
    hide StepInforms;
    if i > 0 {
      RunTestsExact(ss, ls, i - 1);
      RunInv(ss, ls, i - 1);
      RunInv(ss, ls, i);
      if TestsExact(ss[i - 1].graph) {
        StepTestExact(ss[i - 1], ls[i - 1], ss[i]);
      }
    }
  }
}
