/**
 When exactly a step closes a cycle in the modification order, and so which runs keep it
 acyclic: a cycle, once there, stays.
 */
module EngineCycles {
  import opened Options
  import opened Clocks
  import opened MoGraph
  import opened Actions
  import opened Coherence
  import opened ExecutionState
  import opened Engine
  import opened EngineOrder

  /** Two different nodes reach each other. */
  ghost predicate Tangled(g: Graph) {
    exists a, b {:trigger Reach(g, a, b), Reach(g, b, a)} :: a != b && Reach(g, a, b) && Reach(g, b, a)
  }

  lemma TangledCyclic(g: Graph)
    requires Tangled(g)
    ensures !Acyclic(g)
  {
    var a, b :| a != b && Reach(g, a, b) && Reach(g, b, a);
    if Acyclic(g) {
      AcyclicApart(g, a, b);
    }
  }

  lemma TangledStays(g: Graph, h: Graph)
    requires Tangled(g) && Embeds(g, h)
    ensures Tangled(h)
  {
    var a, b :| a != b && Reach(g, a, b) && Reach(g, b, a);
    ReachEmbeds(g, h, a, b);
    ReachEmbeds(g, h, b, a);
  }

  // ----- one edge -----

  /** RMW links of `g` are links of `h`. */
  ghost predicate LinksKept(g: Graph, h: Graph) {
    forall n, m {:trigger RmwOf(g, n, m)} :: RmwOf(g, n, m) ==> RmwOf(h, n, m)
  }

  /** Whatever a write reaches, it reaches through its RMW chain. */
  lemma {:induction false} ThroughChain(g: Graph, h: Graph, a: Act, p: seq<Act>, to: Act, f: Act)
    requires LinksKept(g, h) && RmwLinks(h) && Chain(g, a, p, to, f) && a != to && Reach(h, a, to)
    ensures f != to && Reach(h, f, to)
    decreases |p|
  {
    if p != [] {
      assert RmwOf(h, a, p[0]);
      var w :| Walk(h, a, w, to);
      assert w[0] == p[0] && Walk(h, p[0], w[1..], to);
      ThroughChain(g, h, p[0], p[1..], to, f);
    }
  }

  /** If `to` reaches the end of the chain of `a`, ordering `a` before `to` ties a knot. */
  lemma NotClearTangles(g: Graph, h: Graph, a: Act, to: Act)
    requires !TailClear(g, a, to) && a != to && LinksKept(g, h) && RmwLinks(h) && Embeds(g, h) && Reach(h, a, to)
    ensures Tangled(h)
  {
    var f :| Tail(g, a, to, f) && Reach(g, to, f);
    var p :| Chain(g, a, p, to, f);
    ThroughChain(g, h, a, p, to, f);
    ReachEmbeds(g, h, to, f);
  }

  /** With clocks that agree with edges, the engine's own test at the end of the chain decides whether an edge closes a cycle. */
  lemma EdgeTestExact(g: Graph, a: Act, to: Act, force: bool, f: Act, h: Graph)
    requires GraphInv(g) && EdgeMono(g) && ThreadOrdered(g, g.Keys) && UniqueSeq(g.Keys)
    requires Acyclic(g) && a in g && to in g && a.loc == to.loc && (force || !Test(g, a, to))
    requires ChainEnd(g, a, to, f) && Propagated(WithEdge(g, f, to), f, to, h)
    ensures Acyclic(h) <==> !Test(g, to, f)
  {
    AddedEdgeAcyclic(g, a, to, force, f, h);
    var p :| Chain(g, a, p, to, f);
    ChainReach(g, a, p, to, f);
    ReachKeepsLoc(g, a, f);
    TestExact(g, to, f);
  }

  // ----- one step -----

  lemma SameLinks(m: Infos, g: Graph, h: Graph)
    requires RmwLinked(m, g) && RmwLinked(m, h)
    ensures LinksKept(g, h)
  {
    forall n, r | RmwOf(g, n, r) ensures RmwOf(h, n, r) {
      assert RmwRecorded(m, h, r);
    }
  }

  lemma ReadTangles(s: State, c: Cur, p: Purpose, rf: Act, history: int, g: Graph)
    requires Inv(s) && ReadPart(s, c, p, rf, history, g) && !ReadClear(s, c, rf)
    ensures Tangled(g)
  {
    ReadGraph(s, c, p, rf, history, g);
    SameLinks(s.info, s.graph, g);
    var a :| a in Priors(s, c, rf, s.threads) && !TailClear(s.graph, a, rf);
    PriorsOnly(s, c, rf, s.threads, a);
    NotClearTangles(s.graph, g, a, rf);
  }

  lemma UpdateWrites(s: State, c: Cur, p: Purpose, rf: Act, history: int, i: Info, g1: Graph, g2: Graph, t: State)
    requires Inv(s) && c == Begin(s, c.act.tid, c.act.loc, c.order) && c.act.tid < s.threads
    requires RmwStepVia(s, c, p, rf, history, i, g1, g2, t)
    ensures MoInv(t.info, c.act.seqno, g2) && MoInv(t.info, c.act.seqno, t.graph)
    ensures Embeds(g1, g2) && Embeds(s.graph, g2) && Embeds(g2, t.graph)
    ensures AllReach(t.graph, EdgeSet(s, c.(cv := i.cv), true, s.threads), c.act)
  {
    var es, g := EdgeSet(s, c.(cv := i.cv), true, s.threads), WithNode(WithNode(g1, rf), c.act);
    RmwSpliceReady(s, c, p, rf, history, g1);
    AddedRmwInv(g, rf, c.act, g2);
    EmbedsTrans(g1, g, g2);
    RmwRecordedMo(s, c, p, rf, history, i, g1, g2);
    forall a | a in es ensures IsWrite(s.info, a) && a.loc == c.act.loc {
      EdgeSetWrites(s, c.(cv := i.cv), true, s.threads, a);
    }
    RmwWritePart(s, c, i, es, g2, t.graph);
  }

  lemma UpdateTangles(s: State, c: Cur, p: Purpose, rf: Act, history: int, i: Info, g1: Graph, g2: Graph, t: State)
    requires Inv(s) && c == Begin(s, c.act.tid, c.act.loc, c.order) && c.act.tid < s.threads
    requires RmwStepVia(s, c, p, rf, history, i, g1, g2, t) && !(ReadClear(s, c, rf) && UpdateClear(s, c, i, g2))
    ensures Tangled(t.graph)
  {
    UpdateWrites(s, c, p, rf, history, i, g1, g2, t);
    if !ReadClear(s, c, rf) {
      ReadTangles(s, c, p, rf, history, g1);
      TangledStays(g1, g2);
      TangledStays(g2, t.graph);
    } else {
      SameLinks(t.info, g2, t.graph);
      var a :| a in EdgeSet(s, c.(cv := i.cv), true, s.threads) && !TailClear(g2, a, c.act);
      EdgeSetWrites(s, c.(cv := i.cv), true, s.threads, a);
      assert WfAct(s.info, s.used, a);
      NotClearTangles(g2, t.graph, a, c.act);
    }
  }

  lemma StepEmbeds(s: State, l: Label, t: State)
    requires Inv(s) && Step(s, l, t)
    ensures Embeds(s.graph, t.graph)
  {
    hide Inv;
    match l
    case Load(tid, loc, order, rf, history, budget) =>
      ReadGraph(s, Begin(s, tid, loc, order), PlainRead, rf, history, t.graph);
    case FailedSwap(tid, loc, order, p, rf, history) =>
      ReadGraph(s, Begin(s, tid, loc, order), p, rf, history, t.graph);
    case Store(tid, loc, order, value) => StoreGraph(s, Begin(s, tid, loc, order), t.graph);
    case Update(tid, loc, order, p, rf, history, value) =>
      var c := Begin(s, tid, loc, order);
      var i, g1, g2 :| RmwStepVia(s, c, p, rf, history, i, g1, g2, t);
      UpdateWrites(s, c, p, rf, history, i, g1, g2, t);
      EmbedsTrans(s.graph, g2, t.graph);
    case _ => EmbedsSuper(s.graph, t.graph);
  }

  lemma StepTangles(s: State, l: Label, t: State)
    requires Inv(s) && Step(s, l, t) && !StepClear(s, l, t)
    ensures Tangled(t.graph)
  {
    hide Inv;
    match l
    case Load(tid, loc, order, rf, history, budget) =>
      ReadTangles(s, Begin(s, tid, loc, order), PlainRead, rf, history, t.graph);
    case FailedSwap(tid, loc, order, p, rf, history) =>
      ReadTangles(s, Begin(s, tid, loc, order), p, rf, history, t.graph);
    case Update(tid, loc, order, p, rf, history, value) =>
      var c := Begin(s, tid, loc, order);
      var i, g1, g2 :| RmwStepVia(s, c, p, rf, history, i, g1, g2, t);
      UpdateTangles(s, c, p, rf, history, i, g1, g2, t);
    case _ =>
  }

  /** A step from an acyclic graph leaves an acyclic one exactly when it attaches no edge at a node its target reaches. */
  lemma StepAcyclicExact(s: State, l: Label, t: State)
    requires Inv(s) && Acyclic(s.graph) && Step(s, l, t)
    ensures Acyclic(t.graph) <==> StepClear(s, l, t)
  {
    hide Inv;
    hide Step;
    hide StepClear;
    if StepClear(s, l, t) {
      StepAcyclic(s, l, t);
    } else {
      StepTangles(s, l, t);
      TangledCyclic(t.graph);
    }
  }

  /** For a read whose graph has clocks that agree with its edges, the condition is the engine's own test, at the chain ends. */
  lemma ReadClearTest(s: State, c: Cur, rf: Act)
    requires Inv(s) && EdgeMono(s.graph) && c.act.tid < s.threads && IsWrite(s.info, rf) && rf.loc == c.act.loc
    ensures ReadClear(s, c, rf)
            <==> forall p, f {:trigger Tail(s.graph, p, rf, f)} :: p in Priors(s, c, rf, s.threads) && Tail(s.graph, p, rf, f) ==> !Test(s.graph, rf, f)
  {
    forall p, f | p in Priors(s, c, rf, s.threads) && Tail(s.graph, p, rf, f)
      ensures Reach(s.graph, rf, f) <==> Test(s.graph, rf, f)
    {
      TailTest(s, c, rf, p, f);
    }
  }

  lemma TailTest(s: State, c: Cur, rf: Act, p: Act, f: Act)
    requires Inv(s) && EdgeMono(s.graph) && c.act.tid < s.threads && IsWrite(s.info, rf) && rf.loc == c.act.loc
    requires p in Priors(s, c, rf, s.threads) && Tail(s.graph, p, rf, f)
    ensures Reach(s.graph, rf, f) <==> Test(s.graph, rf, f)
  {
    PriorsOnly(s, c, rf, s.threads, p);
    PriorWrites(s, c, rf, p);
    var ch :| Chain(s.graph, p, ch, rf, f);
    ChainAvoids(s.graph, p, ch, rf, f);
    ChainKeepsLoc(s.graph, p, ch, rf, f);
    if Test(s.graph, rf, f) {
      CommittedTestSound(s.info, s.used, s.graph, rf, f);
    }
    if Reach(s.graph, rf, f) {
      if rf in s.graph {
        TestComplete(s.graph, rf, f);
      } else {
        NoSuccessorReach(s.graph, rf, f);
      }
    }
  }

  lemma {:induction false} ChainKeepsLoc(g: Graph, a: Act, p: seq<Act>, to: Act, f: Act)
    requires Closed(g) && RmwLinks(g) && Chain(g, a, p, to, f)
    ensures a.loc == f.loc
    decreases |p|
  {
    if p != [] {
      assert RmwOf(g, a, p[0]) && Edge(g, a, p[0]);
      ChainKeepsLoc(g, p[0], p[1..], to, f);
    }
  }

  // ----- runs -----

  lemma {:induction false} RunEmbeds(ss: seq<State>, ls: seq<Label>, i: nat, j: nat)
    requires IsRun(ss, ls) && i <= j < |ss|
    ensures Embeds(ss[i].graph, ss[j].graph)
  {
    hide Step;
    if i == j {
      EmbedsSuper(ss[i].graph, ss[j].graph);
    } else {
      RunEmbeds(ss, ls, i, j - 1);
      RunInv(ss, ls, j - 1);
      StepEmbeds(ss[j - 1], ls[j - 1], ss[j]);
      EmbedsTrans(ss[i].graph, ss[j - 1].graph, ss[j].graph);
    }
  }

  /** A run keeps the modification order acyclic exactly when each of its steps is clear. */
  lemma RunAcyclicExact(ss: seq<State>, ls: seq<Label>, i: nat)
    requires IsRun(ss, ls) && i < |ss|
    ensures Acyclic(ss[i].graph) <==> forall j :: 0 <= j < i ==> StepClear(ss[j], ls[j], ss[j + 1])
  {
    hide Step;
    hide StepClear;
    if j :| 0 <= j < i && !StepClear(ss[j], ls[j], ss[j + 1]) {
      RunInv(ss, ls, j);
      StepTangles(ss[j], ls[j], ss[j + 1]);
      RunEmbeds(ss, ls, j + 1, i);
      TangledStays(ss[j + 1].graph, ss[i].graph);
      TangledCyclic(ss[i].graph);
    } else {
      RunAcyclicInv(ss, ls, i);
    }
  }
}
