/**
 What sequentially consistent fences guarantee in every run: the rules of paragraphs 4 to 7 of
 section 29.3 of ISO/IEC 14882:2011, as far as the engine's scans keep them.
 */
module EngineFences {
  import opened Options
  import opened Clocks
  import opened MoGraph
  import opened Actions
  import opened Coherence
  import opened ExecutionState
  import opened Engine
  import opened EngineClocks
  import opened EngineCycles
  import opened EngineOrder

  predicate ScFence(m: Infos, f: Act) {
    f in m && m[f].kind.Fence? && m[f].order.SeqCst?
  }

  // ----- the list of fences -----

  /** `scFences` lists exactly the seq_cst fences, oldest first. */
  ghost predicate FencesInv(s: State) {
    && Sorted(s.scFences)
    && (forall f :: f in s.scFences <==> ScFence(s.info, f))
  }

  /** The last fence of a thread is no older than any of its fences. */
  lemma {:induction false} LastFenceIs(fs: seq<Act>, x: Act)
    requires Sorted(fs) && x in fs
    ensures LastFence(fs, x.tid).Some?
    ensures LastFence(fs, x.tid).value in fs && LastFence(fs, x.tid).value.tid == x.tid && x.seqno <= LastFence(fs, x.tid).value.seqno
  {
    if fs[|fs| - 1].tid != x.tid {
      LastFenceIs(fs[..|fs| - 1], x);
    }
  }

  lemma {:induction false} FencesBeforeKeep(fs: seq<Act>, x: Act, f: Act)
    requires Sorted(fs) && x in fs && f in fs && x.seqno < f.seqno
    ensures x in FencesBefore(fs, f) && Sorted(FencesBefore(fs, f)) && forall z :: z in FencesBefore(fs, f) ==> z in fs
  {
    if fs[|fs| - 1] != f {
      FencesBeforeKeep(fs[..|fs| - 1], x, f);
    }
  }

  /** A fence of thread `x.tid` before some fence of the reader counts for what came before it. */
  lemma FenceCounts(s: State, c: Cur, x: Act, y: Act)
    requires FencesInv(s) && ScFence(s.info, x) && ScFence(s.info, y) && x.seqno < y.seqno && y.tid == c.act.tid
    ensures LocalFence(s, c).Some? && y.seqno <= LocalFence(s, c).value.seqno
    ensures FenceBeforeLocal(s, c, x.tid).Some? && x.seqno <= FenceBeforeLocal(s, c, x.tid).value.seqno
  {
    LastFenceIs(s.scFences, y);
    var f := LocalFence(s, c).value;
    FencesBeforeKeep(s.scFences, x, f);
    LastFenceIs(FencesBefore(s.scFences, f), x);
  }

  // ----- the scans -----

  lemma {:induction false} ReadStopAt(s: State, c: Cur, rf: Act, t: nat, l: seq<Act>, b: Act)
    requires b in l && StopsRead(s, c, rf, t, b) && Sorted(l)
    ensures ReadStop(s, c, rf, t, l).Some?
    ensures ReadStop(s, c, rf, t, l).value in l && b.seqno <= ReadStop(s, c, rf, t, l).value.seqno
  {
    if !StopsRead(s, c, rf, t, l[|l| - 1]) {
      ReadStopAt(s, c, rf, t, l[..|l| - 1], b);
    }
  }

  lemma {:induction false} WriteStopAt(s: State, c: Cur, t: nat, l: seq<Act>, b: Act)
    requires b in l && StopsWrite(s, c, t, b) && Sorted(l)
    ensures WriteStop(s, c, t, l).Some?
    ensures WriteStop(s, c, t, l).value in l && b.seqno <= WriteStop(s, c, t, l).value.seqno
  {
    if !StopsWrite(s, c, t, l[|l| - 1]) {
      WriteStopAt(s, c, t, l[..|l| - 1], b);
    }
  }

  /** Writes are never pruned from the lists. */
  lemma WriteListed(s: State, a: Act)
    requires Inv(s) && IsWrite(s.info, a)
    ensures Represents(s, a, a) && ListOk(s, a.loc, a.tid) && a.tid < s.threads
  {
    assert Represented(s, a) && LastCovers(s, a);
    var b :| Represents(s, b, a);
    assert WfAct(s.info, s.used, b);
  }

  /** A write that counts, in a thread that is scanned, is ordered before what is read. */
  lemma StopOrders(s: State, c: Cur, rf: Act, g: Graph, a: Act)
    requires Inv(s) && c.act.tid < s.threads && Embeds(s.graph, g) && AllReach(g, Priors(s, c, rf, s.threads), rf)
    requires IsWrite(s.info, a) && a.loc == c.act.loc && ScStopsRead(s, c, a.tid, a) && !SkipsRead(s, c, rf, a.tid)
    ensures Reach(g, a, rf)
  {
    if a == rf {
      ReachRefl(g, a);
    } else {
      WriteListed(s, a);
      ReadStopAt(s, c, rf, a.tid, At(s.lists, a.loc, a.tid), a);
      var x := ReadStop(s, c, rf, a.tid, At(s.lists, a.loc, a.tid)).value;
      RepresentedBefore(s, a, a, x);
      TargetReaches(s, c, rf, a.tid, x, g);
      ReachEmbeds(s.graph, g, a, Writer(s.info, x));
      ReachTrans(g, a, Writer(s.info, x), rf);
    }
  }

  /** Where the scan of a thread is skipped, the reader's previous access has to vouch for it. */
  lemma SkipOrders(s: State, c: Cur, rf: Act, g: Graph, a: Act)
    requires Inv(s) && c.act.tid < s.threads && Embeds(s.graph, g) && AllReach(g, Priors(s, c, rf, s.threads), rf)
    requires PrevSame(s, c, rf).Some? && PrevSame(s, c, rf).value in s.info
    requires Reach(s.graph, a, Observed(s.info, PrevSame(s, c, rf).value))
    ensures Reach(g, a, rf)
  {
    PrevIs(s, c, rf);
    var p := PrevSame(s, c, rf).value;
    ObservedReachesWriter(s.info, s.used, s.graph, p);
    ReachTrans(s.graph, a, Observed(s.info, p), Writer(s.info, p));
    TargetReaches(s, c, rf, c.act.tid, p, g);
    ReachEmbeds(s.graph, g, a, Writer(s.info, p));
    ReachTrans(g, a, Writer(s.info, p), rf);
  }

  lemma PrevIs(s: State, c: Cur, rf: Act)
    requires Inv(s) && PrevSame(s, c, rf).Some?
    ensures var p := PrevSame(s, c, rf).value;
            && IsMem(s.info, p) && p.tid == c.act.tid && p.loc == c.act.loc && p.seqno <= s.used
            && (LocalFence(s, c).Some? ==> LocalFence(s, c).value.seqno < p.seqno)
  {
    var p := PrevSame(s, c, rf).value;
    ReadStopIn(s, c, rf, c.act.tid, At(s.lists, c.act.loc, c.act.tid));
    assert ListOk(s, c.act.loc, c.act.tid);
    assert WfAct(s.info, s.used, p);
  }

  // ----- exactly when a rule is kept -----

  /** `a` reaches `to` already, or some node where an edge from one of `es` to `to` is attached. */
  ghost predicate OrderedBy(g: Graph, es: seq<Act>, to: Act, a: Act) {
    Reach(g, a, to) || exists e, f {:trigger Tail(g, e, to, f)} :: e in es && Tail(g, e, to, f) && Reach(g, a, f)
  }

  lemma WithNodesReach(g: Graph, e: Act, to: Act)
    ensures var m := WithNode(WithNode(g, e), to); SameRmw(g, m) && g.Keys <= m.Keys && Embeds(m, g)
  {
    var g1 := WithNode(g, e);
    WithNodeEdges(g, e);
    WithNodeEdges(g1, to);
    EmbedsTrans(WithNode(g1, to), g1, g);
  }

  /** An edge makes `x` reach more only if `x` reaches the node it is attached to. */
  lemma AddedEdgeReach(g: Graph, e: Act, to: Act, force: bool, h: Graph, x: Act, y: Act)
    requires e in g && to in g && AddedEdge(g, e, to, force, h)
    ensures SameRmw(g, h) && g.Keys <= h.Keys
    ensures Reach(h, x, y) ==> Reach(g, x, y) || exists f :: Tail(g, e, to, f) && Reach(g, x, f)
  {
    if force || !Test(g, e, to) {
      var f :| ChainEnd(g, e, to, f) && Propagated(WithEdge(g, f, to), f, to, h);
      assert Tail(g, e, to, f);
      PushedSameRmw(g, f, to, h);
      SameShapeReach(WithEdge(g, f, to), h);
      if Reach(h, x, y) {
        ReachEmbeds(h, WithEdge(g, f, to), x, y);
        WithEdgeReach(g, f, to, x, y);
      }
    }
  }

  lemma AddedOneReach(g: Graph, e: Act, to: Act, same: bool, h: Graph, x: Act, y: Act)
    requires AddedOne(g, e, to, same, h)
    ensures SameRmw(g, h) && g.Keys <= h.Keys
    ensures Reach(h, x, y) ==> Reach(g, x, y) || exists f :: Tail(g, e, to, f) && Reach(g, x, f)
  {
    var m := WithNode(WithNode(g, e), to);
    WithNodesReach(g, e, to);
    AddedEdgeReach(m, e, to, same && e.tid == to.tid, h, x, y);
    if Reach(h, x, y) {
      if Reach(m, x, y) {
        ReachEmbeds(m, g, x, y);
      } else {
        var f :| Tail(m, e, to, f) && Reach(m, x, f);
        SameTail(g, m, e, to, f);
        ReachEmbeds(m, g, x, f);
      }
    }
  }

  lemma {:induction false} AddedAllReach(g: Graph, es: seq<Act>, to: Act, same: bool, h: Graph, x: Act, y: Act)
    requires AddedAll(g, es, to, same, h)
    ensures SameRmw(g, h) && g.Keys <= h.Keys
    ensures Reach(h, x, y) ==> Reach(g, x, y) || OrderedBy(g, es, to, x)
    decreases |es|
  {
    if es != [] {
      var init, last := es[..|es| - 1], es[|es| - 1];
      var k :| AddedAll(g, init, to, same, k) && AddedOne(k, last, to, same, h);
      AddedAllReach(g, init, to, same, k, x, y);
      AddedOneReach(k, last, to, same, h, x, y);
      if Reach(h, x, y) && !Reach(k, x, y) {
        var f :| Tail(k, last, to, f) && Reach(k, x, f);
        SameTail(g, k, last, to, f);
        AddedAllReach(g, init, to, same, k, x, f);
      }
    }
  }

  /** What was ordered before the end of a prior's chain is ordered before what is read. */
  lemma TailOrders(s: State, c: Cur, p: Purpose, rf: Act, history: int, g: Graph, a: Act)
    requires Inv(s) && ReadPart(s, c, p, rf, history, g) && OrderedBy(s.graph, Priors(s, c, rf, s.threads), rf, a)
    ensures Reach(g, a, rf)
  {
    ReadGraph(s, c, p, rf, history, g);
    SameLinks(s.info, s.graph, g);
    if Reach(s.graph, a, rf) {
      ReachEmbeds(s.graph, g, a, rf);
    } else {
      var e, f :| e in Priors(s, c, rf, s.threads) && Tail(s.graph, e, rf, f) && Reach(s.graph, a, f);
      PriorsOnly(s, c, rf, s.threads, e);
      var w :| Chain(s.graph, e, w, rf, f);
      ThroughChain(s.graph, g, e, w, rf, f);
      ReachEmbeds(s.graph, g, a, f);
      ReachTrans(g, a, f, rf);
    }
  }

  /**
   A write that a fence makes count is ordered before what a read observes exactly when the
   scan of its thread was not skipped, or it was ordered before one of the priors, at the end of
   that prior's RMW chain, or before the write read, all the same.
   */
  lemma ReadFenceExact(s: State, c: Cur, p: Purpose, rf: Act, history: int, g: Graph, a: Act)
    requires Inv(s) && ReadPart(s, c, p, rf, history, g) && a.loc == c.act.loc && ScStopsRead(s, c, a.tid, a)
    ensures Reach(g, a, rf) <==> !SkipsRead(s, c, rf, a.tid) || OrderedBy(s.graph, Priors(s, c, rf, s.threads), rf, a)
  {
    ReadGraph(s, c, p, rf, history, g);
    if !SkipsRead(s, c, rf, a.tid) {
      StopOrders(s, c, rf, g, a);
    }
    AddedAllReach(s.graph, Priors(s, c, rf, s.threads), rf, false, g, a, rf);
    if OrderedBy(s.graph, Priors(s, c, rf, s.threads), rf, a) {
      TailOrders(s, c, p, rf, history, g, a);
    }
  }

  /** The read of a label, if it has one: what it looks at, what it reads, and the graph once its edges are in. */
  ghost predicate Reads(s: State, l: Label, t: State, c: Cur, rf: Act, g: Graph) {
    match l
    case Load(tid, loc, order, w, _, _) => c == Begin(s, tid, loc, order) && rf == w && g == t.graph
    case FailedSwap(tid, loc, order, _, w, _) => c == Begin(s, tid, loc, order) && rf == w && g == t.graph
    case Update(tid, loc, order, p, w, history, _) =>
      c == Begin(s, tid, loc, order) && rf == w && exists i, g2 :: RmwStepVia(s, c, p, w, history, i, g, g2, t)
    case _ => false
  }

  /** Edges into `to` make `x` reach more only by way of `to`. */
  lemma {:induction false} AddedAllInto(g: Graph, es: seq<Act>, to: Act, same: bool, h: Graph, x: Act, y: Act)
    requires AddedAll(g, es, to, same, h) && Reach(h, x, y)
    ensures Reach(g, x, y) || Reach(g, to, y)
    decreases |es|
  {
    if es != [] {
      var init, last := es[..|es| - 1], es[|es| - 1];
      var k :| AddedAll(g, init, to, same, k) && AddedOne(k, last, to, same, h);
      AddedOneInto(k, last, to, same, h, x, y);
      if Reach(k, x, y) {
        AddedAllInto(g, init, to, same, k, x, y);
      } else {
        AddedAllInto(g, init, to, same, k, to, y);
      }
    }
  }

  lemma AddedOneInto(g: Graph, e: Act, to: Act, same: bool, h: Graph, x: Act, y: Act)
    requires AddedOne(g, e, to, same, h) && Reach(h, x, y)
    ensures Reach(g, x, y) || Reach(g, to, y)
  {
    var m := WithNode(WithNode(g, e), to);
    WithNodesReach(g, e, to);
    if (same && e.tid == to.tid) || !Test(m, e, to) {
      var f :| ChainEnd(m, e, to, f) && Propagated(WithEdge(m, f, to), f, to, h);
      SameShapeReach(WithEdge(m, f, to), h);
      ReachEmbeds(h, WithEdge(m, f, to), x, y);
      WithEdgeReach(m, f, to, x, y);
    }
    if Reach(m, x, y) {
      ReachEmbeds(m, g, x, y);
    } else {
      ReachEmbeds(m, g, to, y);
    }
  }

  /** On an acyclic graph the write part of an RMW orders nothing more before the write it read. */
  lemma UpdateAddsNone(s: State, c: Cur, p: Purpose, rf: Act, history: int, i: Info, g1: Graph, g2: Graph, t: State, a: Act)
    requires Inv(s) && c == Begin(s, c.act.tid, c.act.loc, c.order) && c.act.tid < s.threads && a in s.info
    requires RmwStepVia(s, c, p, rf, history, i, g1, g2, t) && Acyclic(t.graph)
    ensures Reach(t.graph, a, rf) <==> Reach(g1, a, rf)
  {
    var es := EdgeSet(s, c.(cv := i.cv), true, s.threads);
    var g := WithNode(WithNode(g1, rf), c.act);
    UpdateWrites(s, c, p, rf, history, i, g1, g2, t);
    RmwSpliceReady(s, c, p, rf, history, g1);
    assert WfAct(s.info, s.used, a) && WfAct(s.info, s.used, rf);
    if Reach(g1, a, rf) {
      ReachEmbeds(g1, g2, a, rf);
      ReachEmbeds(g2, t.graph, a, rf);
    } else if Reach(t.graph, a, rf) {
      var ps :| PruneOf(WithNodes(g2, es), es, ps) && AddedAll(WithNodes(g2, es), ps, c.act, true, t.graph);
      AddedAllInto(WithNodes(g2, es), ps, c.act, true, t.graph, a, rf);
      WithNodesEdges(g2, es);
      if Reach(WithNodes(g2, es), c.act, rf) {
        ReachEmbeds(WithNodes(g2, es), g2, c.act, rf);
        BackToRead(g, g2, t.graph, rf, c.act);
      } else {
        ReachEmbeds(WithNodes(g2, es), g2, a, rf);
        SplicedBack(g, rf, c.act, g2, a);
        WithNodesReach(g1, rf, c.act);
        ReachEmbeds(g, g1, a, rf);
      }
    }
  }

  lemma SplicedBack(g: Graph, rf: Act, rmw: Act, k: Graph, a: Act)
    requires GraphInv(g) && SpliceReady(g, rf, rmw) && g[rmw] == FreshNode(rmw) && AddedRmw(g, rf, rmw, k)
    requires Reach(k, a, rf) && a != rmw && rf != rmw
    ensures Reach(g, a, rf)
  {
    var h :| Spliced(g, rf, rmw, h) && Propagated(WithEdge(h, rf, rmw), rf, rmw, k);
    SameShapeReach(WithEdge(h, rf, rmw), k);
    ReachEmbeds(k, WithEdge(h, rf, rmw), a, rf);
    var w :| Walk(WithEdge(h, rf, rmw), a, w, rf);
    SplicedWalk(g, rf, rmw, h, a, w, rf);
  }

  lemma BackToRead(g: Graph, k: Graph, t: Graph, rf: Act, rmw: Act)
    requires AddedRmw(g, rf, rmw, k) && rf != rmw && Embeds(k, t) && Reach(k, rmw, rf)
    ensures !Acyclic(t)
  {
    var h :| Spliced(g, rf, rmw, h) && Propagated(WithEdge(h, rf, rmw), rf, rmw, k);
    hide WithEdge;
    hide Spliced;
    PushedEdgeReach(h, rf, rmw, k);
    ReachEmbeds(k, t, rf, rmw);
    ReachEmbeds(k, t, rmw, rf);
    if Acyclic(t) {
      AcyclicApart(t, rf, rmw);
    }
  }

  /**
   So for every read of every run, of loads, failed compare-and-swaps and RMWs alike: a fence rule
   is broken only by skipping a thread.
   */
  lemma RunReadFenceExact(ss: seq<State>, ls: seq<Label>, i: nat, c: Cur, rf: Act, g: Graph, a: Act)
    requires IsRun(ss, ls) && i < |ls| && Reads(ss[i], ls[i], ss[i + 1], c, rf, g)
    requires ScStopsRead(ss[i], c, a.tid, a) && a.loc == c.act.loc
    ensures Reach(g, a, rf) <==> !SkipsRead(ss[i], c, rf, a.tid) || OrderedBy(ss[i].graph, Priors(ss[i], c, rf, ss[i].threads), rf, a)
    ensures Acyclic(ss[i + 1].graph) ==> (Reach(ss[i + 1].graph, a, rf) <==> Reach(g, a, rf))
  {
    var s, l, t := ss[i], ls[i], ss[i + 1];
    RunInv(ss, ls, i);
    assert Step(s, l, t);
    match l
    case Load(_, _, _, _, history, _) => ReadFenceExact(s, c, PlainRead, rf, history, g, a);
    case FailedSwap(_, _, _, p, _, history) => ReadFenceExact(s, c, p, rf, history, g, a);
    case Update(_, _, _, p, _, history, _) =>
      var inf, g2 :| RmwStepVia(s, c, p, rf, history, inf, g, g2, t);
      ReadFenceExact(s, c, p, rf, history, g, a);
      if Acyclic(t.graph) {
        UpdateAddsNone(s, c, p, rf, history, inf, g, g2, t, a);
      }
    case _ =>
  }

  // ----- the rules -----

  /** A write, then a fence of its thread, then a fence of the other thread, then its access. */
  predicate BetweenFences(m: Infos, a: Act, x: Act, y: Act, b: Act) {
    && IsWrite(m, a) && IsMem(m, b) && a.loc == b.loc && ScFence(m, x) && ScFence(m, y)
    && x.tid == a.tid && y.tid == b.tid && a.seqno < x.seqno < y.seqno < b.seqno
  }

  ghost predicate ReadsSince(m: Infos, y: Act, b: Act, seqCst: bool) {
    forall p :: IsMem(m, p) && p.tid == b.tid && p.loc == b.loc && y.seqno < p.seqno < b.seqno ==>
      m[p].IsRead() && (seqCst ==> m[p].order.SeqCst?)
  }

  /** A seq_cst write, then a fence of the other thread, and from there on only reads up to its read. */
  ghost predicate BeforeFence(m: Infos, a: Act, y: Act, b: Act) {
    && ScWrite(m, a) && IsMem(m, b) && m[b].IsRead() && a.loc == b.loc && ScFence(m, y) && y.tid == b.tid
    && a.seqno < y.seqno < b.seqno && ReadsSince(m, y, b, false)
  }

  /** A write, then a fence of its thread, and from there on only seq_cst reads up to the other thread's seq_cst read. */
  ghost predicate AfterFence(m: Infos, a: Act, x: Act, b: Act) {
    && IsWrite(m, a) && IsMem(m, b) && m[b].IsRead() && m[b].order.SeqCst? && a.loc == b.loc
    && ScFence(m, x) && x.tid == a.tid && a.seqno < x.seqno < b.seqno && ReadsSince(m, x, b, true)
  }

  ghost predicate BetweenKept(s: State, a: Act, x: Act, y: Act, b: Act) {
    BetweenFences(s.info, a, x, y, b) ==> Reach(s.graph, a, Observed(s.info, b))
  }

  ghost predicate BeforeKept(s: State, a: Act, y: Act, b: Act) {
    BeforeFence(s.info, a, y, b) ==> Reach(s.graph, a, Observed(s.info, b))
  }

  ghost predicate AfterKept(s: State, a: Act, x: Act, b: Act) {
    AfterFence(s.info, a, x, b) ==> Reach(s.graph, a, Observed(s.info, b))
  }

  /** The rules hold for what `b` observes. */
  ghost predicate Fenced(s: State, b: Act) {
    && (forall a, x, y {:trigger BetweenKept(s, a, x, y, b)} :: BetweenKept(s, a, x, y, b))
    && (forall a, y {:trigger BeforeKept(s, a, y, b)} :: BeforeKept(s, a, y, b))
    && (forall a, x {:trigger AfterKept(s, a, x, b)} :: AfterKept(s, a, x, b))
  }

  ghost predicate FencedInv(s: State) {
    FencesInv(s) && forall b {:trigger Fenced(s, b)} :: Fenced(s, b)
  }

  // ----- reads -----

  lemma CoveredReads(s: State, c: Cur, rf: Act, g: Graph, a: Act)
    requires Inv(s) && c == Begin(s, c.act.tid, c.act.loc, c.order) && c.act.tid < s.threads && Embeds(s.graph, g)
    requires AllReach(g, Priors(s, c, rf, s.threads), rf)
    requires IsWrite(s.info, a) && a.loc == c.act.loc && a.tid == c.act.tid
    ensures Reach(g, a, rf)
  {
    OwnKnown(s, c, a);
    ReadOrders(s, c, rf, g, a);
  }

  lemma OwnKnown(s: State, c: Cur, a: Act)
    requires Inv(s) && c == Begin(s, c.act.tid, c.act.loc, c.order) && a in s.info && a.tid == c.act.tid
    ensures Get(c.cv, a.tid) >= a.seqno
  {
    BeginOk(s, c.act.tid, c.act.loc, c.order);
    assert WfAct(s.info, s.used, a);
    assert Get(s.info[a].cv, a.tid) <= Get(c.cv, a.tid);
  }

  /** What a read needs of the invariant: the graph `g` of its read part, the reader not yet recorded. */
  ghost predicate Reading(s: State, c: Cur, rf: Act, g: Graph) {
    && Inv(s) && FencedInv(s) && c == Begin(s, c.act.tid, c.act.loc, c.order) && c.act.tid < s.threads
    && Embeds(s.graph, g) && AllReach(g, Priors(s, c, rf, s.threads), rf)
  }

  lemma ReadBetween(s: State, c: Cur, rf: Act, g: Graph, a: Act, x: Act, y: Act)
    requires Reading(s, c, rf, g) && IsWrite(s.info, a) && a.loc == c.act.loc && ScFence(s.info, x) && ScFence(s.info, y)
    requires x.tid == a.tid && y.tid == c.act.tid && a.seqno < x.seqno < y.seqno
    ensures Reach(g, a, rf)
  {
    FenceCounts(s, c, x, y);
    if a.tid == c.act.tid {
      CoveredReads(s, c, rf, g, a);
    } else if SkipsRead(s, c, rf, a.tid) {
      PrevIs(s, c, rf);
      var p := PrevSame(s, c, rf).value;
      assert Fenced(s, p) && BetweenKept(s, a, x, y, p);
      SkipOrders(s, c, rf, g, a);
    } else {
      StopOrders(s, c, rf, g, a);
    }
  }

  lemma ReadBefore(s: State, c: Cur, rf: Act, g: Graph, a: Act, y: Act)
    requires Reading(s, c, rf, g) && ScWrite(s.info, a) && a.loc == c.act.loc && ScFence(s.info, y) && y.tid == c.act.tid
    requires a.seqno < y.seqno && ReadsSince(s.info, y, c.act, false)
    ensures Reach(g, a, rf)
  {
    LastFenceIs(s.scFences, y);
    if a.tid == c.act.tid {
      CoveredReads(s, c, rf, g, a);
    } else if SkipsRead(s, c, rf, a.tid) {
      PrevIs(s, c, rf);
      BeginOk(s, c.act.tid, c.act.loc, c.order);
      var p := PrevSame(s, c, rf).value;
      assert ReadsSince(s.info, y, p, false);
      assert Fenced(s, p) && BeforeKept(s, a, y, p);
      SkipOrders(s, c, rf, g, a);
    } else {
      StopOrders(s, c, rf, g, a);
    }
  }

  lemma ReadAfter(s: State, c: Cur, rf: Act, g: Graph, a: Act, x: Act)
    requires Reading(s, c, rf, g) && IsWrite(s.info, a) && a.loc == c.act.loc && ScFence(s.info, x) && x.tid == a.tid
    requires a.seqno < x.seqno && c.order.SeqCst? && ReadsSince(s.info, x, c.act, true)
    ensures Reach(g, a, rf)
  {
    LastFenceIs(s.scFences, x);
    if a.tid == c.act.tid {
      CoveredReads(s, c, rf, g, a);
    } else if SkipsRead(s, c, rf, a.tid) {
      PrevIs(s, c, rf);
      BeginOk(s, c.act.tid, c.act.loc, c.order);
      var p := PrevSame(s, c, rf).value;
      assert ReadsSince(s.info, x, p, true);
      assert Fenced(s, p) && AfterKept(s, a, x, p);
      SkipOrders(s, c, rf, g, a);
    } else {
      StopOrders(s, c, rf, g, a);
    }
  }

  // ----- steps -----

  /** A step that records one action, the graph growing along. */
  ghost predicate Records(s: State, n: Act, i: Info, t: State) {
    && Inv(s) && NewInfo(s.info, s.used, n, i) && t.info == s.info[n := i] && Embeds(s.graph, t.graph)
  }

  lemma RecordsFresh(s: State, n: Act, i: Info, t: State)
    requires Records(s, n, i, t)
    ensures n !in s.info && forall b :: b in s.info ==> b.seqno < n.seqno
  {
    forall b | b in s.info ensures b.seqno < n.seqno {
      assert WfAct(s.info, s.used, b);
    }
  }

  lemma OldBetween(s: State, n: Act, i: Info, t: State, a: Act, x: Act, y: Act, b: Act)
    requires Records(s, n, i, t) && Fenced(s, b) && b in s.info
    ensures BetweenKept(t, a, x, y, b)
  {
    RecordsFresh(s, n, i, t);
    assert BetweenKept(s, a, x, y, b);
    hide Inv;
    if BetweenFences(t.info, a, x, y, b) {
      ReachEmbeds(s.graph, t.graph, a, Observed(s.info, b));
    }
  }

  lemma OldBefore(s: State, n: Act, i: Info, t: State, a: Act, y: Act, b: Act)
    requires Records(s, n, i, t) && Fenced(s, b) && b in s.info
    ensures BeforeKept(t, a, y, b)
  {
    RecordsFresh(s, n, i, t);
    assert BeforeKept(s, a, y, b);
    hide Inv;
    if BeforeFence(t.info, a, y, b) {
      OldReads(s, n, i, y, b, false);
      ReachEmbeds(s.graph, t.graph, a, Observed(s.info, b));
    }
  }

  lemma OldAfter(s: State, n: Act, i: Info, t: State, a: Act, x: Act, b: Act)
    requires Records(s, n, i, t) && Fenced(s, b) && b in s.info
    ensures AfterKept(t, a, x, b)
  {
    RecordsFresh(s, n, i, t);
    assert AfterKept(s, a, x, b);
    hide Inv;
    if AfterFence(t.info, a, x, b) {
      OldReads(s, n, i, x, b, true);
      ReachEmbeds(s.graph, t.graph, a, Observed(s.info, b));
    }
  }

  /** The rules among actions already on record. */
  lemma OldFenced(s: State, n: Act, i: Info, t: State, b: Act)
    requires Records(s, n, i, t) && Fenced(s, b) && b in s.info
    ensures Fenced(t, b)
  {
    forall a, x, y ensures BetweenKept(t, a, x, y, b) { OldBetween(s, n, i, t, a, x, y, b); }
    forall a, y ensures BeforeKept(t, a, y, b) { OldBefore(s, n, i, t, a, y, b); }
    forall a, x ensures AfterKept(t, a, x, b) { OldAfter(s, n, i, t, a, x, b); }
  }

  lemma OldReads(s: State, n: Act, i: Info, y: Act, b: Act, seqCst: bool)
    requires n !in s.info && ReadsSince(s.info[n := i], y, b, seqCst)
    ensures ReadsSince(s.info, y, b, seqCst)
  {
    var m := s.info[n := i];
    forall p | IsMem(s.info, p) && p.tid == b.tid && p.loc == b.loc && y.seqno < p.seqno < b.seqno
      ensures s.info[p].IsRead() && (seqCst ==> s.info[p].order.SeqCst?)
    {
      assert IsMem(m, p);
    }
  }

  lemma FencesStep(s: State, n: Act, i: Info, t: State)
    requires Records(s, n, i, t) && FencesInv(s)
    requires t.scFences == if i.kind.Fence? && i.order.SeqCst? then s.scFences + [n] else s.scFences
    ensures FencesInv(t)
  {
    RecordsFresh(s, n, i, t);
    forall k | 0 <= k < |s.scFences| ensures s.scFences[k].seqno < n.seqno {
      assert s.scFences[k] in s.scFences;
    }
  }

  lemma FencedStep(s: State, n: Act, i: Info, t: State)
    requires Records(s, n, i, t) && FencedInv(s) && Fenced(t, n)
    requires t.scFences == if i.kind.Fence? && i.order.SeqCst? then s.scFences + [n] else s.scFences
    ensures FencedInv(t)
  {
    hide Fenced;
    FencesStep(s, n, i, t);
    forall b ensures Fenced(t, b) {
      if b !in t.info {
        OtherFenced(t, b);
      } else if b != n {
        OldFenced(s, n, i, t, b);
      }
    }
  }

  /** Nothing else to show for a new action that accesses no memory. */
  lemma OtherFenced(t: State, n: Act)
    requires !IsMem(t.info, n)
    ensures Fenced(t, n)
  {
    forall a, x, y ensures BetweenKept(t, a, x, y, n) {}
    forall a, y ensures BeforeKept(t, a, y, n) {}
    forall a, x ensures AfterKept(t, a, x, n) {}
  }

  /** A new read, or the read part of an RMW. */
  lemma ReadFenced(s: State, c: Cur, rf: Act, g: Graph, i: Info, t: State)
    requires Reading(s, c, rf, g) && i.IsRead() && i.rf == Some(rf) && i.order == c.order
    requires Records(s, c.act, i, t) && Embeds(g, t.graph)
    ensures Fenced(t, c.act)
  {
    var n := c.act;
    RecordsFresh(s, n, i, t);
    hide Reading;
    hide Inv;
    forall a, x, y ensures BetweenKept(t, a, x, y, n) {
      if BetweenFences(t.info, a, x, y, n) {
        ReadBetween(s, c, rf, g, a, x, y);
        ReachEmbeds(g, t.graph, a, rf);
      }
    }
    forall a, y ensures BeforeKept(t, a, y, n) {
      if BeforeFence(t.info, a, y, n) {
        OldReads(s, n, i, y, n, false);
        ReadBefore(s, c, rf, g, a, y);
        ReachEmbeds(g, t.graph, a, rf);
      }
    }
    forall a, x ensures AfterKept(t, a, x, n) {
      if AfterFence(t.info, a, x, n) {
        OldReads(s, n, i, x, n, true);
        ReadAfter(s, c, rf, g, a, x);
        ReachEmbeds(g, t.graph, a, rf);
      }
    }
  }

  lemma ReadStepFenced(s: State, c: Cur, p: Purpose, rf: Act, history: int, i: Info, t: State)
    requires Inv(s) && FencedInv(s) && c == Begin(s, c.act.tid, c.act.loc, c.order)
    requires ReadPart(s, c, p, rf, history, t.graph) && ReadClock(s, c, rf, i.cv)
    requires i == Info(Read, c.order, i.value, Some(rf), i.cv, MapGet(s.relFence, c.act.tid)) && t.info == s.info[c.act := i]
    requires t.scFences == s.scFences
    ensures FencedInv(t)
  {
    CandidateWrites(s, c, p, history, s.threads, rf);
    ReadInfoOk(s, c.act.tid, c.act.loc, c.order, rf, Read, i.value, i.cv);
    ReadGraph(s, c, p, rf, history, t.graph);
    EmbedsSuper(t.graph, t.graph);
    ReadFenced(s, c, rf, t.graph, i, t);
    FencedStep(s, c.act, i, t);
  }

  lemma StoreBetween(s: State, c: Cur, g: Graph, a: Act, x: Act, y: Act)
    requires Inv(s) && FencesInv(s) && c == Begin(s, c.act.tid, c.act.loc, c.order) && c.act.tid < s.threads && c.act.seqno > s.used
    requires AddedPruned(s.graph, EdgeSet(s, c, false, s.threads), c.act, g)
    requires IsWrite(s.info, a) && a.loc == c.act.loc && ScFence(s.info, x) && ScFence(s.info, y)
    requires x.tid == a.tid && y.tid == c.act.tid && a.seqno < x.seqno < y.seqno
    ensures Reach(g, a, c.act)
  {
    if a.tid == c.act.tid {
      OwnKnown(s, c, a);
      StoreOrders(s, c, g, a);
    } else {
      FenceCounts(s, c, x, y);
      WriteListed(s, a);
      WriteStopAt(s, c, a.tid, At(s.lists, a.loc, a.tid), a);
      var z := WriteStop(s, c, a.tid, At(s.lists, a.loc, a.tid)).value;
      RepresentedBefore(s, a, a, z);
      StoreGraph(s, c, g);
      EdgeSetIn(s, c, false, s.threads, a.tid);
      assert Reach(g, Writer(s.info, z), c.act);
      ReachEmbeds(s.graph, g, a, Writer(s.info, z));
      ReachTrans(g, a, Writer(s.info, z), c.act);
    }
  }

  lemma StoreStepFenced(s: State, tid: nat, loc: nat, order: Order, value: nat, t: State)
    requires Inv(s) && FencedInv(s) && tid < s.threads && StoreStep(s, tid, loc, order, value, t)
    ensures FencedInv(t)
  {
    var c := Begin(s, tid, loc, order);
    var i := Info(Write, order, value, None, c.cv, MapGet(s.relFence, tid));
    BeginOk(s, tid, loc, order);
    PlainInfoOk(s, tid, loc, order, i);
    StoreGraph(s, c, t.graph);
    forall a, x, y ensures BetweenKept(t, a, x, y, c.act) {
      if BetweenFences(t.info, a, x, y, c.act) {
        StoreBetween(s, c, t.graph, a, x, y);
      }
    }
    forall a, y ensures BeforeKept(t, a, y, c.act) {}
    forall a, x ensures AfterKept(t, a, x, c.act) {}
    FencedStep(s, c.act, i, t);
  }

  lemma UpdateStepFenced(s: State, c: Cur, p: Purpose, rf: Act, history: int, i: Info, g1: Graph, g2: Graph, t: State)
    requires Inv(s) && FencedInv(s) && c == Begin(s, c.act.tid, c.act.loc, c.order) && c.act.tid < s.threads
    requires RmwStepVia(s, c, p, rf, history, i, g1, g2, t)
    ensures FencedInv(t)
  {
    RmwRecordedMo(s, c, p, rf, history, i, g1, g2);
    UpdateWrites(s, c, p, rf, history, i, g1, g2, t);
    ReadGraph(s, c, p, rf, history, g1);
    EmbedsTrans(g1, g2, t.graph);
    EmbedsTrans(s.graph, g2, t.graph);
    ReadFenced(s, c, rf, g1, i, t);
    FencedStep(s, c.act, i, t);
  }

  lemma LoadFenced(s: State, tid: nat, loc: nat, order: Order, rf: Act, history: int, budget: bool, t: State)
    requires Inv(s) && FencedInv(s) && LoadStep(s, tid, loc, order, rf, history, budget, t)
    ensures FencedInv(t)
  {
    hide Inv;
    hide FencedInv;
    var c := Begin(s, tid, loc, order);
    var g, cv, acq :|
      && ReadPart(s, c, PlainRead, rf, history, g)
      && ReadClock(s, c, rf, cv) && AcqUpdated(s, tid, rf, acq)
      && t == Commit(s, c.act, Info(Read, order, 0, Some(rf), cv, MapGet(s.relFence, tid)), budget && CanPrune(s, c, rf))
                .(graph := g, acqCv := acq);
    ReadStepFenced(s, c, PlainRead, rf, history, Info(Read, order, 0, Some(rf), cv, MapGet(s.relFence, tid)), t);
  }

  lemma FailedSwapFenced(s: State, tid: nat, loc: nat, order: Order, p: Purpose, rf: Act, history: int, t: State)
    requires Inv(s) && FencedInv(s) && FailedSwapStep(s, tid, loc, order, p, rf, history, t)
    ensures FencedInv(t)
  {
    hide Inv;
    hide FencedInv;
    var c := Begin(s, tid, loc, order);
    var g, cv, acq :|
      && p.CompareSwap? && !WouldSucceed(s.info, rf, p) && ReadPart(s, c, p, rf, history, g)
      && ReadClock(s, c, rf, cv) && AcqUpdated(s, tid, rf, acq)
      && t == Commit(s, c.act, Info(Read, order, p.expected, Some(rf), cv, MapGet(s.relFence, tid)), false)
                .(graph := g, acqCv := acq);
    ReadStepFenced(s, c, p, rf, history, Info(Read, order, p.expected, Some(rf), cv, MapGet(s.relFence, tid)), t);
  }

  /** The actions that access no memory, and the fence each may add to the list. */
  lemma OtherRecords(s: State, l: Label, t: State, a: Act, i: Info)
    requires Inv(s) && Step(s, l, t) && (l.FenceOp? || l.Sync? || l.Spawn?)
    requires NewInfo(s.info, s.used, a, i) && t.info == s.info[a := i]
    ensures !i.IsMem() && t.graph == s.graph
    ensures t.scFences == if i.kind.Fence? && i.order.SeqCst? then s.scFences + [a] else s.scFences
  {
    assert WfAct(s.info, s.used, a);
    var c := Begin(s, l.tid, if l.FenceOp? then FENCE_LOCATION else l.loc, if l.FenceOp? then l.order else SeqCst);
    assert a in t.info;
    assert a == c.act;
  }

  lemma OtherStepFenced(s: State, l: Label, t: State)
    requires Inv(s) && SaturatedInv(s) && FencedInv(s) && Step(s, l, t) && (l.FenceOp? || l.Sync? || l.Spawn?)
    ensures FencedInv(t)
  {
    hide Inv;
    hide Step;
    hide SaturatedInv;
    hide FencedInv;
    var a, i := StepRecords(s, l, t);
    OtherRecords(s, l, t, a, i);
    EmbedsSuper(s.graph, t.graph);
    OtherFenced(t, a);
    FencedStep(s, a, i, t);
  }

  lemma DeferFenced(s: State)
    requires FencedInv(s)
    ensures FencedInv(s.(used := s.used + 1))
  {
    var t := s.(used := s.used + 1);
    forall b ensures Fenced(t, b) {
      assert Fenced(s, b);
      forall a, x, y ensures BetweenKept(t, a, x, y, b) { assert BetweenKept(s, a, x, y, b); }
      forall a, y ensures BeforeKept(t, a, y, b) { assert BeforeKept(s, a, y, b); }
      forall a, x ensures AfterKept(t, a, x, b) { assert AfterKept(s, a, x, b); }
    }
  }

  lemma StepFenced(s: State, l: Label, t: State)
    requires Inv(s) && SaturatedInv(s) && FencedInv(s) && Step(s, l, t)
    ensures FencedInv(t)
  {
    hide Inv;
    hide FencedInv;
    hide SaturatedInv;
    hide LoadStep;
    hide FailedSwapStep;
    hide StoreStep;
    hide FenceStep;
    hide SyncStep;
    hide SpawnStep;
    hide RmwStepVia;
    match l
    case Load(tid, loc, order, rf, history, budget) => LoadFenced(s, tid, loc, order, rf, history, budget, t);
    case FailedSwap(tid, loc, order, p, rf, history) => FailedSwapFenced(s, tid, loc, order, p, rf, history, t);
    case Update(tid, loc, order, p, rf, history, value) =>
      var c := Begin(s, tid, loc, order);
      var i: Info, g1, g2 :| i.value == value && RmwStepVia(s, c, p, rf, history, i, g1, g2, t);
      UpdateStepFenced(s, c, p, rf, history, i, g1, g2, t);
    case Store(tid, loc, order, value) => StoreStepFenced(s, tid, loc, order, value, t);
    case Defer(_) => DeferFenced(s);
    case _ => OtherStepFenced(s, l, t);
  }

  // ----- runs -----

  lemma InitFenced()
    ensures FencedInv(Init())
  {
    forall b ensures Fenced(Init(), b) {
      OtherFenced(Init(), b);
    }
  }

  lemma {:induction false} RunFenced(ss: seq<State>, ls: seq<Label>, i: nat)
    requires IsRun(ss, ls) && i < |ss|
    ensures FencedInv(ss[i])
  {
    hide Step;
    hide Inv;
    hide FencedInv;
    hide SaturatedInv;
    if i == 0 {
      InitFenced();
    } else {
      RunFenced(ss, ls, i - 1);
      RunInv(ss, ls, i - 1);
      RunSaturated(ss, ls, i - 1);
      StepFenced(ss[i - 1], ls[i - 1], ss[i]);
    }
  }

  /**
   Paragraph 6, and its counterpart for writes: in every run a write before a fence of its
   thread is ordered before whatever another thread's access observes after a later fence.
   */
  lemma RunBetweenFences(ss: seq<State>, ls: seq<Label>, i: nat, a: Act, x: Act, y: Act, b: Act)
    requires IsRun(ss, ls) && i < |ss| && BetweenFences(ss[i].info, a, x, y, b)
    ensures Reach(ss[i].graph, a, Observed(ss[i].info, b))
  {
    RunFenced(ss, ls, i);
    assert Fenced(ss[i], b) && BetweenKept(ss[i], a, x, y, b);
  }

  /**
   Paragraph 4: in every run a read after a fence observes a seq_cst write that preceded the
   fence, or a later one, if its thread only read the location since the fence.
   */
  lemma RunBeforeFence(ss: seq<State>, ls: seq<Label>, i: nat, a: Act, y: Act, b: Act)
    requires IsRun(ss, ls) && i < |ss| && BeforeFence(ss[i].info, a, y, b)
    ensures Reach(ss[i].graph, a, Observed(ss[i].info, b))
  {
    RunFenced(ss, ls, i);
    assert Fenced(ss[i], b) && BeforeKept(ss[i], a, y, b);
  }

  /**
   Paragraph 5: in every run a seq_cst read observes a write whose thread took a fence before
   it, or a later one, if its own thread made only seq_cst reads of the location since the fence.
   */
  lemma RunAfterFence(ss: seq<State>, ls: seq<Label>, i: nat, a: Act, x: Act, b: Act)
    requires IsRun(ss, ls) && i < |ss| && AfterFence(ss[i].info, a, x, b)
    ensures Reach(ss[i].graph, a, Observed(ss[i].info, b))
  {
    RunFenced(ss, ls, i);
    assert Fenced(ss[i], b) && AfterKept(ss[i], a, x, b);
  }
}
