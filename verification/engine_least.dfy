/**
 The modification order orders no more than the rules of coherence, sequential consistency and
 atomicity ask for, and a read is rejected only for one of them: nothing that the rules allow is
 lost.
 */
module EngineLeast {
  import opened Options
  import opened Clocks
  import opened MoGraph
  import opened Actions
  import opened Coherence
  import opened ExecutionState
  import opened Engine
  import opened EngineOrder
  import opened EngineClocks
  import opened EngineSync
  import opened EngineCandidates
  import EF = EngineFences

  // ----- which accesses a read or write has to respect -----

  /** Paragraph 5 of section 29.3: a seq_cst read after a fence of the writing thread. */
  ghost predicate FenceThenRead(m: Infos, order: Order, x: Act) {
    order.SeqCst? && exists f :: EF.ScFence(m, f) && f.tid == x.tid && x.seqno < f.seqno
  }

  /** Paragraph 4: a seq_cst write before a fence of the accessing thread `t`. */
  ghost predicate WriteThenFence(m: Infos, t: nat, x: Act) {
    SeqCstAct(m, x) && exists g :: EF.ScFence(m, g) && g.tid == t && x.seqno < g.seqno
  }

  /** Paragraphs 6 and 7: a fence of the writing thread, then one of the accessing thread `t`. */
  ghost predicate BetweenTwo(m: Infos, t: nat, x: Act) {
    exists f, g :: EF.ScFence(m, f) && EF.ScFence(m, g) && f.tid == x.tid && g.tid == t && x.seqno < f.seqno < g.seqno
  }

  /** What a read by thread `t` observes may not precede the write of `x`. */
  ghost predicate CountsForRead(s: State, t: nat, loc: nat, order: Order, x: Act) {
    && IsMem(s.info, x) && x.loc == loc
    && (|| KnownTo(s, t, x)
        || (IsWrite(s.info, x) && (FenceThenRead(s.info, order, x) || WriteThenFence(s.info, t, x) || BetweenTwo(s.info, t, x))))
  }

  /** The new write `a` may not precede the write of `x`. */
  ghost predicate CountsForWrite(s: State, m: Infos, a: Act, x: Act) {
    && IsMem(s.info, x) && x.loc == a.loc && a in m
    && (HappensBefore(m, x, a) || (IsWrite(s.info, x) && BetweenTwo(s.info, a.tid, x)))
  }

  // ----- what the scans stop at counts -----

  lemma {:induction false} LastFenceOf(fs: seq<Act>, tid: nat)
    ensures LastFence(fs, tid).Some? ==> LastFence(fs, tid).value in fs && LastFence(fs, tid).value.tid == tid
  {
    if fs != [] && fs[|fs| - 1].tid != tid {
      LastFenceOf(fs[..|fs| - 1], tid);
    }
  }

  lemma {:induction false} EarlierFences(fs: seq<Act>, f: Act, z: Act)
    requires Sorted(fs) && z in FencesBefore(fs, f)
    ensures z in fs && z.seqno < f.seqno
  {
    if fs[|fs| - 1] != f {
      EarlierFences(fs[..|fs| - 1], f, z);
    } else {
      assert z in fs[..|fs| - 1];
    }
  }

  /** A fence of thread `t` before the accessing thread's own last one. */
  lemma FenceBeforeIs(s: State, c: Cur, t: nat, x: Act)
    requires EF.FencesInv(s) && x.tid == t && Before(x, FenceBeforeLocal(s, c, t))
    ensures BetweenTwo(s.info, c.act.tid, x)
  {
    var g := LocalFence(s, c).value;
    LastFenceOf(s.scFences, c.act.tid);
    LastFenceOf(FencesBefore(s.scFences, g), t);
    var f := FenceBeforeLocal(s, c, t).value;
    EarlierFences(s.scFences, g, f);
    assert EF.ScFence(s.info, f) && EF.ScFence(s.info, g);
  }

  lemma FenceStopCounts(s: State, c: Cur, x: Act)
    requires EF.FencesInv(s) && ScStopsRead(s, c, x.tid, x)
    ensures FenceThenRead(s.info, c.order, x) || WriteThenFence(s.info, c.act.tid, x) || BetweenTwo(s.info, c.act.tid, x)
  {
    if Before(x, FenceBeforeLocal(s, c, x.tid)) {
      FenceBeforeIs(s, c, x.tid, x);
    } else if SeqCstAct(s.info, x) && Before(x, LocalFence(s, c)) {
      LastFenceOf(s.scFences, c.act.tid);
      assert EF.ScFence(s.info, LocalFence(s, c).value);
    } else {
      LastFenceOf(s.scFences, x.tid);
      assert EF.ScFence(s.info, LastFence(s.scFences, x.tid).value);
    }
  }

  /** The write a scan of a read comes up with is that of an access that counts. */
  lemma TargetCounts(s: State, c: Cur, rf: Act, t: nat) returns (x: Act)
    requires Prepared(s) && EF.FencesInv(s) && c == Begin(s, c.act.tid, c.act.loc, c.order) && IsWrite(s.info, rf)
    requires ReadTarget(s, c, rf, t).Some? && ReadTarget(s, c, rf, t).value != rf
    ensures CountsForRead(s, c.act.tid, c.act.loc, c.order, x) && Writer(s.info, x) == ReadTarget(s, c, rf, t).value
  {
    var l := At(s.lists, c.act.loc, t);
    ReadStopIn(s, c, rf, t, l);
    assert ListOk(s, c.act.loc, t);
    x := ReadStop(s, c, rf, t, l).value;
    KnownIff(s, c, x);
    if x != rf && ScStopsRead(s, c, t, x) {
      FenceStopCounts(s, c, x);
    }
  }

  lemma {:induction false} WriteStopCounts(s: State, c: Cur, t: nat, l: seq<Act>)
    ensures WriteStop(s, c, t, l).Some? ==> WriteStop(s, c, t, l).value in l && StopsWrite(s, c, t, WriteStop(s, c, t, l).value)
  {
    if l != [] && !StopsWrite(s, c, t, l[|l| - 1]) {
      WriteStopCounts(s, c, t, l[..|l| - 1]);
    }
  }

  /** Every member of a write's edge set is the last seq_cst write, or the write of an access that counts. */
  lemma {:induction false} EdgeSetCounts(s: State, m: Infos, c: Cur, rmw: bool, k: nat, p: Act)
    requires Prepared(s) && EF.FencesInv(s) && p in EdgeSet(s, c, rmw, k) && c.act in m && m[c.act].cv == c.cv
    ensures (c.order.SeqCst? && LastScWrite(s.info, c.act.loc, p)) || exists x :: CountsForWrite(s, m, c.act, x) && Writer(s.info, x) == p
  {
    if k == 0 {
      LastScIs(s, c.act.loc, p);
    } else if p in EdgeSet(s, c, rmw, k - 1) {
      EdgeSetCounts(s, m, c, rmw, k - 1, p);
    } else {
      var t, l := k - 1, At(s.lists, c.act.loc, k - 1);
      WriteStopCounts(s, c, t, l);
      assert ListOk(s, c.act.loc, t);
      var x := WriteStop(s, c, t, l).value;
      if !HbCur(c, x) {
        FenceBeforeIs(s, c, t, x);
      }
      assert CountsForWrite(s, m, c.act, x);
    }
  }

  // ----- rejection -----

  lemma RejectedFor(s: State, c: Cur, rf: Act) returns (x: Act)
    requires Prepared(s) && EF.FencesInv(s) && c == Begin(s, c.act.tid, c.act.loc, c.order)
    requires IsWrite(s.info, rf) && rf.loc == c.act.loc && !ReadAccepts(s, c, rf)
    ensures CountsForRead(s, c.act.tid, c.act.loc, c.order, x) && Writer(s.info, x) != rf && Reach(s.graph, rf, Writer(s.info, x))
  {
    var t :| 0 <= t < s.threads && !Passes(s, c, rf, t);
    x := TargetCounts(s, c, rf, t);
    WriterIsWrite(s, x);
    CommittedTestSound(s.info, s.used, s.graph, rf, Writer(s.info, x));
  }

  /** On a graph whose test is exact an accepted write precedes no write of an access the reader knows. */
  lemma AcceptedFor(s: State, c: Cur, rf: Act, x: Act)
    requires Inv(s) && SyncInv(s) && Acyclic(s.graph) && EdgeMono(s.graph) && c == Begin(s, c.act.tid, c.act.loc, c.order)
    requires c.act.tid < s.threads && IsWrite(s.info, rf) && rf.loc == c.act.loc && ReadAccepts(s, c, rf)
    requires IsMem(s.info, x) && x.loc == c.act.loc && KnownTo(s, c.act.tid, x)
    ensures Writer(s.info, x) == rf || !Reach(s.graph, rf, Writer(s.info, x))
  {
    var w := Writer(s.info, x);
    if w != rf && Reach(s.graph, rf, w) {
      KnownIff(s, c, x);
      var p := KnownTarget(s, c, rf, x);
      ReachTrans(s.graph, rf, w, p);
      if p == rf {
        AcyclicApart(s.graph, rf, w);
      } else {
        ReachedIn(s.graph, rf, p);
        TestComplete(s.graph, rf, p);
      }
    }
  }

  lemma ReachedIn(g: Graph, a: Act, b: Act)
    requires Reach(g, a, b) && a != b
    ensures a in g
  {
    var p :| Walk(g, a, p, b);
  }

  /** What the reader knows is ordered before some write that the scans test. */
  lemma KnownTarget(s: State, c: Cur, rf: Act, x: Act) returns (p: Act)
    requires Inv(s) && c.act.tid < s.threads && ReadAccepts(s, c, rf)
    requires IsMem(s.info, x) && x.loc == c.act.loc && HbCur(c, x)
    ensures Reach(s.graph, Writer(s.info, x), p) && (p == rf || !Test(s.graph, rf, p))
  {
    assert LastCovers(s, x) && WfAct(s.info, s.used, x);
    var y: Act;
    if SkipsRead(s, c, rf, x.tid) {
      y := PrevSame(s, c, rf).value;
      ReadStopIn(s, c, rf, c.act.tid, At(s.lists, c.act.loc, c.act.tid));
      assert ListOk(s, c.act.loc, c.act.tid);
      CoherentWriters(s.info, s.used, s.graph, x, y);
      assert Passes(s, c, rf, c.act.tid);
    } else {
      y := ReadScanCovers(s, c, rf, x);
      assert Passes(s, c, rf, x.tid);
    }
    p := Writer(s.info, y);
  }

  /**
   In every run a read rejects a write only when that write precedes, in modification order, the
   write of an access that the reader knows or that a fence makes count. Conversely, on an acyclic
   graph on which the clock test is exact, an accepted write precedes no write of an access the
   reader knows.
   */
  lemma RunRejects(ss: seq<State>, ls: seq<Label>, i: nat, tid: nat, loc: nat, order: Order, rf: Act)
    requires IsRun(ss, ls) && i < |ss| && tid < ss[i].threads && IsWrite(ss[i].info, rf) && rf.loc == loc
    ensures !ReadAccepts(ss[i], Begin(ss[i], tid, loc, order), rf) ==>
              exists x :: CountsForRead(ss[i], tid, loc, order, x) && Writer(ss[i].info, x) != rf && Reach(ss[i].graph, rf, Writer(ss[i].info, x))
    ensures ReadAccepts(ss[i], Begin(ss[i], tid, loc, order), rf) && Acyclic(ss[i].graph) && EdgeMono(ss[i].graph) ==>
              forall x :: IsMem(ss[i].info, x) && x.loc == loc && KnownTo(ss[i], tid, x) ==>
                Writer(ss[i].info, x) == rf || !Reach(ss[i].graph, rf, Writer(ss[i].info, x))
  {
    var s, c := ss[i], Begin(ss[i], tid, loc, order);
    RunPrepared(ss, ls, i);
    EF.RunFenced(ss, ls, i);
    hide Step;
    hide KnownTo;
    if !ReadAccepts(s, c, rf) {
      var x := RejectedFor(s, c, rf);
    } else if Acyclic(s.graph) && EdgeMono(s.graph) {
      forall x | IsMem(s.info, x) && x.loc == loc && KnownTo(s, tid, x)
        ensures Writer(s.info, x) == rf || !Reach(s.graph, rf, Writer(s.info, x))
      {
        AcceptedFor(s, c, rf, x);
      }
    }
  }

  // ----- the least order -----

  /** A relation on writes. */
  type Rel = iset<(Act, Act)>

  ghost predicate Preorder(r: Rel) {
    (forall u: Act :: (u, u) in r) && (forall u, v, w :: (u, v) in r && (v, w) in r ==> (u, w) in r)
  }

  /** Atomicity: what follows the write that an RMW read, other than the RMW, follows the RMW. */
  ghost predicate Atomic(m: Infos, r: Rel) {
    forall u, q, w :: ReadsFrom(m, q, u) && (u, w) in r && w != u && w != q ==> (q, w) in r
  }

  ghost predicate ReadsFrom(m: Infos, q: Act, u: Act) {
    q in m && m[q].kind.Rmw? && m[q].rf == Some(u)
  }

  /** What a read step asks for: the writes of accesses that count do not follow what is read. */
  ghost predicate ReadRule(s: State, l: Label, r: Rel) {
    Reads(l) ==> forall x :: CountsForRead(s, l.tid, l.loc, l.order, x) ==> (Writer(s.info, x), l.rf) in r
  }

  /** What a write step asks for: the new write follows those of accesses that count, and the last seq_cst write if it is one. */
  ghost predicate WriteRule(s: State, l: Label, t: State, r: Rel) {
    l.Store? || l.Update? ==>
      && (forall x :: CountsForWrite(s, t.info, ActOf(s, l), x) ==> (Writer(s.info, x), ActOf(s, l)) in r)
      && (l.order.SeqCst? ==> forall y :: LastScWrite(s.info, l.loc, y) ==> (y, ActOf(s, l)) in r)
      && (l.Update? ==> (l.rf, ActOf(s, l)) in r)
  }

  ghost predicate StepRules(s: State, l: Label, t: State, r: Rel) {
    ReadRule(s, l, r) && WriteRule(s, l, t, r)
  }

  /** `r` obeys every rule that the first `i` steps of a run give rise to. */
  ghost predicate Obeys(ss: seq<State>, ls: seq<Label>, i: nat, r: Rel)
    requires |ss| == |ls| + 1 && i < |ss|
  {
    Preorder(r) && Atomic(ss[i].info, r) && forall j :: 0 <= j < i ==> StepRules(ss[j], ls[j], ss[j + 1], r)
  }

  ghost predicate EdgesIn(g: Graph, r: Rel) {
    forall u, v :: Edge(g, u, v) ==> (u, v) in r && u != v
  }

  /** The RMW links of `g` are reads-from. */
  ghost predicate LinksIn(m: Infos, g: Graph) {
    forall u, q {:trigger RmwOf(g, u, q)} :: RmwOf(g, u, q) ==> ReadsFrom(m, q, u)
  }

  lemma {:induction false} ChainIn(m: Infos, g: Graph, a: Act, p: seq<Act>, to: Act, f: Act, r: Rel)
    requires LinksIn(m, g) && Atomic(m, r) && Chain(g, a, p, to, f) && (a, to) in r && a != to
    ensures (f, to) in r && f != to
    decreases |p|
  {
    if p != [] {
      assert RmwOf(g, a, p[0]) && ReadsFrom(m, p[0], a);
      ChainIn(m, g, p[0], p[1..], to, f, r);
    }
  }

  lemma SameShapeIn(m: Infos, g: Graph, h: Graph, r: Rel)
    requires SameShape(g, h) && EdgesIn(g, r) && LinksIn(m, g)
    ensures EdgesIn(h, r) && LinksIn(m, h)
  {
    forall u, v | Edge(h, u, v) ensures (u, v) in r && u != v {
      assert Edge(g, u, v);
    }
    forall u, q | RmwOf(h, u, q) ensures ReadsFrom(m, q, u) {
      assert RmwOf(g, u, q);
    }
  }

  lemma WithEdgeIn(m: Infos, g: Graph, f: Act, to: Act, r: Rel)
    requires f in g && to in g && EdgesIn(g, r) && LinksIn(m, g) && (f, to) in r && f != to
    ensures EdgesIn(WithEdge(g, f, to), r) && LinksIn(m, WithEdge(g, f, to))
  {
    var h := WithEdge(g, f, to);
    forall u, v | Edge(h, u, v) ensures (u, v) in r && u != v {
      assert (u == f && v == to) || Edge(g, u, v);
    }
    forall u, q | RmwOf(h, u, q) ensures ReadsFrom(m, q, u) {
      assert RmwOf(g, u, q);
    }
  }

  lemma AddedEdgeIn(m: Infos, g: Graph, a: Act, to: Act, force: bool, h: Graph, r: Rel)
    requires to in g && AddedEdge(g, a, to, force, h)
    requires EdgesIn(g, r) && LinksIn(m, g) && Atomic(m, r) && (a, to) in r && a != to
    ensures EdgesIn(h, r) && LinksIn(m, h)
  {
    hide EdgesIn;
    hide LinksIn;
    hide Atomic;
    hide WithEdge;
    if force || !Test(g, a, to) {
      var f :| ChainEnd(g, a, to, f) && Propagated(WithEdge(g, f, to), f, to, h);
      var p :| Chain(g, a, p, to, f);
      ChainIn(m, g, a, p, to, f, r);
      WithEdgeIn(m, g, f, to, r);
      SameShapeIn(m, WithEdge(g, f, to), h, r);
    }
  }

  lemma AddedOneIn(m: Infos, g: Graph, a: Act, to: Act, same: bool, h: Graph, r: Rel)
    requires AddedOne(g, a, to, same, h)
    requires EdgesIn(g, r) && LinksIn(m, g) && Atomic(m, r) && (a, to) in r && a != to
    ensures EdgesIn(h, r) && LinksIn(m, h)
  {
    WithNodesIn(m, g, a, to, r);
    AddedEdgeIn(m, WithNode(WithNode(g, a), to), a, to, same && a.tid == to.tid, h, r);
  }

  lemma {:induction false} AddedAllIn(m: Infos, g: Graph, froms: seq<Act>, to: Act, same: bool, h: Graph, r: Rel)
    requires AddedAll(g, froms, to, same, h)
    requires EdgesIn(g, r) && LinksIn(m, g) && Atomic(m, r) && forall a :: a in froms ==> (a, to) in r && a != to
    ensures EdgesIn(h, r) && LinksIn(m, h)
    decreases |froms|
  {
    hide EdgesIn;
    hide LinksIn;
    hide Atomic;
    hide AddedOne;
    if froms != [] {
      var init, last := froms[..|froms| - 1], froms[|froms| - 1];
      var k :| AddedAll(g, init, to, same, k) && AddedOne(k, last, to, same, h);
      forall a | a in init ensures (a, to) in r && a != to {
        assert a in froms;
      }
      AddedAllIn(m, g, init, to, same, k, r);
      AddedOneIn(m, k, last, to, same, h, r);
    }
  }

  lemma AddedPrunedIn(m: Infos, g: Graph, es: seq<Act>, to: Act, h: Graph, r: Rel)
    requires AddedPruned(g, es, to, h)
    requires EdgesIn(g, r) && LinksIn(m, g) && Atomic(m, r) && forall a :: a in es ==> (a, to) in r && a != to
    ensures EdgesIn(h, r) && LinksIn(m, h)
  {
    var k := WithNodes(g, es);
    var ps :| PruneOf(k, es, ps) && AddedAll(k, ps, to, true, h);
    WithNodesEdges(g, es);
    AddedAllIn(m, k, ps, to, true, h, r);
  }

  lemma SplicedIn(m: Infos, g: Graph, a: Act, rmw: Act, h: Graph, r: Rel)
    requires Spliced(g, a, rmw, h) && a != rmw
    requires EdgesIn(g, r) && LinksIn(m, g) && Atomic(m, r) && ReadsFrom(m, rmw, a)
    ensures EdgesIn(h, r) && LinksIn(m, h)
  {
    forall u, v | Edge(h, u, v) ensures (u, v) in r && u != v {
      if u == rmw && v !in g[rmw].edges {
        assert Edge(g, a, v);
      } else {
        assert Edge(g, u, v);
      }
    }
    forall u, q | RmwOf(h, u, q) ensures ReadsFrom(m, q, u) {
      assert u != a ==> RmwOf(g, u, q);
    }
  }

  lemma AddedRmwIn(m: Infos, g1: Graph, a: Act, rmw: Act, k: Graph, r: Rel)
    requires AddedRmw(WithNode(WithNode(g1, a), rmw), a, rmw, k) && a != rmw
    requires EdgesIn(g1, r) && LinksIn(m, g1) && Atomic(m, r) && (a, rmw) in r && ReadsFrom(m, rmw, a)
    ensures EdgesIn(k, r) && LinksIn(m, k)
  {
    hide Atomic;
    hide WithEdge;
    var g := WithNode(WithNode(g1, a), rmw);
    WithNodesIn(m, g1, a, rmw, r);
    hide EdgesIn;
    hide LinksIn;
    var h :| Spliced(g, a, rmw, h) && Propagated(WithEdge(h, a, rmw), a, rmw, k);
    SplicedIn(m, g, a, rmw, h, r);
    WithEdgeIn(m, h, a, rmw, r);
    SameShapeIn(m, WithEdge(h, a, rmw), k, r);
  }

  lemma WithNodesIn(m: Infos, g: Graph, a: Act, b: Act, r: Rel)
    requires EdgesIn(g, r) && LinksIn(m, g)
    ensures EdgesIn(WithNode(WithNode(g, a), b), r) && LinksIn(m, WithNode(WithNode(g, a), b))
  {
    var k := WithNode(WithNode(g, a), b);
    forall u, q | RmwOf(k, u, q) ensures ReadsFrom(m, q, u) {
      assert RmwOf(g, u, q);
    }
    WithNodeEdges(g, a);
    WithNodeEdges(WithNode(g, a), b);
  }

  // ----- steps -----

  lemma LinksGrow(s: State, m: Infos)
    requires Inv(s) && GrowsTo(s.info, m)
    ensures LinksIn(m, s.graph)
  {
    forall u, q | RmwOf(s.graph, u, q) ensures ReadsFrom(m, q, u) {
      assert q in s.info && s.info[q].kind.Rmw? && s.info[q].rf == Some(u);
    }
  }

  /** The edges of a read go from writes that must come before what is read. */
  lemma ReadPartIn(s: State, l: Label, c: Cur, p: Purpose, rf: Act, history: int, g: Graph, m: Infos, r: Rel)
    requires Prepared(s) && EF.FencesInv(s) && c == Begin(s, c.act.tid, c.act.loc, c.order) && GrowsTo(s.info, m)
    requires Reads(l) && l.tid == c.act.tid && l.loc == c.act.loc && l.order == c.order && l.rf == rf
    requires ReadPart(s, c, p, rf, history, g) && ReadRule(s, l, r) && Atomic(m, r) && EdgesIn(s.graph, r)
    ensures EdgesIn(g, r) && LinksIn(m, g)
  {
    var ps := Priors(s, c, rf, s.threads);
    LinksGrow(s, m);
    CandidateWrites(s, c, p, history, s.threads, rf);
    hide Inv;
    hide CountsForRead;
    hide Atomic;
    forall q | q in ps ensures (q, rf) in r && q != rf {
      PriorsOnly(s, c, rf, s.threads, q);
      var t :| 0 <= t < s.threads && ReadTarget(s, c, rf, t) == Some(q) && q != rf;
      var x := TargetCounts(s, c, rf, t);
      assert (Writer(s.info, x), rf) in r;
    }
    AddedAllIn(m, s.graph, ps, rf, false, g, r);
  }

  /** The edges of a write go from writes that must come before it. */
  lemma WritePartIn(s: State, l: Label, t: State, c: Cur, rmw: bool, g: Graph, r: Rel)
    requires Prepared(s) && EF.FencesInv(s) && (l.Store? || l.Update?) && l.loc == c.act.loc && l.order == c.order
    requires c.act == ActOf(s, l) && c.act !in s.info && c.act in t.info && t.info[c.act].cv == c.cv
    requires AddedPruned(g, EdgeSet(s, c, rmw, s.threads), c.act, t.graph)
    requires WriteRule(s, l, t, r) && Atomic(t.info, r) && EdgesIn(g, r) && LinksIn(t.info, g)
    ensures EdgesIn(t.graph, r)
  {
    var es := EdgeSet(s, c, rmw, s.threads);
    hide EdgesIn;
    hide LinksIn;
    hide Atomic;
    hide AddedPruned;
    hide EdgeSet;
    forall p | p in es ensures (p, c.act) in r && p != c.act {
      EdgeSetWrites(s, c, rmw, s.threads, p);
      EdgeSetCounts(s, t.info, c, rmw, s.threads, p);
      if !(c.order.SeqCst? && LastScWrite(s.info, c.act.loc, p)) {
        var x :| CountsForWrite(s, t.info, c.act, x) && Writer(s.info, x) == p;
      }
    }
    AddedPrunedIn(t.info, g, es, c.act, t.graph, r);
  }

  lemma FreshAct(s: State, l: Label)
    requires Inv(s)
    ensures ActOf(s, l) !in s.info
  {
    assert WfAct(s.info, s.used, ActOf(s, l));
  }

  lemma LoadIn(s: State, l: Label, t: State, r: Rel)
    requires Prepared(s) && EF.FencesInv(s) && Step(s, l, t) && (l.Load? || l.FailedSwap?) && GrowsTo(s.info, t.info)
    requires StepRules(s, l, t, r) && Atomic(t.info, r) && EdgesIn(s.graph, r)
    ensures EdgesIn(t.graph, r)
  {
    var p := if l.Load? then PlainRead else l.purpose;
    hide Prepared;
    hide Atomic;
    hide EdgesIn;
    hide ReadRule;
    ReadPartIn(s, l, Begin(s, l.tid, l.loc, l.order), p, l.rf, l.history, t.graph, t.info, r);
  }

  lemma StoreIn(s: State, l: Label, t: State, r: Rel)
    requires Prepared(s) && EF.FencesInv(s) && Step(s, l, t) && l.Store? && GrowsTo(s.info, t.info)
    requires StepRules(s, l, t, r) && Atomic(t.info, r) && EdgesIn(s.graph, r)
    ensures EdgesIn(t.graph, r)
  {
    LinksGrow(s, t.info);
    FreshAct(s, l);
    hide Prepared;
    hide Atomic;
    hide EdgesIn;
    hide LinksIn;
    hide WriteRule;
    WritePartIn(s, l, t, Begin(s, l.tid, l.loc, l.order), false, s.graph, r);
  }

  lemma UpdateIn(s: State, l: Label, t: State, r: Rel)
    requires Prepared(s) && EF.FencesInv(s) && Step(s, l, t) && l.Update? && GrowsTo(s.info, t.info)
    requires StepRules(s, l, t, r) && Atomic(t.info, r) && EdgesIn(s.graph, r)
    ensures EdgesIn(t.graph, r)
  {
    FreshAct(s, l);
    hide Prepared;
    hide Atomic;
    hide EdgesIn;
    hide LinksIn;
    hide ReadRule;
    var c := Begin(s, l.tid, l.loc, l.order);
    var i: Info, g1, g2 :| i.value == l.value && RmwStepVia(s, c, l.purpose, l.rf, l.history, i, g1, g2, t);
    assert t.info[c.act] == i && ReadsFrom(t.info, c.act, l.rf);
    hide ReadsFrom;
    UpdateReads(s, l, c, r, t);
    ReadPartIn(s, l, c, l.purpose, l.rf, l.history, g1, t.info, r);
    AddedRmwIn(t.info, g1, l.rf, c.act, g2, r);
    hide WriteRule;
    WritePartIn(s, l, t, c.(cv := i.cv), true, g2, r);
  }

  lemma UpdateReads(s: State, l: Label, c: Cur, r: Rel, t: State)
    requires Prepared(s) && Step(s, l, t) && l.Update? && c == Begin(s, l.tid, l.loc, l.order)
    ensures l.rf != c.act
  {
    CandidateWrites(s, c, l.purpose, l.history, s.threads, l.rf);
    FreshAct(s, l);
  }

  lemma StepIn(s: State, l: Label, t: State, r: Rel)
    requires Prepared(s) && EF.FencesInv(s) && Step(s, l, t) && GrowsTo(s.info, t.info)
    requires StepRules(s, l, t, r) && Atomic(t.info, r) && EdgesIn(s.graph, r)
    ensures EdgesIn(t.graph, r)
  {
    if l.Load? || l.FailedSwap? {
      LoadIn(s, l, t, r);
    } else if l.Store? {
      StoreIn(s, l, t, r);
    } else if l.Update? {
      UpdateIn(s, l, t, r);
    } else {
      hide Prepared;
      hide EdgesIn;
      assert t.graph == s.graph;
    }
  }

  lemma AtomicLess(m: Infos, n: Infos, r: Rel)
    requires GrowsTo(m, n) && Atomic(n, r)
    ensures Atomic(m, r)
  {
    forall u, q, w | ReadsFrom(m, q, u) && (u, w) in r && w != u && w != q ensures (q, w) in r {
      assert ReadsFrom(n, q, u);
    }
  }

  lemma {:induction false} RunEdgesIn(ss: seq<State>, ls: seq<Label>, i: nat, r: Rel)
    requires IsRun(ss, ls) && i < |ss| && Obeys(ss, ls, i, r)
    ensures EdgesIn(ss[i].graph, r)
  {
    hide Step;
    hide EdgesIn;
    hide Atomic;
    hide StepRules;
    hide Inv;
    if i == 0 {
      NoEdges(r);
    } else {
      RunGrows(ss, ls, i - 1, i);
      AtomicLess(ss[i - 1].info, ss[i].info, r);
      RunEdgesIn(ss, ls, i - 1, r);
      RunPrepared(ss, ls, i - 1);
      EF.RunFenced(ss, ls, i - 1);
      assert StepRules(ss[i - 1], ls[i - 1], ss[i], r);
      assert Step(ss[i - 1], ls[i - 1], ss[i]);
      StepIn(ss[i - 1], ls[i - 1], ss[i], r);
    }
  }

  lemma NoEdges(r: Rel)
    ensures EdgesIn(Init().graph, r)
  {
  }

  lemma {:induction false} WalkIn(g: Graph, r: Rel, a: Act, p: seq<Act>, b: Act)
    requires Preorder(r) && EdgesIn(g, r) && Walk(g, a, p, b)
    ensures (a, b) in r
    decreases |p|
  {
    if p != [] {
      WalkIn(g, r, p[0], p[1..], b);
      assert (a, p[0]) in r;
    }
  }

  /**
   The engine's modification order is contained in every order that obeys the rules: the writes of
   accesses known to a reader, or made to count by seq_cst fences, do not follow what it reads;
   those known to a writer precede its write; seq_cst writes are in execution order; and an RMW
   comes right after the write it read. So no two writes are ordered without need.
   */
  lemma RunOrderLeast(ss: seq<State>, ls: seq<Label>, i: nat, r: Rel, u: Act, v: Act)
    requires IsRun(ss, ls) && i < |ss| && Obeys(ss, ls, i, r) && Reach(ss[i].graph, u, v)
    ensures (u, v) in r
  {
    RunEdgesIn(ss, ls, i, r);
    var p :| Walk(ss[i].graph, u, p, v);
    WalkIn(ss[i].graph, r, u, p, v);
  }

  /** In every run what follows the write that an RMW read, other than the RMW, follows the RMW. */
  lemma RunAtomic(ss: seq<State>, ls: seq<Label>, i: nat, u: Act, q: Act, w: Act)
    requires IsRun(ss, ls) && i < |ss| && ReadsFrom(ss[i].info, q, u) && Reach(ss[i].graph, u, w) && w != u
    ensures Reach(ss[i].graph, q, w)
  {
    RunInv(ss, ls, i);
    var s := ss[i];
    assert RmwRecorded(s.info, s.graph, q) && RmwOf(s.graph, u, q);
    var p :| Walk(s.graph, u, p, w);
    assert Edge(s.graph, u, p[0]) && p[0] == q && Walk(s.graph, q, p[1..], w);
  }
}
