/**
 The modification-order graph as a value, reachability in it, and the theory of the
 one-entry clock test that replaces searching.

 A node is keyed by the action it stands for. Everything here is about values: the class
 that mutates the graph is in `cyclegraph.dfy` and is proved against these definitions.
 */
module MoGraph {
  import opened Sequences
  import opened Options
  import opened Clocks

  /** The part of an action that never changes: thread, sequence number, location. */
  datatype Act = Act(tid: nat, seqno: nat, loc: nat)

  datatype Node = Node(edges: seq<Act>, inedges: seq<Act>, rmw: Option<Act>, cv: Clock)

  type Graph = map<Act, Node>

  // ----- reachability -----

  ghost predicate Edge(g: Graph, u: Act, v: Act) {
    u in g && v in g[u].edges
  }

  ghost predicate Walk(g: Graph, a: Act, p: seq<Act>, b: Act)
    decreases |p|
  {
    if p == [] then a == b else Edge(g, a, p[0]) && Walk(g, p[0], p[1..], b)
  }

  /** Reflexive reachability along edges. */
  ghost predicate Reach(g: Graph, a: Act, b: Act) {
    exists p :: Walk(g, a, p, b)
  }

  lemma ReachRefl(g: Graph, a: Act)
    ensures Reach(g, a, a)
  {
    assert Walk(g, a, [], a);
  }

  lemma ReachEdge(g: Graph, a: Act, b: Act)
    requires Edge(g, a, b)
    ensures Reach(g, a, b)
  {
    assert [b][1..] == [];
    assert Walk(g, a, [b], b);
  }

  lemma {:induction false} WalkConcat(g: Graph, a: Act, p: seq<Act>, b: Act, q: seq<Act>, c: Act)
    requires Walk(g, a, p, b) && Walk(g, b, q, c)
    ensures Walk(g, a, p + q, c)
    decreases |p|
  {
    if p == [] {
      assert p + q == q;
    } else {
      WalkConcat(g, p[0], p[1..], b, q, c);
      assert (p + q)[1..] == p[1..] + q;
    }
  }

  lemma ReachTrans(g: Graph, a: Act, b: Act, c: Act)
    requires Reach(g, a, b) && Reach(g, b, c)
    ensures Reach(g, a, c)
  {
    var p :| Walk(g, a, p, b);
    var q :| Walk(g, b, q, c);
    WalkConcat(g, a, p, b, q, c);
  }

  /** Every edge of `g` is at least a path of `h`. */
  ghost predicate Embeds(g: Graph, h: Graph) {
    forall u, v {:trigger Reach(h, u, v)} :: Edge(g, u, v) ==> Reach(h, u, v)
  }

  lemma {:induction false} WalkEmbeds(g: Graph, h: Graph, a: Act, p: seq<Act>, b: Act)
    requires Embeds(g, h) && Walk(g, a, p, b)
    ensures Reach(h, a, b)
    decreases |p|
  {
    if p == [] {
      ReachRefl(h, a);
    } else {
      WalkEmbeds(g, h, p[0], p[1..], b);
      assert Reach(h, a, p[0]);
      ReachTrans(h, a, p[0], b);
    }
  }

  lemma ReachEmbeds(g: Graph, h: Graph, a: Act, b: Act)
    requires Embeds(g, h) && Reach(g, a, b)
    ensures Reach(h, a, b)
  {
    var p :| Walk(g, a, p, b);
    WalkEmbeds(g, h, a, p, b);
  }

  lemma EmbedsTrans(g: Graph, h: Graph, k: Graph)
    requires Embeds(g, h) && Embeds(h, k)
    ensures Embeds(g, k)
  {
    forall u, v | Edge(g, u, v) ensures Reach(k, u, v) {
      ReachEmbeds(h, k, u, v);
    }
  }

  lemma EmbedsSuper(g: Graph, h: Graph)
    requires forall u, v :: Edge(g, u, v) ==> Edge(h, u, v)
    ensures Embeds(g, h)
  {
    forall u, v | Edge(g, u, v) ensures Reach(h, u, v) {
      ReachEdge(h, u, v);
    }
  }

  // ----- invariants -----

  ghost predicate Closed(g: Graph) {
    forall u, v :: Edge(g, u, v) ==> v in g && v.loc == u.loc
  }

  ghost predicate SelfStamped(g: Graph) {
    forall n :: n in g ==> 1 <= n.seqno <= Get(g[n].cv, n.tid)
  }

  /** Some node of thread `t` carries exactly the number in entry `t` of `n`'s clock and reaches `n`. */
  ghost predicate Witness(g: Graph, n: Act, t: nat, u: Act) {
    u in g && n in g && u.tid == t && u.seqno == Get(g[n].cv, t) && Reach(g, u, n)
  }

  ghost predicate EntryJustified(g: Graph, n: Act, t: nat) {
    exists u :: Witness(g, n, t, u)
  }

  /** No clock entry is invented: each comes from a node that reaches the owner of the clock. */
  ghost predicate Justified(g: Graph) {
    forall n, t: nat {:trigger EntryJustified(g, n, t)} :: n in g && Get(g[n].cv, t) > 0 ==> EntryJustified(g, n, t)
  }

  /** The source clock is at most the target clock on every edge. */
  ghost predicate EdgeMono(g: Graph) {
    forall u, v :: Edge(g, u, v) ==> v in g && Leq(g[u].cv, g[v].cv)
  }

  /** Same-thread same-location writes of `s` are ordered by paths. */
  ghost predicate ThreadOrdered(g: Graph, s: set<Act>) {
    forall a, b {:trigger Reach(g, a, b)} ::
      a in s && b in s && a.tid == b.tid && a.loc == b.loc && a.seqno < b.seqno ==> Reach(g, a, b)
  }

  ghost predicate SameSeq(a: Act, b: Act) {
    a.seqno == b.seqno
  }

  ghost predicate UniqueSeq(s: set<Act>) {
    forall a, b {:trigger SameSeq(a, b)} :: a in s && b in s && SameSeq(a, b) ==> a == b
  }

  /** Out-edge and in-edge lists are mutual inverses without repetition. */
  ghost predicate InOut(g: Graph) {
    && (forall u, v {:trigger v in g[u].edges} {:trigger u in g[v].inedges} ::
          u in g && v in g ==> (v in g[u].edges <==> u in g[v].inedges))
    && (forall u :: u in g ==> Distinct(g[u].edges) && Distinct(g[u].inedges))
    && (forall u, v :: u in g && v in g[u].inedges ==> v in g)
  }

  ghost predicate RmwOf(g: Graph, n: Act, m: Act) {
    n in g && g[n].rmw == Some(m)
  }

  /** A write read by an RMW has that RMW, which is younger, as its only successor. */
  ghost predicate RmwLinks(g: Graph) {
    forall n, m {:trigger RmwOf(g, n, m)} :: RmwOf(g, n, m) ==> m in g && g[n].edges == [m] && n.seqno < m.seqno
  }

  /** What every operation on the graph keeps. */
  ghost predicate GraphInv(g: Graph) {
    Closed(g) && SelfStamped(g) && Justified(g) && InOut(g) && RmwLinks(g)
  }

  ghost predicate Acyclic(g: Graph) {
    forall u, v :: Edge(g, u, v) ==> !Reach(g, v, u)
  }

  // ----- the clock test -----

  /** `checkReachable` on actions: false when either node was never created. */
  predicate Test(g: Graph, a: Act, b: Act) {
    a in g && b in g && Since(g[b].cv, a.tid, a.seqno)
  }

  lemma {:induction false} WalkKeepsLoc(g: Graph, a: Act, p: seq<Act>, b: Act)
    requires Closed(g) && Walk(g, a, p, b)
    ensures a.loc == b.loc
    ensures a in g ==> b in g
    decreases |p|
  {
    if p != [] {
      WalkKeepsLoc(g, p[0], p[1..], b);
    }
  }

  lemma ReachKeepsLoc(g: Graph, a: Act, b: Act)
    requires Closed(g) && Reach(g, a, b)
    ensures a.loc == b.loc
    ensures a in g ==> b in g
  {
    var p :| Walk(g, a, p, b);
    WalkKeepsLoc(g, a, p, b);
  }

  lemma {:induction false} WalkMono(g: Graph, a: Act, p: seq<Act>, b: Act)
    requires EdgeMono(g) && a in g && Walk(g, a, p, b)
    ensures b in g && Leq(g[a].cv, g[b].cv)
    decreases |p|
  {
    if p != [] {
      WalkMono(g, p[0], p[1..], b);
      LeqTrans(g[a].cv, g[p[0]].cv, g[b].cv);
    }
  }

  /** A positive clock test always has a path behind it; `b` may be a write still being attached. */
  lemma TestSound(g: Graph, s: set<Act>, a: Act, b: Act)
    requires Closed(g) && Justified(g)
    requires ThreadOrdered(g, s) && UniqueSeq(s) && g.Keys <= s + {b}
    requires a in s && 1 <= a.seqno && a.loc == b.loc && (b in s || a.tid != b.tid)
    requires Test(g, a, b)
    ensures Reach(g, a, b)
  {
    assert Get(g[b].cv, a.tid) >= a.seqno;
    assert EntryJustified(g, b, a.tid);
    var u :| Witness(g, b, a.tid, u);
    ReachKeepsLoc(g, u, b);
    if u == a {
    } else {
      assert u in s && !SameSeq(a, u);
      assert a.seqno < u.seqno;
      assert Reach(g, a, u);
      ReachTrans(g, a, u, b);
    }
  }

  /** Conversely every path is seen by the test, as long as clocks grow along edges. */
  lemma TestComplete(g: Graph, a: Act, b: Act)
    requires EdgeMono(g) && SelfStamped(g) && a in g
    requires Reach(g, a, b)
    ensures Test(g, a, b)
  {
    var p :| Walk(g, a, p, b);
    WalkMono(g, a, p, b);
    assert Get(g[a].cv, a.tid) <= Get(g[b].cv, a.tid);
  }

  /** `checkReachable` decides reachability between same-location nodes. */
  lemma TestExact(g: Graph, a: Act, b: Act)
    requires GraphInv(g) && EdgeMono(g)
    requires ThreadOrdered(g, g.Keys) && UniqueSeq(g.Keys)
    requires a in g && b in g && a.loc == b.loc
    ensures Test(g, a, b) <==> Reach(g, a, b)
  {
    if Test(g, a, b) {
      TestSound(g, g.Keys, a, b);
    }
    if Reach(g, a, b) {
      TestComplete(g, a, b);
    }
  }

  // ----- one clock push -----

  ghost predicate SameShape(g: Graph, h: Graph) {
    g.Keys == h.Keys &&
    forall n :: n in g ==> g[n].edges == h[n].edges && g[n].inedges == h[n].inedges && g[n].rmw == h[n].rmw
  }

  /** Each clock entry of `h` was, in `g`, an entry of some node reaching its owner. */
  ghost predicate EntryFrom(g: Graph, h: Graph, n: Act, t: nat) {
    exists u :: u in g && Reach(g, u, n) && n in h && Get(h[n].cv, t) == Get(g[u].cv, t)
  }

  /**
   `h` is `g` after the clock of `f` has been pushed through the edge to `to`: clocks only
   grow, nothing is invented, no edge whose source changed is left behind, and nothing
   happens when the target already knew the source's clock.
   */
  ghost predicate Propagated(g: Graph, f: Act, to: Act, h: Graph) {
    && SameShape(g, h)
    && (forall n :: n in g ==> Leq(g[n].cv, h[n].cv))
    && (forall n, t: nat {:trigger EntryFrom(g, h, n, t)} :: n in g ==> EntryFrom(g, h, n, t))
    && (forall u, v :: Edge(g, u, v) && v in g && ((u == f && v == to) || !Leq(h[u].cv, g[u].cv)) ==> Leq(h[u].cv, h[v].cv))
    && (f in g && to in g && Leq(g[f].cv, g[to].cv) ==> forall n :: n in g ==> Leq(h[n].cv, g[n].cv))
  }

  lemma SameShapeReach(g: Graph, h: Graph)
    requires SameShape(g, h)
    ensures Embeds(g, h) && Embeds(h, g)
  {
    EmbedsSuper(g, h);
    EmbedsSuper(h, g);
  }

  lemma PropagatedJustified(g: Graph, f: Act, to: Act, h: Graph)
    requires Justified(g) && Propagated(g, f, to, h)
    ensures Justified(h)
  {
    SameShapeReach(g, h);
    forall n, t: nat | n in h && Get(h[n].cv, t) > 0
      ensures EntryJustified(h, n, t)
    {
      assert EntryFrom(g, h, n, t);
      var u :| u in g && Reach(g, u, n) && n in h && Get(h[n].cv, t) == Get(g[u].cv, t);
      assert EntryJustified(g, u, t);
      var w :| Witness(g, u, t, w);
      ReachTrans(g, w, u, n);
      ReachEmbeds(g, h, w, n);
      assert Witness(h, n, t, w);
    }
  }

  /** A push keeps the invariant and reaches exactly what was reachable before. */
  lemma PropagatedInv(g: Graph, f: Act, to: Act, h: Graph)
    requires GraphInv(g) && Propagated(g, f, to, h)
    ensures GraphInv(h)
  {
    PropagatedJustified(g, f, to, h);
    forall n | n in h ensures 1 <= n.seqno <= Get(h[n].cv, n.tid) {
      assert Get(g[n].cv, n.tid) <= Get(h[n].cv, n.tid);
    }
    assert Closed(h) by {
      forall u, v | Edge(h, u, v) ensures v in h && v.loc == u.loc {
        assert Edge(g, u, v);
      }
    }
    assert RmwLinks(h) by {
      forall k, m | RmwOf(h, k, m) ensures m in h && h[k].edges == [m] && k.seqno < m.seqno {
        assert RmwOf(g, k, m);
      }
    }
  }

  /** If only the pushed edge was out of order, the push puts every edge in order. */
  lemma PropagatedMono(g: Graph, f: Act, to: Act, h: Graph)
    requires Closed(g) && Propagated(g, f, to, h)
    requires forall u, v :: Edge(g, u, v) ==> (u == f && v == to) || Leq(g[u].cv, g[v].cv)
    ensures EdgeMono(h)
  {
    forall u, v | Edge(h, u, v) ensures v in h && Leq(h[u].cv, h[v].cv) {
      assert Edge(g, u, v);
      if (u == f && v == to) || !Leq(h[u].cv, g[u].cv) {
      } else {
        LeqTrans(h[u].cv, g[u].cv, g[v].cv);
        LeqTrans(h[u].cv, g[v].cv, h[v].cv);
      }
    }
  }

  // ----- operations -----

  function FreshNode(n: Act): Node {
    Node([], [], None, Stamp([], n.tid, n.seqno))
  }

  /** `getNode`: the graph with a node for `n`. */
  function WithNode(g: Graph, n: Act): Graph {
    if n in g then g else g[n := FreshNode(n)]
  }

  /** `CycleNode::addEdge`: appends to both lists unless the edge is there already. */
  function WithEdge(g: Graph, f: Act, to: Act): Graph
    requires f in g && to in g
  {
    if to in g[f].edges then g else
    var h := g[f := g[f].(edges := g[f].edges + [to])];
    h[to := h[to].(inedges := h[to].inedges + [f])]
  }

  ghost predicate Chain(g: Graph, a: Act, p: seq<Act>, to: Act, f: Act)
    decreases |p|
  {
    if p == [] then a == f
    else RmwOf(g, a, p[0]) && p[0] != to && Chain(g, p[0], p[1..], to, f)
  }

  /** `f` is where an edge from `a` to `to` is attached: the end of the RMW chain of `a`. */
  ghost predicate ChainEnd(g: Graph, a: Act, to: Act, f: Act) {
    f in g && (g[f].rmw.None? || g[f].rmw == Some(to)) && exists p :: Chain(g, a, p, to, f)
  }

  /** What `addNodeEdge` does to the graph. */
  ghost predicate AddedEdge(g: Graph, a: Act, to: Act, force: bool, h: Graph)
    requires to in g
  {
    if Test(g, a, to) && !force then h == g
    else exists f :: ChainEnd(g, a, to, f) && Propagated(WithEdge(g, f, to), f, to, h)
  }

  /** The outgoing edges of `a` have moved to `rmw`, and `rmw` is recorded as reading from `a`. */
  ghost predicate Spliced(g: Graph, a: Act, rmw: Act, h: Graph) {
    && a in g && rmw in g && g.Keys == h.Keys && InOut(h)
    && (forall n :: n in g ==> h[n].cv == g[n].cv && h[n].rmw == if n == a then Some(rmw) else g[n].rmw)
    && (forall n :: n in g && n != a && n != rmw ==> h[n].edges == g[n].edges)
    && h[a].edges == []
    && (forall v :: v in h[rmw].edges <==> v in g[rmw].edges || (v in g[a].edges && v != rmw))
  }

  /** What `addRMWEdge` does to the graph once both nodes exist. */
  ghost predicate AddedRmw(g: Graph, a: Act, rmw: Act, k: Graph) {
    exists h :: Spliced(g, a, rmw, h) && Propagated(WithEdge(h, a, rmw), a, rmw, k)
  }

  // ----- what the operations keep -----

  lemma WithNodeEdges(g: Graph, n: Act)
    ensures forall u, v :: Edge(WithNode(g, n), u, v) <==> Edge(g, u, v)
    ensures Embeds(g, WithNode(g, n)) && Embeds(WithNode(g, n), g)
  {
    EmbedsSuper(g, WithNode(g, n));
    EmbedsSuper(WithNode(g, n), g);
  }

  lemma WithNodeJustified(g: Graph, n: Act)
    requires Justified(g)
    ensures Justified(WithNode(g, n))
  {
    var h := WithNode(g, n);
    WithNodeEdges(g, n);
    forall m, t: nat | m in h && Get(h[m].cv, t) > 0 ensures EntryJustified(h, m, t) {
      if m in g {
        assert EntryJustified(g, m, t);
        var u :| Witness(g, m, t, u);
        ReachEmbeds(g, h, u, m);
        assert Witness(h, m, t, u);
      } else {
        ReachRefl(h, n);
        assert Witness(h, m, t, n);
      }
    }
  }

  lemma WithNodeInOut(g: Graph, n: Act)
    requires InOut(g) && Closed(g)
    ensures InOut(WithNode(g, n))
  {
    var h := WithNode(g, n);
    forall u, v | u in h && v in h ensures v in h[u].edges <==> u in h[v].inedges {
      assert u in g && v in g[u].edges ==> Edge(g, u, v);
    }
  }

  /** `getNode` changes no path and no answer between existing nodes. */
  lemma WithNodeInv(g: Graph, n: Act)
    requires GraphInv(g) && n.seqno >= 1
    ensures GraphInv(WithNode(g, n))
    ensures EdgeMono(g) ==> EdgeMono(WithNode(g, n))
  {
    var h := WithNode(g, n);
    WithNodeEdges(g, n);
    WithNodeJustified(g, n);
    WithNodeInOut(g, n);
    assert RmwLinks(h) by {
      forall k, m | RmwOf(h, k, m) ensures m in h && h[k].edges == [m] && k.seqno < m.seqno {
        assert RmwOf(g, k, m);
      }
    }
  }

  lemma WithEdgeEdges(g: Graph, f: Act, to: Act)
    requires f in g && to in g
    ensures forall u, v :: Edge(WithEdge(g, f, to), u, v) <==> Edge(g, u, v) || (u == f && v == to)
    ensures Embeds(g, WithEdge(g, f, to))
    ensures Reach(WithEdge(g, f, to), f, to)
  {
    EmbedsSuper(g, WithEdge(g, f, to));
    ReachEdge(WithEdge(g, f, to), f, to);
  }

  lemma WithEdgeInOut(g: Graph, f: Act, to: Act)
    requires f in g && to in g && InOut(g)
    ensures InOut(WithEdge(g, f, to))
  {}

  lemma SameClocksJustified(g: Graph, h: Graph)
    requires Justified(g) && Embeds(g, h) && g.Keys == h.Keys
    requires forall n :: n in g ==> h[n].cv == g[n].cv
    ensures Justified(h)
  {
    forall m, t: nat | m in h && Get(h[m].cv, t) > 0 ensures EntryJustified(h, m, t) {
      assert EntryJustified(g, m, t);
      var u :| Witness(g, m, t, u);
      ReachEmbeds(g, h, u, m);
      assert Witness(h, m, t, u);
    }
  }

  lemma WithEdgeInv(g: Graph, f: Act, to: Act)
    requires GraphInv(g) && f in g && to in g && f.loc == to.loc
    requires g[f].rmw.None? || g[f].rmw == Some(to)
    ensures GraphInv(WithEdge(g, f, to))
  {
    var h := WithEdge(g, f, to);
    WithEdgeEdges(g, f, to);
    WithEdgeInOut(g, f, to);
    SameClocksJustified(g, h);
    assert RmwLinks(h) by {
      forall k, m | RmwOf(h, k, m) ensures m in h && h[k].edges == [m] && k.seqno < m.seqno {
        assert RmwOf(g, k, m);
      }
    }
  }

  lemma {:induction false} ChainReach(g: Graph, a: Act, p: seq<Act>, to: Act, f: Act)
    requires RmwLinks(g) && Chain(g, a, p, to, f)
    ensures Reach(g, a, f)
    decreases |p|
  {
    if p == [] {
      ReachRefl(g, a);
    } else {
      ChainReach(g, p[0], p[1..], to, f);
      ReachEdge(g, a, p[0]);
      ReachTrans(g, a, p[0], f);
    }
  }

  lemma PushedEdgeReach(g: Graph, f: Act, to: Act, h: Graph)
    requires f in g && to in g && SameShape(WithEdge(g, f, to), h)
    ensures Embeds(g, h) && h.Keys == g.Keys
    ensures forall n :: n in g ==> h[n].rmw == g[n].rmw
    ensures Reach(h, f, to)
  {
    var e := WithEdge(g, f, to);
    WithEdgeEdges(g, f, to);
    SameShapeReach(e, h);
    EmbedsTrans(g, e, h);
    ReachEmbeds(e, h, f, to);
  }

  /** What follows from attaching and pushing one edge at `f`. */
  lemma PushedEdgeInv(g: Graph, f: Act, to: Act, h: Graph)
    requires GraphInv(g) && f in g && to in g && f.loc == to.loc
    requires g[f].rmw.None? || g[f].rmw == Some(to)
    requires Propagated(WithEdge(g, f, to), f, to, h)
    ensures GraphInv(h) && Embeds(g, h) && h.Keys == g.Keys
    ensures forall n :: n in g ==> h[n].rmw == g[n].rmw
    ensures Reach(h, f, to)
  {
    WithEdgeInv(g, f, to);
    PushedEdgeReach(g, f, to, h);
    PropagatedInv(WithEdge(g, f, to), f, to, h);
  }

  lemma PushedEdgeMono(g: Graph, f: Act, to: Act, h: Graph)
    requires Closed(g) && EdgeMono(g) && f in g && to in g && f.loc == to.loc
    requires Propagated(WithEdge(g, f, to), f, to, h)
    ensures EdgeMono(h)
  {
    WithEdgeEdges(g, f, to);
    PropagatedMono(WithEdge(g, f, to), f, to, h);
  }

  lemma ChainEndReach(g: Graph, a: Act, to: Act, f: Act)
    requires GraphInv(g) && ChainEnd(g, a, to, f)
    ensures Reach(g, a, f) && f in g && f.loc == a.loc
  {
    var p :| Chain(g, a, p, to, f);
    ChainReach(g, a, p, to, f);
    ReachKeepsLoc(g, a, f);
  }

  /** Adding an edge keeps the invariant and every path; when it is not skipped, `a` reaches `to`. */
  lemma AddedEdgeInv(g: Graph, a: Act, to: Act, force: bool, h: Graph)
    requires GraphInv(g) && a in g && to in g && a.loc == to.loc
    requires AddedEdge(g, a, to, force, h)
    ensures GraphInv(h) && Embeds(g, h) && h.Keys == g.Keys
    ensures forall n :: n in g ==> h[n].rmw == g[n].rmw
    ensures (Test(g, a, to) && !force) || Reach(h, a, to)
  {
    if Test(g, a, to) && !force {
      EmbedsSuper(g, h);
    } else {
      var f :| ChainEnd(g, a, to, f) && Propagated(WithEdge(g, f, to), f, to, h);
      ChainEndReach(g, a, to, f);
      PushedEdgeInv(g, f, to, h);
      ReachEmbeds(g, h, a, f);
      ReachTrans(h, a, f, to);
    }
  }

  lemma AddedEdgeMono(g: Graph, a: Act, to: Act, force: bool, h: Graph)
    requires GraphInv(g) && EdgeMono(g) && a in g && to in g && a.loc == to.loc
    requires AddedEdge(g, a, to, force, h)
    ensures EdgeMono(h)
  {
    if !(Test(g, a, to) && !force) {
      var f :| ChainEnd(g, a, to, f) && Propagated(WithEdge(g, f, to), f, to, h);
      ChainEndReach(g, a, to, f);
      PushedEdgeMono(g, f, to, h);
    }
  }

  /** With a sound test, `a` reaches `to` in every case. */
  lemma AddedEdgeOrders(g: Graph, s: set<Act>, a: Act, to: Act, force: bool, h: Graph)
    requires GraphInv(g) && ThreadOrdered(g, s) && UniqueSeq(s) && g.Keys <= s + {to}
    requires a in s && a in g && to in g && a.loc == to.loc
    requires force || to in s || a.tid != to.tid
    requires AddedEdge(g, a, to, force, h)
    ensures Reach(h, a, to)
  {
    AddedEdgeInv(g, a, to, force, h);
    if Test(g, a, to) && !force {
      TestSound(g, s, a, to);
    }
  }

  // ----- exactly which paths a new edge creates -----

  lemma {:induction false} WithEdgeWalk(g: Graph, f: Act, to: Act, a: Act, p: seq<Act>, b: Act)
    requires f in g && to in g && Walk(WithEdge(g, f, to), a, p, b)
    ensures Reach(g, a, b) || (Reach(g, a, f) && Reach(g, to, b))
    decreases |p|
  {
    WithEdgeEdges(g, f, to);
    if p == [] {
      ReachRefl(g, a);
    } else {
      WithEdgeWalk(g, f, to, p[0], p[1..], b);
      if Edge(g, a, p[0]) {
        ReachEdge(g, a, p[0]);
        if Reach(g, p[0], b) {
          ReachTrans(g, a, p[0], b);
        } else {
          ReachTrans(g, a, p[0], f);
        }
      } else {
        ReachRefl(g, a);
      }
    }
  }

  lemma WithEdgeReach(g: Graph, f: Act, to: Act, a: Act, b: Act)
    requires f in g && to in g
    ensures Reach(WithEdge(g, f, to), a, b) <==> Reach(g, a, b) || (Reach(g, a, f) && Reach(g, to, b))
  {
    var h := WithEdge(g, f, to);
    WithEdgeEdges(g, f, to);
    if Reach(h, a, b) {
      var p :| Walk(h, a, p, b);
      WithEdgeWalk(g, f, to, a, p, b);
    }
    if Reach(g, a, b) {
      ReachEmbeds(g, h, a, b);
    }
    if Reach(g, a, f) && Reach(g, to, b) {
      ReachEmbeds(g, h, a, f);
      ReachEmbeds(g, h, to, b);
      ReachTrans(h, a, f, to);
      ReachTrans(h, a, to, b);
    }
  }

  /** An edge keeps the graph acyclic exactly when its target does not reach its source. */
  lemma WithEdgeAcyclic(g: Graph, f: Act, to: Act)
    requires f in g && to in g && Acyclic(g)
    ensures Acyclic(WithEdge(g, f, to)) <==> !Reach(g, to, f)
  {
    var h := WithEdge(g, f, to);
    WithEdgeEdges(g, f, to);
    if Reach(g, to, f) {
      ReachEmbeds(g, h, to, f);
      assert Edge(h, f, to);
    } else {
      forall u, v | Edge(h, u, v) ensures !Reach(h, v, u) {
        WithEdgeReach(g, f, to, v, u);
        if Edge(g, u, v) {
          if Reach(g, v, f) && Reach(g, to, u) {
            ReachEdge(g, u, v);
            ReachTrans(g, to, u, v);
            ReachTrans(g, to, v, f);
          }
        }
      }
    }
  }

  lemma SameShapeAcyclic(g: Graph, h: Graph)
    requires SameShape(g, h)
    ensures Acyclic(g) <==> Acyclic(h)
  {
    SameShapeReach(g, h);
    if Acyclic(g) {
      forall u, v | Edge(h, u, v) ensures !Reach(h, v, u) {
        assert Edge(g, u, v);
        if Reach(h, v, u) { ReachEmbeds(h, g, v, u); }
      }
    }
    if Acyclic(h) {
      forall u, v | Edge(g, u, v) ensures !Reach(g, v, u) {
        assert Edge(h, u, v);
        if Reach(g, v, u) { ReachEmbeds(g, h, v, u); }
      }
    }
  }

  /**
   `addNodeEdge` closes a cycle exactly when the target already reaches the node where the
   RMW chain of the source ends. The caller's own check is on the source, not on that node.
   */
  lemma AddedEdgeAcyclic(g: Graph, a: Act, to: Act, force: bool, f: Act, h: Graph)
    requires Acyclic(g) && a in g && to in g && (force || !Test(g, a, to))
    requires ChainEnd(g, a, to, f) && Propagated(WithEdge(g, f, to), f, to, h)
    ensures AddedEdge(g, a, to, force, h)
    ensures Acyclic(h) <==> !Reach(g, to, f)
  {
    WithEdgeAcyclic(g, f, to);
    SameShapeAcyclic(WithEdge(g, f, to), h);
  }

  lemma ReachMono(g: Graph, a: Act, b: Act)
    requires EdgeMono(g) && a in g && Reach(g, a, b)
    ensures b in g && Leq(g[a].cv, g[b].cv)
  {
    var p :| Walk(g, a, p, b);
    WalkMono(g, a, p, b);
  }

  lemma PushAtMost(g: Graph, f: Act, to: Act, h: Graph, n: Act, t: nat)
    requires EdgeMono(g) && f in g && to in g && n in g
    requires Propagated(WithEdge(g, f, to), f, to, h)
    ensures Get(h[n].cv, t) <= if Reach(g, to, n) then Max(Get(g[n].cv, t), Get(g[f].cv, t)) else Get(g[n].cv, t)
  {
    var e := WithEdge(g, f, to);
    assert EntryFrom(e, h, n, t);
    var u :| u in e && Reach(e, u, n) && n in h && Get(h[n].cv, t) == Get(e[u].cv, t);
    WithEdgeReach(g, f, to, u, n);
    if Reach(g, u, n) {
      ReachMono(g, u, n);
    } else {
      ReachMono(g, u, f);
    }
  }

  lemma PushAtLeast(g: Graph, f: Act, to: Act, h: Graph, n: Act)
    requires Closed(g) && EdgeMono(g) && f in g && to in g && f.loc == to.loc && Reach(g, to, n)
    requires Propagated(WithEdge(g, f, to), f, to, h)
    ensures n in h && Leq(g[f].cv, h[n].cv)
  {
    var e := WithEdge(g, f, to);
    PushedEdgeMono(g, f, to, h);
    WithEdgeReach(g, f, to, f, n);
    ReachRefl(g, f);
    SameShapeReach(e, h);
    ReachEmbeds(e, h, f, n);
    ReachMono(h, f, n);
    LeqTrans(e[f].cv, h[f].cv, h[n].cv);
  }

  /**
   On a graph whose clocks agree with its edges the push is exact: the nodes the target
   reaches join the source's clock, and no other clock moves.
   */
  lemma PushExact(g: Graph, f: Act, to: Act, h: Graph, n: Act, t: nat)
    requires Closed(g) && EdgeMono(g) && f in g && to in g && f.loc == to.loc && n in g
    requires Propagated(WithEdge(g, f, to), f, to, h)
    ensures Get(h[n].cv, t) == if Reach(g, to, n) then Max(Get(g[n].cv, t), Get(g[f].cv, t)) else Get(g[n].cv, t)
  {
    PushAtMost(g, f, to, h, n, t);
    assert Get(WithEdge(g, f, to)[n].cv, t) <= Get(h[n].cv, t);
    if Reach(g, to, n) {
      PushAtLeast(g, f, to, h, n);
    }
  }

  // ----- splicing an RMW in after the write it reads -----

  /** What `addRMWEdge` may assume: the RMW is younger, and neither node is read by an RMW yet. */
  ghost predicate SpliceReady(g: Graph, a: Act, rmw: Act) {
    a in g && rmw in g && a.loc == rmw.loc && a.seqno < rmw.seqno && g[a].rmw.None? && g[rmw].rmw.None?
  }

  lemma SplicedEdges(g: Graph, a: Act, rmw: Act, h: Graph)
    requires Closed(g) && SpliceReady(g, a, rmw) && Spliced(g, a, rmw, h)
    ensures forall u, v :: Edge(WithEdge(h, a, rmw), u, v) <==>
                           if u == a then v == rmw
                           else if u == rmw then Edge(g, rmw, v) || (Edge(g, a, v) && v != rmw)
                           else Edge(g, u, v)
    ensures Closed(WithEdge(h, a, rmw))
  {
    WithEdgeEdges(h, a, rmw);
  }

  lemma SplicedEmbeds(g: Graph, a: Act, rmw: Act, h: Graph)
    requires Closed(g) && SpliceReady(g, a, rmw) && Spliced(g, a, rmw, h)
    ensures Embeds(g, WithEdge(h, a, rmw))
  {
    var e := WithEdge(h, a, rmw);
    SplicedEdges(g, a, rmw, h);
    forall u, v | Edge(g, u, v) ensures Reach(e, u, v) {
      if u == a && v != rmw {
        ReachEdge(e, a, rmw);
        ReachEdge(e, rmw, v);
        ReachTrans(e, a, rmw, v);
      } else {
        ReachEdge(e, u, v);
      }
    }
  }

  lemma SplicedLinks(g: Graph, a: Act, rmw: Act, h: Graph)
    requires RmwLinks(g) && SpliceReady(g, a, rmw) && Spliced(g, a, rmw, h)
    ensures RmwLinks(WithEdge(h, a, rmw))
  {
    var e := WithEdge(h, a, rmw);
    forall k, m | RmwOf(e, k, m) ensures m in e && e[k].edges == [m] && k.seqno < m.seqno {
      if k != a {
        assert RmwOf(g, k, m);
      }
    }
  }

  lemma SplicedInv(g: Graph, a: Act, rmw: Act, h: Graph)
    requires GraphInv(g) && SpliceReady(g, a, rmw) && Spliced(g, a, rmw, h)
    ensures GraphInv(WithEdge(h, a, rmw))
  {
    SplicedEdges(g, a, rmw, h);
    SplicedEmbeds(g, a, rmw, h);
    SplicedLinks(g, a, rmw, h);
    WithEdgeInOut(h, a, rmw);
    SameClocksJustified(g, WithEdge(h, a, rmw));
  }

  /**
   Splicing keeps the invariant and every path. Afterwards the RMW is the only successor of
   the write it read, so nothing is ordered between the two.
   */
  lemma AddedRmwInv(g: Graph, a: Act, rmw: Act, k: Graph)
    requires GraphInv(g) && SpliceReady(g, a, rmw) && AddedRmw(g, a, rmw, k)
    ensures GraphInv(k) && Embeds(g, k) && k.Keys == g.Keys
    ensures Reach(k, a, rmw) && k[a].edges == [rmw]
    ensures forall n :: n in g ==> k[n].rmw == if n == a then Some(rmw) else g[n].rmw
  {
    var h :| Spliced(g, a, rmw, h) && Propagated(WithEdge(h, a, rmw), a, rmw, k);
    var e := WithEdge(h, a, rmw);
    assert Closed(g);
    hide GraphInv;
    hide Embeds;
    SplicedInv(g, a, rmw, h);
    SplicedEmbeds(g, a, rmw, h);
    PropagatedInv(e, a, rmw, k);
    PushedEdgeReach(h, a, rmw, k);
    SameShapeReach(e, k);
    EmbedsTrans(g, e, k);
  }

  /** The guard under which the push reaches the RMW's new successors. */
  ghost predicate SplicePushes(g: Graph, a: Act, rmw: Act)
    requires a in g
  {
    g[a].edges == [] || exists t: nat :: t != rmw.tid && Get(g[a].cv, t) > 0
  }

  /** `rmw` has just been created: no edges, its own stamp only, and no other clock knows it. */
  ghost predicate JustCreated(g: Graph, rmw: Act) {
    && rmw in g && g[rmw] == FreshNode(rmw)
    && (forall n :: n in g && n != rmw ==> Get(g[n].cv, rmw.tid) < rmw.seqno)
  }

  lemma SplicePushesMeaning(g: Graph, a: Act, rmw: Act)
    requires a in g && a != rmw && JustCreated(g, rmw) && g[a].edges != []
    ensures SplicePushes(g, a, rmw) <==> !Leq(g[a].cv, g[rmw].cv)
  {
    if SplicePushes(g, a, rmw) {
      var t: nat :| t != rmw.tid && Get(g[a].cv, t) > 0;
      assert Get(g[rmw].cv, t) == 0;
    }
    if !Leq(g[a].cv, g[rmw].cv) {
      var t: nat :| Get(g[a].cv, t) > Get(g[rmw].cv, t);
      assert t != rmw.tid;
    }
  }

  /** When the push changed its target, the target's own out-edges need not have been in order. */
  lemma PropagatedMonoChanged(g: Graph, f: Act, to: Act, h: Graph)
    requires Closed(g) && Propagated(g, f, to, h)
    requires forall u, v :: Edge(g, u, v) ==> u == to || (u == f && v == to) || Leq(g[u].cv, g[v].cv)
    requires to in g && !Leq(h[to].cv, g[to].cv)
    ensures EdgeMono(h)
  {
    forall u, v | Edge(h, u, v) ensures v in h && Leq(h[u].cv, h[v].cv) {
      assert Edge(g, u, v);
      if u == to || (u == f && v == to) || !Leq(h[u].cv, g[u].cv) {
      } else {
        LeqTrans(h[u].cv, g[u].cv, g[v].cv);
        LeqTrans(h[u].cv, g[v].cv, h[v].cv);
      }
    }
  }

  lemma PushChanges(g: Graph, f: Act, to: Act, h: Graph)
    requires Propagated(g, f, to, h) && Edge(g, f, to) && to in g && !Leq(g[f].cv, g[to].cv)
    ensures !Leq(h[to].cv, g[to].cv)
  {
    var t: nat :| Get(g[f].cv, t) > Get(g[to].cv, t);
    assert Get(g[f].cv, t) <= Get(h[f].cv, t) <= Get(h[to].cv, t);
  }

  lemma SpliceMonoIf(g: Graph, a: Act, rmw: Act, h: Graph, k: Graph)
    requires GraphInv(g) && EdgeMono(g) && SpliceReady(g, a, rmw) && JustCreated(g, rmw)
    requires Spliced(g, a, rmw, h) && Propagated(WithEdge(h, a, rmw), a, rmw, k) && SplicePushes(g, a, rmw)
    ensures EdgeMono(k)
  {
    var e := WithEdge(h, a, rmw);
    SplicedEdges(g, a, rmw, h);
    if g[a].edges == [] {
      PropagatedMono(e, a, rmw, k);
    } else {
      SplicePushesMeaning(g, a, rmw);
      PushChanges(e, a, rmw, k);
      PropagatedMonoChanged(e, a, rmw, k);
    }
  }

  /** Without the guard, some successor of the RMW is reached but fails the clock test. */
  lemma SpliceMisses(g: Graph, a: Act, rmw: Act, h: Graph, k: Graph, x: Act)
    requires Closed(g) && InOut(g) && SpliceReady(g, a, rmw) && JustCreated(g, rmw)
    requires Spliced(g, a, rmw, h) && Propagated(WithEdge(h, a, rmw), a, rmw, k)
    requires Leq(g[a].cv, g[rmw].cv) && Edge(g, a, x)
    ensures x in k && Reach(k, rmw, x) && !Test(k, rmw, x)
  {
    var e := WithEdge(h, a, rmw);
    SplicedEdges(g, a, rmw, h);
    assert a in g[x].inedges;
    assert Edge(e, rmw, x);
    assert Edge(k, rmw, x);
    ReachEdge(k, rmw, x);
    assert Get(k[x].cv, rmw.tid) <= Get(e[x].cv, rmw.tid);
    assert Get(g[x].cv, rmw.tid) < rmw.seqno;
  }

  /**
   The exact side condition of `addRMWEdge`. From a state where clocks agree with edges,
   splicing in a new RMW leaves them in agreement if and only if the source had no successor
   to hand over, or its clock knows a thread other than the RMW's. In the remaining case
   the one-entry test is wrong about the RMW itself.
   */
  lemma SpliceExact(g: Graph, a: Act, rmw: Act, k: Graph)
    requires GraphInv(g) && EdgeMono(g) && SpliceReady(g, a, rmw) && JustCreated(g, rmw)
    requires AddedRmw(g, a, rmw, k)
    ensures EdgeMono(k) <==> SplicePushes(g, a, rmw)
    ensures !SplicePushes(g, a, rmw) ==> exists x :: x in k && Reach(k, rmw, x) && !Test(k, rmw, x)
  {
    var h :| Spliced(g, a, rmw, h) && Propagated(WithEdge(h, a, rmw), a, rmw, k);
    if SplicePushes(g, a, rmw) {
      SpliceMonoIf(g, a, rmw, h, k);
    } else {
      SplicePushesMeaning(g, a, rmw);
      var x := g[a].edges[0];
      SpliceMisses(g, a, rmw, h, k, x);
      if EdgeMono(k) {
        AddedRmwInv(g, a, rmw, k);
        TestComplete(k, rmw, x);
      }
    }
  }

  // ----- attaching a write after several others -----

  function WithNodes(g: Graph, es: seq<Act>): Graph {
    if es == [] then g else WithNode(WithNodes(g, es[..|es| - 1]), es[|es| - 1])
  }

  ghost predicate PairwiseUnreachable(g: Graph, ps: seq<Act>) {
    forall i, j :: 0 <= i < j < |ps| ==> !Test(g, ps[i], ps[j]) && !Test(g, ps[j], ps[i])
  }

  ghost predicate Dominated(g: Graph, e: Act, ps: seq<Act>) {
    exists k :: k in ps && Reach(g, e, k)
  }

  /** `ps` is what the pruning loops leave of `es`. */
  ghost predicate PruneOf(g: Graph, es: seq<Act>, ps: seq<Act>) {
    && (forall k :: k in ps ==> k in es)
    && PairwiseUnreachable(g, ps)
    && (forall e {:trigger Dominated(g, e, ps)} :: e in es ==> Dominated(g, e, ps))
  }

  /** `addEdge` from each of `froms` to `to`, in order; `same` forces the same-thread ones. */
  ghost predicate AddedAll(g: Graph, froms: seq<Act>, to: Act, same: bool, h: Graph)
    decreases |froms|
  {
    if froms == [] then h == g
    else
      var a := froms[|froms| - 1];
      exists k :: AddedAll(g, froms[..|froms| - 1], to, same, k) && AddedOne(k, a, to, same, h)
  }

  /** `addEdge` on actions: creates the nodes it needs, then adds the edge. */
  ghost predicate AddedOne(g: Graph, a: Act, to: Act, same: bool, h: Graph) {
    AddedEdge(WithNode(WithNode(g, a), to), a, to, same && a.tid == to.tid, h)
  }

  /** `addEdges`: prune the set, then add an edge from each survivor. */
  ghost predicate AddedPruned(g: Graph, es: seq<Act>, to: Act, h: Graph) {
    exists ps :: PruneOf(WithNodes(g, es), es, ps) && AddedAll(WithNodes(g, es), ps, to, true, h)
  }

  /** The writes `s` are attached so far, `to` is the write an edge is being added to. */
  ghost predicate Attached(g: Graph, s: set<Act>, to: Act) {
    && UniqueSeq(s) && ThreadOrdered(g, s) && g.Keys <= s + {to}
    && (forall a :: a in s ==> a.seqno >= 1) && to.seqno >= 1
  }

  lemma ThreadOrderedEmbeds(g: Graph, h: Graph, s: set<Act>)
    requires ThreadOrdered(g, s) && Embeds(g, h)
    ensures ThreadOrdered(h, s)
  {
    forall a, b | a in s && b in s && a.tid == b.tid && a.loc == b.loc && a.seqno < b.seqno
      ensures Reach(h, a, b)
    {
      assert Reach(g, a, b);
      ReachEmbeds(g, h, a, b);
    }
  }

  lemma {:induction false} WithNodesInv(g: Graph, es: seq<Act>)
    requires GraphInv(g) && forall e :: e in es ==> e.seqno >= 1
    ensures GraphInv(WithNodes(g, es)) && Embeds(g, WithNodes(g, es)) && Embeds(WithNodes(g, es), g)
    ensures EdgeMono(g) ==> EdgeMono(WithNodes(g, es))
    ensures forall n :: n in WithNodes(g, es) <==> n in g || n in es
    ensures forall n :: n in WithNodes(g, es) ==> WithNodes(g, es)[n] == if n in g then g[n] else FreshNode(n)
    decreases |es|
  {
    if es == [] {
      EmbedsSuper(g, g);
    } else {
      var init, last := es[..|es| - 1], es[|es| - 1];
      assert es == init + [last];
      WithNodesInv(g, init);
      var m := WithNodes(g, init);
      WithNodeInv(m, last);
      WithNodeEdges(m, last);
      EmbedsTrans(g, m, WithNode(m, last));
      EmbedsTrans(WithNode(m, last), m, g);
    }
  }

  ghost predicate RmwKept(g: Graph, h: Graph) {
    forall n :: n in h ==> h[n].rmw == if n in g then g[n].rmw else None
  }

  lemma WithTwoInv(g: Graph, a: Act, to: Act)
    requires GraphInv(g) && a.seqno >= 1 && to.seqno >= 1
    ensures var h := WithNode(WithNode(g, a), to);
            GraphInv(h) && Embeds(g, h) && RmwKept(g, h) && h.Keys == g.Keys + {a, to} && (EdgeMono(g) ==> EdgeMono(h))
  {
    hide GraphInv;
    hide EdgeMono;
    hide Embeds;
    var g1 := WithNode(g, a);
    WithNodeInv(g, a);
    WithNodeEdges(g, a);
    WithNodeInv(g1, to);
    WithNodeEdges(g1, to);
    EmbedsTrans(g, g1, WithNode(g1, to));
  }

  lemma WithPairInv(g: Graph, s: set<Act>, a: Act, to: Act)
    requires GraphInv(g) && Attached(g, s, to) && a in s
    ensures var h := WithNode(WithNode(g, a), to);
            GraphInv(h) && Embeds(g, h) && Attached(h, s, to) && RmwKept(g, h) && h.Keys == g.Keys + {a, to}
  {
    WithTwoInv(g, a, to);
    ThreadOrderedEmbeds(g, WithNode(WithNode(g, a), to), s);
  }

  lemma AddedOneInv(g: Graph, s: set<Act>, a: Act, to: Act, same: bool, h: Graph)
    requires GraphInv(g) && Attached(g, s, to) && a in s && a.loc == to.loc && (same || to in s)
    requires AddedOne(g, a, to, same, h)
    ensures GraphInv(h) && Embeds(g, h) && Attached(h, s, to) && Reach(h, a, to)
    ensures h.Keys == g.Keys + {a, to} && RmwKept(g, h)
  {
    var g2 := WithNode(WithNode(g, a), to);
    WithPairInv(g, s, a, to);
    AddedEdgeInv(g2, a, to, same && a.tid == to.tid, h);
    AddedEdgeOrders(g2, s, a, to, same && a.tid == to.tid, h);
    EmbedsTrans(g, g2, h);
    ThreadOrderedEmbeds(g2, h, s);
  }

  lemma AddedOneMono(g: Graph, a: Act, to: Act, same: bool, h: Graph)
    requires GraphInv(g) && EdgeMono(g) && a.loc == to.loc && a.seqno >= 1 && to.seqno >= 1
    requires AddedOne(g, a, to, same, h)
    ensures EdgeMono(h)
  {
    WithNodeInv(g, a);
    WithNodeInv(WithNode(g, a), to);
    AddedEdgeMono(WithNode(WithNode(g, a), to), a, to, same && a.tid == to.tid, h);
  }

  ghost predicate AllReach(g: Graph, froms: seq<Act>, to: Act) {
    forall a {:trigger Reach(g, a, to)} :: a in froms ==> Reach(g, a, to)
  }

  lemma AllReachEmbeds(g: Graph, h: Graph, froms: seq<Act>, to: Act)
    requires AllReach(g, froms, to) && Embeds(g, h)
    ensures AllReach(h, froms, to)
  {
    forall a | a in froms ensures Reach(h, a, to) {
      assert Reach(g, a, to);
      ReachEmbeds(g, h, a, to);
    }
  }

  /** Adding the edges keeps the invariant and all paths, and puts every source before `to`. */
  lemma {:induction false} AddedAllInv(g: Graph, s: set<Act>, froms: seq<Act>, to: Act, same: bool, h: Graph)
    requires GraphInv(g) && Attached(g, s, to) && (same || to in s)
    requires forall a :: a in froms ==> a in s && a.loc == to.loc
    requires AddedAll(g, froms, to, same, h)
    ensures GraphInv(h) && Embeds(g, h) && Attached(h, s, to) && AllReach(h, froms, to)
    ensures g.Keys <= h.Keys
    ensures RmwKept(g, h)
    decreases |froms|
  {
    if froms == [] {
      EmbedsSuper(g, h);
    } else {
      var init, last := froms[..|froms| - 1], froms[|froms| - 1];
      assert froms == init + [last];
      var k :| AddedAll(g, init, to, same, k) && AddedOne(k, last, to, same, h);
      AddedAllInv(g, s, init, to, same, k);
      AddedOneInv(k, s, last, to, same, h);
      EmbedsTrans(g, k, h);
      AllReachEmbeds(k, h, init, to);
      forall a | a in froms ensures Reach(h, a, to) {
        assert a in init || a == last;
      }
    }
  }

  lemma {:induction false} AddedAllMono(g: Graph, s: set<Act>, froms: seq<Act>, to: Act, same: bool, h: Graph)
    requires GraphInv(g) && Attached(g, s, to) && (same || to in s) && EdgeMono(g)
    requires forall a :: a in froms ==> a in s && a.loc == to.loc
    requires AddedAll(g, froms, to, same, h)
    ensures EdgeMono(h)
    decreases |froms|
  {
    if froms != [] {
      var init, last := froms[..|froms| - 1], froms[|froms| - 1];
      var k :| AddedAll(g, init, to, same, k) && AddedOne(k, last, to, same, h);
      AddedAllMono(g, s, init, to, same, k);
      AddedAllInv(g, s, init, to, same, k);
      AddedOneMono(k, last, to, same, h);
    }
  }

  lemma DominatedReach(g: Graph, h: Graph, es: seq<Act>, ps: seq<Act>, to: Act)
    requires PruneOf(g, es, ps) && Embeds(g, h) && AllReach(h, ps, to)
    ensures AllReach(h, es, to)
  {
    forall a | a in es ensures Reach(h, a, to) {
      assert Dominated(g, a, ps);
      var k :| k in ps && Reach(g, a, k);
      ReachEmbeds(g, h, a, k);
      assert Reach(h, k, to);
      ReachTrans(h, a, k, to);
    }
  }

  /** Pruning costs nothing: every originally listed write still ends up before `to`. */
  lemma AddedPrunedInv(g: Graph, s: set<Act>, es: seq<Act>, to: Act, h: Graph)
    requires GraphInv(g) && Attached(g, s, to)
    requires forall a :: a in es ==> a in s && a.loc == to.loc
    requires AddedPruned(g, es, to, h)
    ensures GraphInv(h) && Embeds(g, h) && Attached(h, s, to) && AllReach(h, es, to)
    ensures g.Keys <= h.Keys
    ensures RmwKept(g, h)
    ensures EdgeMono(g) ==> EdgeMono(h)
  {
    var m := WithNodes(g, es);
    var ps :| PruneOf(m, es, ps) && AddedAll(m, ps, to, true, h);
    WithNodesInv(g, es);
    ThreadOrderedEmbeds(g, m, s);
    AddedAllInv(m, s, ps, to, true, h);
    EmbedsTrans(g, m, h);
    DominatedReach(m, h, es, ps, to);
    if EdgeMono(g) {
      AddedAllMono(m, s, ps, to, true, h);
    }
  }
}
