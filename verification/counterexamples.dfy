/**
 Concrete graphs on which the shortcuts of the modification-order engine go wrong. Each
 matches an exact condition proved elsewhere: `MoGraph.SpliceExact` for the clock push and
 `MoGraph.AddedEdgeAcyclic` for following RMW chains.
 */
module Counterexamples {
  import opened Options
  import opened Clocks
  import opened MoGraph

  // ----- an RMW that its own successor does not know about -----

  const W := Act(1, 2, 7)   // thread 1 stores
  const X := Act(2, 5, 7)   // thread 2, created after that, stores
  const R := Act(1, 6, 7)   // thread 1 updates, reading from W

  ghost predicate IsStale(g: Graph) {
    && g.Keys == {W, X, R}
    && g[W] == Node([X], [], None, [0, 2])
    && g[X] == Node([], [W], None, [0, 2, 5])
    && g[R] == FreshNode(R)
  }

  lemma StaleEdges(g: Graph)
    requires IsStale(g)
    ensures forall u, v :: Edge(g, u, v) <==> u == W && v == X
    ensures Closed(g) && RmwLinks(g) && InOut(g)
  {}

  lemma StaleClocks(g: Graph)
    requires IsStale(g)
    ensures forall t: nat :: Get(g[W].cv, t) == if t == 1 then 2 else 0
    ensures forall t: nat :: Get(g[X].cv, t) == if t == 1 then 2 else if t == 2 then 5 else 0
    ensures forall t: nat :: Get(g[R].cv, t) == if t == 1 then 6 else 0
  {}

  lemma StaleJustified(g: Graph)
    requires IsStale(g)
    ensures Justified(g) && SelfStamped(g) && EdgeMono(g) && JustCreated(g, R)
  {
    StaleClocks(g);
    StaleEdges(g);
    hide InOut;
    ReachEdge(g, W, X);
    forall n, t: nat | n in g && Get(g[n].cv, t) > 0 ensures EntryJustified(g, n, t) {
      ReachRefl(g, n);
      assert Witness(g, n, t, if n == X && t == 1 then W else n);
    }
  }

  /**
   Thread 1 stores, thread 2's store follows in modification order, and thread 1 updates its
   own store: the RMW is placed before thread 2's store, and the clock test denies it.
   */
  lemma StaleSuccessor(g: Graph, k: Graph)
    requires IsStale(g) && AddedRmw(g, W, R, k)
    ensures GraphInv(g) && EdgeMono(g) && SpliceReady(g, W, R) && JustCreated(g, R) && !SplicePushes(g, W, R)
    ensures Reach(k, R, X) && !Test(k, R, X)
  {
    StaleJustified(g);
    StaleEdges(g);
    StaleClocks(g);
    hide InOut;
    hide Justified;
    hide JustCreated;
    assert Leq(g[W].cv, g[R].cv);
    var h :| Spliced(g, W, R, h) && Propagated(WithEdge(h, W, R), W, R, k);
    assert Edge(g, W, X);
    SpliceMisses(g, W, R, h, k, X);
  }

  // ----- a read that closes a cycle through an RMW -----

  const P := Act(1, 6, 7)   // a store
  const Y := Act(2, 7, 7)   // another thread's store, ordered before the RMW only
  const U := Act(3, 8, 7)   // a third thread's RMW, reading from P

  ghost predicate IsChained(g: Graph) {
    && g.Keys == {P, Y, U}
    && g[P] == Node([U], [], Some(U), [0, 6])
    && g[Y] == Node([U], [], None, [0, 0, 7])
    && g[U] == Node([], [P, Y], None, [0, 6, 7, 8])
  }

  lemma ChainedEdges(g: Graph)
    requires IsChained(g)
    ensures forall u, v :: Edge(g, u, v) <==> (u == P || u == Y) && v == U
    ensures Closed(g) && RmwLinks(g) && InOut(g)
  {}

  lemma ChainedClocks(g: Graph)
    requires IsChained(g)
    ensures forall t: nat :: Get(g[P].cv, t) == if t == 1 then 6 else 0
    ensures forall t: nat :: Get(g[Y].cv, t) == if t == 2 then 7 else 0
    ensures forall t: nat :: Get(g[U].cv, t) == if t == 1 then 6 else if t == 2 then 7 else if t == 3 then 8 else 0
  {}

  lemma ChainedJustified(g: Graph)
    requires IsChained(g)
    ensures Justified(g) && SelfStamped(g) && EdgeMono(g)
  {
    ChainedClocks(g);
    ChainedEdges(g);
    hide InOut;
    ReachEdge(g, P, U);
    ReachEdge(g, Y, U);
    forall n, t: nat | n in g && Get(g[n].cv, t) > 0 ensures EntryJustified(g, n, t) {
      ReachRefl(g, n);
      assert Witness(g, n, t, if t == 1 then P else if t == 2 then Y else U);
    }
  }

  lemma ChainedAcyclic(g: Graph)
    requires IsChained(g)
    ensures Acyclic(g) && !Reach(g, Y, P) && Reach(g, Y, U)
  {
    ChainedEdges(g);
    hide InOut;
    assert forall p, x :: Walk(g, U, p, x) ==> x == U;
    ReachEdge(g, Y, U);
    if Reach(g, Y, P) {
      var p :| Walk(g, Y, p, P);
      assert Walk(g, U, p[1..], P);
    }
  }

  /**
   A read accepts `Y` although its prior write is `P`: the check that `Y` does not reach `P`
   passes. The edge is then attached at the end of the chain of `P`, which `Y` does reach.
   */
  lemma ChainClosesCycle(g: Graph, h: Graph)
    requires IsChained(g) && AddedEdge(g, P, Y, false, h)
    ensures GraphInv(g) && EdgeMono(g) && Acyclic(g)
    ensures !Test(g, Y, P) && !Reach(g, Y, P)
    ensures !Acyclic(h)
  {
    ChainedEdges(g);
    ChainedJustified(g);
    ChainedClocks(g);
    ChainedAcyclic(g);
    hide InOut;
    hide Justified;
    assert !Test(g, P, Y);
    var f :| ChainEnd(g, P, Y, f) && Propagated(WithEdge(g, f, Y), f, Y, h);
    var p :| Chain(g, P, p, Y, f);
    assert f == U by {
      if p != [] {
        assert RmwOf(g, P, p[0]);
        assert Chain(g, U, p[1..], Y, f);
      }
    }
    AddedEdgeAcyclic(g, P, Y, false, f, h);
  }
}
