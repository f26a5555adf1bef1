/**
 The mutable modification-order graph: node lists changed in place, the clock worklist, RMW
 splicing and edge-set pruning, each proved against the value-level definitions of `MoGraph`.
 */
module CycleGraphs {
  import opened Sequences
  import opened Options
  import opened Clocks
  import opened MoGraph

  // ----- termination of the worklist: the clock slack that is left -----

  function ClockSlack(c: Clock, threads: nat, top: nat): nat {
    if threads == 0 then 0
    else (if Get(c, threads - 1) < top then top - Get(c, threads - 1) else 0) + ClockSlack(c, threads - 1, top)
  }

  function Slack(order: seq<Act>, g: Graph, threads: nat, top: nat): nat {
    if order == [] then 0
    else (if order[0] in g then ClockSlack(g[order[0]].cv, threads, top) else 0) + Slack(order[1..], g, threads, top)
  }

  lemma {:induction false} ClockSlackDrop(c: Clock, d: Clock, threads: nat, top: nat)
    requires Leq(c, d)
    ensures ClockSlack(d, threads, top) <= ClockSlack(c, threads, top)
    ensures (exists t: nat :: t < threads && Get(c, t) < Get(d, t) <= top) ==>
              ClockSlack(d, threads, top) < ClockSlack(c, threads, top)
  {
    if threads > 0 {
      assert Get(c, threads - 1) <= Get(d, threads - 1);
      ClockSlackDrop(c, d, threads - 1, top);
    }
  }

  /** Raising one node's clock uses up slack. */
  lemma {:induction false} SlackDrop(order: seq<Act>, g: Graph, n: Act, d: Clock, threads: nat, top: nat)
    requires n in g && Leq(g[n].cv, d)
    ensures Slack(order, g[n := g[n].(cv := d)], threads, top) <= Slack(order, g, threads, top)
    ensures n in order && (exists t: nat :: t < threads && Get(g[n].cv, t) < Get(d, t) <= top) ==>
              Slack(order, g[n := g[n].(cv := d)], threads, top) < Slack(order, g, threads, top)
  {
    if order != [] {
      SlackDrop(order[1..], g, n, d, threads, top);
      ClockSlackDrop(g[n].cv, d, threads, top);
    }
  }

  /** No clock of `g` is longer than `threads` or has an entry above `top`. */
  ghost predicate Bounded(g: Graph, threads: nat, top: nat) {
    forall n :: n in g ==> BoundedClock(g[n].cv, threads, top)
  }

  ghost predicate BoundedClock(c: Clock, threads: nat, top: nat) {
    forall t: nat :: Get(c, t) <= top && (t >= threads ==> Get(c, t) == 0)
  }

  lemma {:induction false} ClockBound(c: Clock) returns (top: nat)
    ensures BoundedClock(c, |c|, top)
  {
    top := 0;
    var i := 0;
    while i < |c|
      invariant 0 <= i <= |c|
      invariant forall t :: 0 <= t < i ==> c[t] <= top
    {
      top := Max(top, c[i]);
      i := i + 1;
    }
  }

  lemma GraphBound(g: Graph) returns (order: seq<Act>, threads: nat, top: nat)
    ensures Bounded(g, threads, top)
    ensures forall n :: n in g ==> n in order
  {
    order, threads, top := [], 0, 0;
    var rest := g.Keys;
    while rest != {}
      invariant rest <= g.Keys
      invariant forall n :: n in g && n !in rest ==> n in order && BoundedClock(g[n].cv, threads, top)
      decreases |rest|
    {
      var n :| n in rest;
      var hi := ClockBound(g[n].cv);
      order, threads, top, rest := order + [n], Max(threads, |g[n].cv|), Max(top, hi), rest - {n};
    }
  }

  /** An upper bound on the sequence numbers of a finite set of nodes. */
  lemma SeqBound(s: set<Act>) returns (hi: nat)
    ensures forall n :: n in s ==> n.seqno <= hi
  {
    hi := 0;
    var rest := s;
    while rest != {}
      invariant forall n :: n in s && n !in rest ==> n.seqno <= hi
      decreases |rest|
    {
      var n :| n in rest;
      hi, rest := Max(hi, n.seqno), rest - {n};
    }
  }

  // ----- the state of the worklist -----

  /** `cur` is between `e` and the finished push: only edges out of queued nodes may lag. */
  ghost predicate Pushing(e: Graph, f: Act, to: Act, cur: Graph) {
    && SameShape(e, cur)
    && (forall n :: n in e ==> Leq(e[n].cv, cur[n].cv))
    && (forall n, t: nat {:trigger EntryFrom(e, cur, n, t)} :: n in e ==> EntryFrom(e, cur, n, t))
  }

  ghost predicate Settled(e: Graph, f: Act, to: Act, cur: Graph, u: Act, v: Act) {
    && u in e && u in cur && v in cur
    && ((u == f && v == to) || !Leq(cur[u].cv, e[u].cv) ==> Leq(cur[u].cv, cur[v].cv))
  }

  ghost predicate SettledBut(e: Graph, f: Act, to: Act, cur: Graph, lag: set<Act>) {
    forall u, v {:trigger Settled(e, f, to, cur, u, v)} :: Edge(e, u, v) ==> u in lag || Settled(e, f, to, cur, u, v)
  }

  function Merged(g: Graph, n: Act, c: Clock): Graph
    requires n in g
  {
    g[n := g[n].(cv := Join(g[n].cv, c))]
  }

  lemma MergeKeepsPushing(e: Graph, f: Act, to: Act, cur: Graph, u: Act, v: Act)
    requires Pushing(e, f, to, cur) && Edge(e, u, v) && v in e
    ensures Pushing(e, f, to, Merged(cur, v, cur[u].cv))
  {
    var next := Merged(cur, v, cur[u].cv);
    forall n | n in e ensures Leq(e[n].cv, next[n].cv) {
      LeqTrans(e[n].cv, cur[n].cv, next[n].cv);
    }
    forall n, t: nat | n in e ensures EntryFrom(e, next, n, t) {
      assert EntryFrom(e, cur, n, t);
      if n == v && Get(next[v].cv, t) != Get(cur[v].cv, t) {
        assert EntryFrom(e, cur, u, t);
        var w :| w in e && Reach(e, w, u) && u in cur && Get(cur[u].cv, t) == Get(e[w].cv, t);
        ReachEdge(e, u, v);
        ReachTrans(e, w, u, v);
      }
    }
  }

  lemma MergeKeepsSettled(e: Graph, f: Act, to: Act, cur: Graph, v: Act, c: Clock, lag: set<Act>)
    requires SameShape(e, cur) && v in cur && SettledBut(e, f, to, cur, lag)
    ensures SettledBut(e, f, to, Merged(cur, v, c), lag + {v})
    ensures Leq(c, cur[v].cv) ==> SettledBut(e, f, to, Merged(cur, v, c), lag)
  {
    var next := Merged(cur, v, c);
    forall x, y | Edge(e, x, y) && x !in lag
      ensures x != v || Leq(c, cur[v].cv) ==> Settled(e, f, to, next, x, y)
    {
      assert Settled(e, f, to, cur, x, y);
      assert Leq(cur[y].cv, next[y].cv);
      if (x == f && y == to) || !Leq(cur[x].cv, e[x].cv) {
        LeqTrans(cur[x].cv, cur[y].cv, next[y].cv);
        if x == v && Leq(c, cur[v].cv) {
          LeqTrans(next[x].cv, cur[x].cv, next[y].cv);
        }
      } else if x == v && Leq(c, cur[v].cv) {
        LeqTrans(next[x].cv, cur[x].cv, e[x].cv);
      }
    }
  }

  lemma PushingBounded(e: Graph, f: Act, to: Act, cur: Graph, threads: nat, top: nat)
    requires Bounded(e, threads, top) && Pushing(e, f, to, cur)
    ensures Bounded(cur, threads, top)
  {
    forall n, t: nat | n in cur
      ensures Get(cur[n].cv, t) <= top && (t >= threads ==> Get(cur[n].cv, t) == 0)
    {
      assert EntryFrom(e, cur, n, t);
    }
  }

  lemma MergeUsesSlack(order: seq<Act>, cur: Graph, v: Act, c: Clock, threads: nat, top: nat)
    requires v in cur && v in order && BoundedClock(c, threads, top)
    ensures Slack(order, Merged(cur, v, c), threads, top) <= Slack(order, cur, threads, top)
    ensures !Leq(c, cur[v].cv) ==> Slack(order, Merged(cur, v, c), threads, top) < Slack(order, cur, threads, top)
  {
    var d := Join(cur[v].cv, c);
    SlackDrop(order, cur, v, d, threads, top);
    if !Leq(c, cur[v].cv) {
      var t: nat :| Get(c, t) > Get(cur[v].cv, t);
      assert t < threads && Get(cur[v].cv, t) < Get(d, t) <= top;
    }
  }

  /** The computed form of "merging `a` into `b` changes `b`". */
  predicate Exceeds(a: Clock, b: Clock)
    ensures Exceeds(a, b) <==> !Leq(a, b)
  {
    if t :| 0 <= t < |a| && a[t] > Get(b, t) then
      assert Get(a, t) > Get(b, t);
      true
    else
      false
  }

  lemma {:induction false} ChainSnoc(g: Graph, a: Act, p: seq<Act>, to: Act, f: Act, n: Act)
    requires Chain(g, a, p, to, f) && RmwOf(g, f, n) && n != to
    ensures Chain(g, a, p + [n], to, n)
    decreases |p|
  {
    if p == [] {
      assert (p + [n])[1..] == [];
    } else {
      ChainSnoc(g, p[0], p[1..], to, f, n);
      assert (p + [n])[1..] == p[1..] + [n];
    }
  }

  /** RMW pointers lead to younger nodes of the same location, so following them ends. */
  ghost predicate RmwAscends(g: Graph) {
    forall n, m {:trigger RmwOf(g, n, m)} :: RmwOf(g, n, m) ==> m in g && n.loc == m.loc && n.seqno < m.seqno
  }

  lemma InvAscends(g: Graph)
    requires GraphInv(g)
    ensures RmwAscends(g)
  {
    forall n, m | RmwOf(g, n, m) ensures m in g && n.loc == m.loc && n.seqno < m.seqno {
      assert Edge(g, n, m);
    }
  }

  /** The first merge, into the target of the new edge, starts the push. */
  lemma PushStart(e: Graph, f: Act, to: Act)
    requires Closed(e) && Edge(e, f, to)
    ensures to in e && Pushing(e, f, to, Merged(e, to, e[f].cv))
    ensures SettledBut(e, f, to, Merged(e, to, e[f].cv), {to})
    ensures Leq(e[f].cv, e[to].cv) ==> SettledBut(e, f, to, Merged(e, to, e[f].cv), {})
  {
    forall n, t: nat | n in e ensures EntryFrom(e, e, n, t) {
      ReachRefl(e, n);
    }
    MergeKeepsPushing(e, f, to, e, f, to);
    var next := Merged(e, to, e[f].cv);
    forall u, v | Edge(e, u, v) && u != to ensures Settled(e, f, to, next, u, v) {}
    if Leq(e[f].cv, e[to].cv) {
      forall v | Edge(e, to, v) ensures Settled(e, f, to, next, to, v) {}
    }
  }

  lemma PushDone(e: Graph, f: Act, to: Act, cur: Graph)
    requires Closed(e) && Pushing(e, f, to, cur) && SettledBut(e, f, to, cur, {})
    requires f in e && to in e && Leq(e[f].cv, e[to].cv) ==> forall n :: n in e ==> Leq(cur[n].cv, e[n].cv)
    ensures Propagated(e, f, to, cur)
  {
    forall u, v | Edge(e, u, v) && v in e && ((u == f && v == to) || !Leq(cur[u].cv, e[u].cv))
      ensures Leq(cur[u].cv, cur[v].cv)
    {
      assert Settled(e, f, to, cur, u, v);
    }
  }

  // ----- removing from an unordered edge list -----

  /** Overwrites the first occurrence of `x` by the last element and pops, as `removeInEdge` does. */
  function SwapRemove(s: seq<Act>, x: Act, i: nat := 0): (r: seq<Act>)
    requires i <= |s| && Distinct(s) && x !in s[..i]
    ensures Distinct(r) && forall y :: y in r <==> y in s && y != x
    decreases |s| - i
  {
    if i == |s| then s
    else if s[i] == x then
      var r := s[i := s[|s| - 1]][..|s| - 1];
      assert forall y :: y in s && y != x ==> y in r by {
        forall y | y in s && y != x ensures y in r {
          var j :| 0 <= j < |s| && s[j] == y;
          if j == |s| - 1 { assert r[i] == y; } else { assert r[j] == y; }
        }
      }
      r
    else SwapRemove(s, x, i + 1)
  }

  class CycleGraph {
    /** The nodes created so far, by the action they stand for. */
    var nodes: Graph

    constructor ()
      ensures nodes == map[]
    {
      nodes := map[];
    }

    method GetNode(n: Act)
      modifies this
      ensures nodes == WithNode(old(nodes), n)
    {
      if n !in nodes {
        nodes := nodes[n := FreshNode(n)];
      }
    }

    method CheckReachable(a: Act, b: Act) returns (r: bool)
      ensures r <==> Test(nodes, a, b)
    {
      if a !in nodes || b !in nodes {
        return false;
      }
      r := Since(nodes[b].cv, a.tid, a.seqno);
    }

    /** `CycleNode::addEdge`: a linear search for a duplicate, then two appends. */
    method NodeAddEdge(f: Act, to: Act)
      requires f in nodes && to in nodes
      modifies this
      ensures nodes == WithEdge(old(nodes), f, to)
    {
      var i := 0;
      while i < |nodes[f].edges|
        invariant 0 <= i <= |nodes[f].edges| && nodes == old(nodes)
        invariant to !in nodes[f].edges[..i]
      {
        if nodes[f].edges[i] == to {
          return;
        }
        i := i + 1;
      }
      nodes := nodes[f := nodes[f].(edges := nodes[f].edges + [to])];
      nodes := nodes[to := nodes[to].(inedges := nodes[to].inedges + [f])];
    }

    /** `CycleNode::removeInEdge`. */
    method NodeRemoveInEdge(n: Act, src: Act)
      requires n in nodes && Distinct(nodes[n].inedges)
      modifies this
      ensures nodes == old(nodes)[n := old(nodes)[n].(inedges := SwapRemove(old(nodes)[n].inedges, src))]
    {
      var i := 0;
      ghost var ins := nodes[n].inedges;
      while i < |nodes[n].inedges|
        invariant 0 <= i <= |ins| && nodes == old(nodes)
        invariant src !in ins[..i] && SwapRemove(ins, src, i) == SwapRemove(ins, src)
      {
        if nodes[n].inedges[i] == src {
          var last := |nodes[n].inedges| - 1;
          var moved := nodes[n].inedges[i := nodes[n].inedges[last]];
          nodes := nodes[n := nodes[n].(inedges := moved[..last])];
          return;
        }
        i := i + 1;
      }
    }

    /** Merges the clock `c` into node `n`. */
    method MergeInto(n: Act, c: Clock) returns (changed: bool)
      requires n in nodes
      modifies this
      ensures nodes == Merged(old(nodes), n, c)
      ensures changed <==> !Leq(c, old(nodes)[n].cv)
    {
      changed := Exceeds(c, nodes[n].cv);
      nodes := nodes[n := nodes[n].(cv := Join(nodes[n].cv, c))];
    }

    /**
     The worklist of `addNodeEdge`. It ends even on a cyclic graph: every push back onto the
     queue has used up clock slack.
     */
    method Propagate(ghost e: Graph, ghost f: Act, to: Act)
      requires Closed(e) && Pushing(e, f, to, nodes) && to in nodes
      requires SettledBut(e, f, to, nodes, {to})
      modifies this
      ensures Pushing(e, f, to, nodes) && SettledBut(e, f, to, nodes, {})
    {
      ghost var order, threads, top := GraphBound(e);
      var queue := [to];
      ghost var lag := {to};
      while queue != []
        invariant Pushing(e, f, to, nodes) && SettledBut(e, f, to, nodes, lag)
        invariant forall q :: q in lag ==> q in queue
        invariant forall q :: q in queue ==> q in nodes
        decreases Slack(order, nodes, threads, top), |queue|
      {
        var node := queue[|queue| - 1];
        assert queue == queue[..|queue| - 1] + [node];
        queue := queue[..|queue| - 1];
        lag := lag - {node};
        queue, lag := PropagateNode(e, f, to, node, queue, lag, order, threads, top);
      }
      assert lag == {};
    }

    /** One turn of the worklist: pushes the clock of `node` along its out-edges. */
    method PropagateNode(ghost e: Graph, ghost f: Act, ghost to: Act, node: Act, pending: seq<Act>,
        ghost lagging: set<Act>, ghost order: seq<Act>, ghost threads: nat, ghost top: nat)
      returns (queue: seq<Act>, ghost lag: set<Act>)
      requires Closed(e) && Pushing(e, f, to, nodes) && node in nodes
      requires SettledBut(e, f, to, nodes, lagging + {node})
      requires Bounded(e, threads, top) && forall n :: n in e ==> n in order
      requires (forall q :: q in pending ==> q in nodes) && (forall q :: q in lagging ==> q in pending)
      modifies this
      ensures Pushing(e, f, to, nodes) && SettledBut(e, f, to, nodes, lag)
      ensures (forall q :: q in queue ==> q in nodes) && (forall q :: q in lag ==> q in queue)
      ensures Slack(order, nodes, threads, top) <= old(Slack(order, nodes, threads, top))
      ensures Slack(order, nodes, threads, top) == old(Slack(order, nodes, threads, top)) ==> queue == pending
    {
      hide Closed;
      hide Bounded;
      hide Slack;
      queue, lag := pending, lagging;
      ghost var c := nodes[node].cv;
      ghost var s0 := Slack(order, nodes, threads, top);
      var numedges := |nodes[node].edges|;
      var i := 0;
      while i < numedges
        invariant 0 <= i <= numedges == |e[node].edges|
        invariant Pushing(e, f, to, nodes) && nodes[node].cv == c
        invariant SettledBut(e, f, to, nodes, lag + {node})
        invariant forall j :: 0 <= j < i ==> e[node].edges[j] in nodes && Leq(c, nodes[e[node].edges[j]].cv)
        invariant (forall q :: q in queue ==> q in nodes) && (forall q :: q in lag ==> q in queue)
        invariant Slack(order, nodes, threads, top) <= s0
        invariant Slack(order, nodes, threads, top) == s0 ==> queue == pending
      {
        var enode := nodes[node].edges[i];
        var changed := PushAlong(e, f, to, node, enode, lag + {node}, order, threads, top);
        if changed {
          queue := queue + [enode];
          lag := lag + {enode};
        }
        i := i + 1;
      }
      forall u, v | Edge(e, u, v) && u !in lag ensures Settled(e, f, to, nodes, u, v) {
        if u == node {
          assert v in e[node].edges;
        }
      }
    }

    /** One edge of the worklist. */
    method PushAlong(ghost e: Graph, ghost f: Act, ghost to: Act, node: Act, enode: Act, ghost lag: set<Act>,
        ghost order: seq<Act>, ghost threads: nat, ghost top: nat)
      returns (changed: bool)
      requires Closed(e) && Pushing(e, f, to, nodes) && Edge(e, node, enode)
      requires SettledBut(e, f, to, nodes, lag)
      requires Bounded(e, threads, top) && forall n :: n in e ==> n in order
      modifies this
      ensures Pushing(e, f, to, nodes) && SettledBut(e, f, to, nodes, if changed then lag + {enode} else lag)
      ensures nodes.Keys == old(nodes.Keys) && nodes[node].cv == old(nodes[node].cv)
      ensures enode in nodes && Leq(nodes[node].cv, nodes[enode].cv)
      ensures forall n :: n in nodes ==> Leq(old(nodes)[n].cv, nodes[n].cv)
      ensures Slack(order, nodes, threads, top) <= old(Slack(order, nodes, threads, top))
      ensures changed ==> Slack(order, nodes, threads, top) < old(Slack(order, nodes, threads, top))
    {
      ghost var c := nodes[node].cv;
      PushingBounded(e, f, to, nodes, threads, top);
      MergeUsesSlack(order, nodes, enode, c, threads, top);
      MergeKeepsPushing(e, f, to, nodes, node, enode);
      MergeKeepsSettled(e, f, to, nodes, enode, c, lag);
      if enode == node {
        assert Join(c, c) == c;
      }
      changed := MergeInto(enode, nodes[node].cv);
    }

    /** Attaches an edge at `f` and pushes the clock of `f` through it. */
    method AttachAndPush(f: Act, to: Act)
      requires Closed(nodes) && f in nodes && to in nodes && f.loc == to.loc
      modifies this
      ensures Propagated(WithEdge(old(nodes), f, to), f, to, nodes)
    {
      WithEdgeEdges(nodes, f, to);
      NodeAddEdge(f, to);
      ghost var e := nodes;
      PushStart(e, f, to);
      var changed := MergeInto(to, nodes[f].cv);
      if changed {
        Propagate(e, f, to);
      }
      PushDone(e, f, to, nodes);
    }

    /** `addNodeEdge`: skip if redundant, follow the RMW chain, attach, push. */
    method AddNodeEdge(fromnode: Act, to: Act, force: bool)
      requires Closed(nodes) && RmwAscends(nodes) && fromnode in nodes && to in nodes && fromnode.loc == to.loc
      modifies this
      ensures AddedEdge(old(nodes), fromnode, to, force, nodes)
    {
      var redundant := CheckReachable(fromnode, to);
      if redundant && !force {
        return;
      }
      ghost var hi := SeqBound(nodes.Keys);
      ghost var p := [];
      var f := fromnode;
      while nodes[f].rmw.Some? && nodes[f].rmw.value != to
        invariant f in nodes && f.loc == to.loc && nodes == old(nodes) && Chain(nodes, fromnode, p, to, f)
        decreases hi - f.seqno
      {
        var next := nodes[f].rmw.value;
        assert RmwOf(nodes, f, next);
        ChainSnoc(nodes, fromnode, p, to, f, next);
        p := p + [next];
        f := next;
      }
      assert ChainEnd(nodes, fromnode, to, f);
      AttachAndPush(f, to);
    }

    /** `addEdge` on actions. */
    method AddEdge(a: Act, to: Act, force: bool)
      requires GraphInv(nodes) && a.loc == to.loc && a.seqno >= 1 && to.seqno >= 1
      modifies this
      ensures AddedEdge(WithNode(WithNode(old(nodes), a), to), a, to, force, nodes)
    {
      WithNodeInv(nodes, a);
      GetNode(a);
      WithNodeInv(nodes, to);
      GetNode(to);
      InvAscends(nodes);
      AddNodeEdge(a, to, force);
    }

    /** The loop of `addRMWEdge` that hands the out-edges of `a` over to `rmw`. */
    method TransferEdges(a: Act, rmw: Act)
      requires InOut(nodes) && Closed(nodes) && SpliceReady(nodes, a, rmw)
      modifies this
      ensures Spliced(old(nodes), a, rmw, nodes)
    {
      ghost var g := nodes;
      TransferStart(g, a, rmw);
      nodes := nodes[a := nodes[a].(rmw := Some(rmw))];
      TransferAll(g, a, rmw);
      TransferEnd(g, a, rmw, nodes);
      hide *;
      nodes := nodes[a := nodes[a].(edges := [])];
    }

    method TransferAll(ghost g: Graph, a: Act, rmw: Act)
      requires Closed(g) && a in g && Transferring(g, a, rmw, 0, nodes)
      modifies this
      ensures a in nodes && Transferring(g, a, rmw, |g[a].edges|, nodes)
    {
      hide InOutBut;
      hide Closed;
      var i := 0;
      while i < |nodes[a].edges|
        invariant i <= |g[a].edges| && Transferring(g, a, rmw, i, nodes)
      {
        TransferOne(g, a, rmw, i);
        i := i + 1;
      }
    }

    method TransferOne(ghost g: Graph, a: Act, rmw: Act, i: nat)
      requires Closed(g) && a in g && i < |g[a].edges| && Transferring(g, a, rmw, i, nodes)
      modifies this
      ensures Transferring(g, a, rmw, i + 1, nodes)
    {
      var to := nodes[a].edges[i];
      assert Edge(g, a, to);
      TransferStep(g, a, rmw, i, nodes);
      hide InOutBut;
      if to != rmw {
        NodeAddEdge(rmw, to);
      }
      NodeRemoveInEdge(to, a);
    }

    /**
     `addRMWEdge`: records the RMW, hands it the out-edges of the write it read, and orders
     it right after that write.
     */
    method AddRmwEdge(a: Act, rmw: Act)
      requires GraphInv(nodes) && a.loc == rmw.loc && 1 <= a.seqno < rmw.seqno
      requires (a in nodes ==> nodes[a].rmw.None?) && (rmw in nodes ==> nodes[rmw].rmw.None?)
      modifies this
      ensures AddedRmw(WithNode(WithNode(old(nodes), a), rmw), a, rmw, nodes)
    {
      WithNodeInv(nodes, a);
      GetNode(a);
      WithNodeInv(nodes, rmw);
      GetNode(rmw);
      ghost var g := nodes;
      InvAscends(g);
      TransferEdges(a, rmw);
      ghost var h := nodes;
      SplicedAscends(g, a, rmw, h);
      AddNodeEdge(a, rmw, true);
      ghost var f :| ChainEnd(h, a, rmw, f) && Propagated(WithEdge(h, f, rmw), f, rmw, nodes);
      ghost var p :| Chain(h, a, p, rmw, f);
    }

    /**
     The inner pruning loop of `addEdges` for position `i`: either the write there turns out
     to be ordered before a later one and is erased, or every later write ordered before it is.
     */
    method PruneAt(es: seq<Act>, i: nat, ghost m: Graph, ghost s: set<Act>, to: Act)
      returns (rest: seq<Act>, kept: bool)
      requires GraphInv(m) && Attached(m, s, to) && m.Keys <= s
      requires i < |es| && PartOf(nodes, m, es) && es[i] in nodes
      requires forall e :: e in es ==> e in s && e.loc == to.loc
      requires forall e :: e in es && e !in nodes ==> e in es[i..]
      requires UnreachableUpTo(m, es, i)
      modifies this
      ensures PartOf(nodes, m, es) && old(nodes).Keys <= nodes.Keys
      ensures forall e :: e in rest ==> e in es
      ensures Covers(m, es, rest)
      ensures if kept then i < |rest| <= |es| && UnreachableUpTo(m, rest, i + 1)
              else i <= |rest| < |es| && UnreachableUpTo(m, rest, i)
      ensures forall e :: e in es && e !in nodes ==> e in rest[if kept then i + 1 else i..]
    {
      hide GraphInv;
      hide Attached;
      hide Covers;
      hide Test;
      hide PartOf;
      hide WithNode;
      rest := es;
      var j := i + 1;
      CoversRefl(m, es);
      while j < |rest|
        invariant i < j <= |rest| <= |es| && rest[i] == es[i] && es[i] in nodes
        invariant PartOf(nodes, m, es) && old(nodes).Keys <= nodes.Keys
        invariant forall e :: e in rest ==> e in es
        invariant forall e :: e in es && e !in nodes ==> e in rest[j..]
        invariant Covers(m, es, rest) && UnreachableUpTo(m, rest, i)
        invariant forall q :: i < q < j ==> !Test(m, rest[i], rest[q]) && !Test(m, rest[q], rest[i])
      {
        var act, act2 := rest[i], rest[j];
        PartGrows(nodes, m, es, act2);
        GetNode(act2);
        PartTest(nodes, m, es, act, act2);
        var before := CheckReachable(act, act2);
        if before {
          PruneSound(m, s, to, act, act2);
          CoversErase(m, es, rest, i, act2);
          EraseUnreachable(m, rest, i, i);
          rest := Erase(rest, i);
          return rest, false;
        }
        var after := CheckReachable(act2, act);
        if after {
          PruneSound(m, s, to, act2, act);
          CoversErase(m, es, rest, j, act);
          EraseUnreachable(m, rest, j, i);
          rest := Erase(rest, j);
        } else {
          j := j + 1;
        }
      }
      kept := true;
    }

    /** The pruning loops of `addEdges`, which also create the nodes they look at. */
    method Prune(edgeset: seq<Act>, ghost m: Graph, ghost s: set<Act>, to: Act) returns (es: seq<Act>)
      requires GraphInv(m) && Attached(m, s, to) && m.Keys <= s && PartOf(nodes, m, edgeset)
      requires forall a :: a in edgeset ==> a in s && a.loc == to.loc
      modifies this
      ensures PruneOf(m, edgeset, es)
      ensures PartOf(nodes, m, edgeset) && old(nodes).Keys <= nodes.Keys && forall e :: e in edgeset ==> e in nodes
    {
      es := edgeset;
      CoversRefl(m, edgeset);
      var i := 0;
      hide GraphInv;
      hide Attached;
      while i < |es|
        invariant 0 <= i <= |es| && PartOf(nodes, m, edgeset)
        invariant forall e :: e in es ==> e in edgeset
        invariant forall e :: e in edgeset && e !in nodes ==> e in es[i..]
        invariant old(nodes).Keys <= nodes.Keys
        invariant Covers(m, edgeset, es) && UnreachableUpTo(m, es, i)
        decreases |es| - i
      {
        GetNode(es[i]);
        ghost var before := es;
        var kept;
        es, kept := PruneAt(es, i, m, s, to);
        CoversTrans(m, edgeset, before, es);
        if kept {
          i := i + 1;
        }
      }
    }

    /** The adding loop of `addEdges`. */
    method AddSurvivors(es: seq<Act>, to: Act, ghost s: set<Act>)
      requires GraphInv(nodes) && Attached(nodes, s, to)
      requires forall a :: a in es ==> a in s && a.loc == to.loc
      modifies this
      ensures AddedAll(old(nodes), es, to, true, nodes)
    {
      ghost var m := nodes;
      var i := 0;
      while i < |es|
        invariant 0 <= i <= |es| && AddedAll(m, es[..i], to, true, nodes)
      {
        AddedAllInv(m, s, es[..i], to, true, nodes);
        ghost var before := nodes;
        AddEdge(es[i], to, es[i].tid == to.tid);
        AddedAllSnoc(m, es, i, to, true, before, nodes);
        i := i + 1;
      }
      assert es[..|es|] == es;
    }

    /** `addEdges`: prune the set by the clock test, then add an edge from every survivor. */
    method AddEdges(edgeset: seq<Act>, to: Act, ghost s: set<Act>)
      requires GraphInv(nodes) && Attached(nodes, s, to) && nodes.Keys <= s
      requires forall a :: a in edgeset ==> a in s && a.loc == to.loc
      modifies this
      ensures AddedPruned(old(nodes), edgeset, to, nodes)
    {
      ghost var m := WithNodes(nodes, edgeset);
      WithNodesInv(nodes, edgeset);
      ThreadOrderedEmbeds(nodes, m, s);
      var es := Prune(edgeset, m, s, to);
      assert nodes == m;
      AddSurvivors(es, to, s);
    }
  }

  lemma PruneSound(m: Graph, s: set<Act>, to: Act, a: Act, b: Act)
    requires GraphInv(m) && Attached(m, s, to) && m.Keys <= s
    requires a in s && b in s && a.loc == b.loc && Test(m, a, b)
    ensures Reach(m, a, b)
  {
    TestSound(m, s, a, b);
  }

  lemma AddedAllSnoc(g: Graph, es: seq<Act>, i: nat, to: Act, same: bool, before: Graph, h: Graph)
    requires i < |es| && AddedAll(g, es[..i], to, same, before) && AddedOne(before, es[i], to, same, h)
    ensures AddedAll(g, es[..i + 1], to, same, h)
  {
    hide AddedOne;
    assert es[..i + 1][..i] == es[..i];
  }

  function Erase(s: seq<Act>, i: nat): (r: seq<Act>)
    requires i < |s|
    ensures |r| == |s| - 1
    ensures forall e :: e in r ==> e in s
    ensures forall e :: e in s && e != s[i] ==> e in r
  {
    var r := s[..i] + s[i + 1..];
    assert s == s[..i] + [s[i]] + s[i + 1..];
    r
  }

  /** `g` is the part of `m` created so far, and `m` has every node of `es`. */
  ghost predicate PartOf(g: Graph, m: Graph, es: seq<Act>) {
    && g.Keys <= m.Keys && (forall n :: n in g ==> g[n] == m[n])
    && (forall e :: e in es ==> e in m && (e !in g ==> m[e] == FreshNode(e)))
  }

  lemma PartGrows(g: Graph, m: Graph, es: seq<Act>, e: Act)
    requires PartOf(g, m, es) && e in es
    ensures PartOf(WithNode(g, e), m, es) && WithNode(g, e).Keys == g.Keys + {e}
  {
  }

  lemma PartTest(g: Graph, m: Graph, es: seq<Act>, a: Act, b: Act)
    requires PartOf(g, m, es) && a in g && b in g
    ensures (Test(g, a, b) <==> Test(m, a, b)) && (Test(g, b, a) <==> Test(m, b, a))
  {
  }

  ghost predicate UnreachableUpTo(m: Graph, es: seq<Act>, i: nat) {
    forall p, q :: 0 <= p < i && p < q < |es| ==> !Test(m, es[p], es[q]) && !Test(m, es[q], es[p])
  }

  /** Everything in `es` reaches something in `rest`. */
  ghost predicate Covers(m: Graph, es: seq<Act>, rest: seq<Act>) {
    forall e {:trigger Dominated(m, e, rest)} :: e in es ==> Dominated(m, e, rest)
  }

  lemma CoversRefl(m: Graph, es: seq<Act>)
    ensures Covers(m, es, es)
  {
    forall e | e in es ensures Dominated(m, e, es) {
      ReachRefl(m, e);
    }
  }

  lemma CoversTrans(m: Graph, es: seq<Act>, mid: seq<Act>, rest: seq<Act>)
    requires Covers(m, es, mid) && Covers(m, mid, rest)
    ensures Covers(m, es, rest)
  {
    forall e | e in es ensures Dominated(m, e, rest) {
      assert Dominated(m, e, mid);
      var k :| k in mid && Reach(m, e, k);
      assert Dominated(m, k, rest);
      var l :| l in rest && Reach(m, k, l);
      ReachTrans(m, e, k, l);
    }
  }

  lemma CoversErase(m: Graph, es: seq<Act>, rest: seq<Act>, i: nat, heir: Act)
    requires Covers(m, es, rest) && i < |rest| && Reach(m, rest[i], heir)
    requires heir in Erase(rest, i)
    ensures Covers(m, es, Erase(rest, i))
  {
    forall e | e in rest ensures Dominated(m, e, Erase(rest, i)) {
      if e == rest[i] {
      } else {
        ReachRefl(m, e);
      }
    }
    CoversTrans(m, es, rest, Erase(rest, i));
  }

  lemma EraseUnreachable(m: Graph, es: seq<Act>, k: nat, i: nat)
    requires UnreachableUpTo(m, es, i) && i <= k < |es|
    ensures UnreachableUpTo(m, Erase(es, k), i)
  {}

  /** In-edges and out-edges agree, except that `a` has already left the in-lists of its first `i` targets. */
  ghost predicate InOutBut(g: Graph, a: Act, i: nat)
    requires a in g && i <= |g[a].edges|
  {
    && (forall u, v {:trigger v in g[u].edges} {:trigger u in g[v].inedges} :: u in g && v in g ==>
          (u in g[v].inedges <==> v in g[u].edges && (u == a ==> v !in g[a].edges[..i])))
    && (forall u :: u in g ==> Distinct(g[u].edges) && Distinct(g[u].inedges))
    && (forall u, v :: u in g && v in g[u].inedges ==> v in g)
  }

  /** `cur` is `g` after the first `i` out-edges of `a` have been handed to `rmw`. */
  ghost predicate Transferring(g: Graph, a: Act, rmw: Act, i: nat, cur: Graph)
    requires a in g && i <= |g[a].edges|
  {
    TransferShape(g, a, rmw, i, cur) && InOutBut(cur, a, i)
  }

  /** The out-edges, clocks and RMW pointers half way through the transfer. */
  ghost predicate TransferShape(g: Graph, a: Act, rmw: Act, i: nat, cur: Graph)
    requires a in g && i <= |g[a].edges|
  {
    && rmw in g && a != rmw && cur.Keys == g.Keys
    && (forall n :: n in g ==> cur[n].cv == g[n].cv && cur[n].rmw == if n == a then Some(rmw) else g[n].rmw)
    && (forall n :: n in g && n != rmw ==> cur[n].edges == g[n].edges)
    && (forall v :: v in cur[rmw].edges <==> v in g[rmw].edges || (v in g[a].edges[..i] && v != rmw))
  }

  lemma TransferStart(g: Graph, a: Act, rmw: Act)
    requires Closed(g) && InOut(g) && SpliceReady(g, a, rmw)
    ensures Transferring(g, a, rmw, 0, g[a := g[a].(rmw := Some(rmw))])
  {}

  lemma TransferEnd(g: Graph, a: Act, rmw: Act, cur: Graph)
    requires a in g && Transferring(g, a, rmw, |g[a].edges|, cur)
    ensures a in cur && Spliced(g, a, rmw, cur[a := cur[a].(edges := [])])
  {
    assert g[a].edges[..|g[a].edges|] == g[a].edges;
  }

  lemma TransferAdd(cur: Graph, a: Act, rmw: Act, i: nat, to: Act)
    requires a in cur && rmw in cur && to in cur && a != rmw && i <= |cur[a].edges| && InOutBut(cur, a, i)
    ensures InOutBut(WithEdge(cur, rmw, to), a, i) && Distinct(WithEdge(cur, rmw, to)[to].inedges)
  {}

  lemma TransferRemove(cur: Graph, a: Act, i: nat, to: Act)
    requires a in cur && i < |cur[a].edges| && InOutBut(cur, a, i) && cur[a].edges[i] == to && to in cur
    ensures InOutBut(cur[to := cur[to].(inedges := SwapRemove(cur[to].inedges, a))], a, i + 1)
  {
    assert cur[a].edges[..i + 1] == cur[a].edges[..i] + [to];
  }

  lemma TransferShapeStep(g: Graph, a: Act, rmw: Act, i: nat, cur: Graph, ins: seq<Act>)
    requires a in g && i < |g[a].edges| && g[a].edges[i] in g
    requires TransferShape(g, a, rmw, i, cur)
    ensures var to := g[a].edges[i];
            var m := if to == rmw then cur else WithEdge(cur, rmw, to);
            TransferShape(g, a, rmw, i + 1, m[to := m[to].(inedges := ins)])
  {
    assert g[a].edges[..i + 1] == g[a].edges[..i] + [g[a].edges[i]];
  }

  /** One turn of the transfer loop. */
  lemma TransferStep(g: Graph, a: Act, rmw: Act, i: nat, cur: Graph)
    requires a in g && i < |g[a].edges| && g[a].edges[i] in g
    requires Transferring(g, a, rmw, i, cur)
    ensures var to := g[a].edges[i];
            var m := if to == rmw then cur else WithEdge(cur, rmw, to);
            to in m && Distinct(m[to].inedges) &&
            Transferring(g, a, rmw, i + 1, m[to := m[to].(inedges := SwapRemove(m[to].inedges, a))])
  {
    var to := g[a].edges[i];
    assert Distinct(cur[to].inedges);
    TransferAdd(cur, a, rmw, i, to);
    var m := if to == rmw then cur else WithEdge(cur, rmw, to);
    assert m[a].edges == g[a].edges;
    hide InOutBut;
    hide TransferShape;
    TransferRemove(m, a, i, to);
    TransferShapeStep(g, a, rmw, i, cur, SwapRemove(m[to].inedges, a));
  }

  lemma SplicedAscends(g: Graph, a: Act, rmw: Act, h: Graph)
    requires Closed(g) && RmwAscends(g) && SpliceReady(g, a, rmw) && Spliced(g, a, rmw, h)
    ensures Closed(h) && RmwAscends(h)
  {
    forall n, m | RmwOf(h, n, m) ensures m in h && n.loc == m.loc && n.seqno < m.seqno {
      if n != a {
        assert RmwOf(g, n, m);
      }
    }
    forall u, v | Edge(h, u, v) ensures v in h && v.loc == u.loc {
      assert Edge(g, u, v) || (u == rmw && Edge(g, a, v));
    }
  }
}
