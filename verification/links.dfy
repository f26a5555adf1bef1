/**
 A doubly linked list as pointers: what splicing an element in and out does to the sequence the
 pointers stand for.
 */
module Links {
  import opened Sequences
  import opened Options

  /** The pointers of the list nodes, and of the list itself. A node is named by what it holds. */
  datatype Chain<T(==)> = Chain(next: map<T, Option<T>>, prev: map<T, Option<T>>, head: Option<T>, tail: Option<T>)

  function At<T>(l: seq<T>, k: int): Option<T> {
    if 0 <= k < |l| then Some(l[k]) else None
  }

  ghost predicate NodeOk<T>(l: seq<T>, c: Chain<T>, k: nat) {
    k < |l| ==> l[k] in c.next && l[k] in c.prev && c.next[l[k]] == At(l, k + 1) && c.prev[l[k]] == At(l, k - 1)
  }

  /** The pointers stand for the sequence `l`; what nodes outside it hold does not matter. */
  ghost predicate Linked<T>(l: seq<T>, c: Chain<T>) {
    && Distinct(l) && c.head == At(l, 0) && c.tail == At(l, |l| - 1)
    && (forall k {:trigger NodeOk(l, c, k)} :: NodeOk(l, c, k))
  }

  function PutIn<T>(l: seq<T>, k: nat, x: T): seq<T>
    requires k <= |l|
  {
    l[..k] + [x] + l[k..]
  }

  function TakenOut<T>(l: seq<T>, k: nat): seq<T>
    requires k < |l|
  {
    l[..k] + l[k + 1..]
  }

  /** Splicing `x` in after `p`, or at the front. */
  function SplicedIn<T>(c: Chain<T>, p: Option<T>, x: T): Chain<T> {
    var n := if p.None? then c.head else if p.value in c.next then c.next[p.value] else None;
    Chain(if p.Some? then c.next[x := n][p.value := Some(x)] else c.next[x := n],
          if n.Some? then c.prev[x := p][n.value := Some(x)] else c.prev[x := p],
          if p.Some? then c.head else Some(x),
          if n.Some? then c.tail else Some(x))
  }

  /** Splicing `x` out. */
  function SplicedOut<T>(c: Chain<T>, x: T): Chain<T>
    requires x in c.next && x in c.prev
  {
    var p, n := c.prev[x], c.next[x];
    Chain((if p.Some? then c.next[p.value := n] else c.next) - {x},
          (if n.Some? then c.prev[n.value := p] else c.prev) - {x},
          if p.Some? then c.head else n,
          if n.Some? then c.tail else p)
  }

  lemma SameNode<T>(l: seq<T>, j: nat, k: nat)
    requires Distinct(l) && j < |l| && k < |l|
    ensures l[j] == l[k] <==> j == k
  {
  }

  lemma PutInAt<T>(l: seq<T>, k: nat, x: T, j: int)
    requires k <= |l|
    ensures At(PutIn(l, k, x), j) == if j < k then At(l, j) else if j == k then Some(x) else At(l, j - 1)
  {
  }

  lemma PutInMembers<T>(l: seq<T>, k: nat, x: T)
    requires k <= |l| && Distinct(l) && x !in l
    ensures Distinct(PutIn(l, k, x)) && forall y :: y in PutIn(l, k, x) <==> y == x || y in l
  {
    assert l == l[..k] + l[k..];
    forall y ensures y in PutIn(l, k, x) <==> y == x || y in l {
      assert y in l <==> y in l[..k] || y in l[k..];
    }
  }

  lemma SplicedInNode<T>(l: seq<T>, c: Chain<T>, k: nat, x: T, j: nat)
    requires Linked(l, c) && k <= |l| && x !in l
    ensures NodeOk(PutIn(l, k, x), SplicedIn(c, At(l, k - 1), x), j)
  {
    var m, i := PutIn(l, k, x), if j < k then j else j - 1;
    if k > 0 {
      assert NodeOk(l, c, k - 1);
    }
    assert k < |l| ==> NodeOk(l, c, k);
    PutInAt(l, k, x, j - 1);
    PutInAt(l, k, x, j);
    PutInAt(l, k, x, j + 1);
    if j < |m| && j != k {
      assert NodeOk(l, c, i);
      if k > 0 { SameNode(l, i, k - 1); }
      if k < |l| { SameNode(l, i, k); }
    }
  }

  lemma SplicedInOk<T>(l: seq<T>, c: Chain<T>, k: nat, x: T)
    requires Linked(l, c) && k <= |l| && x !in l
    ensures Linked(PutIn(l, k, x), SplicedIn(c, At(l, k - 1), x))
  {
    var m, c' := PutIn(l, k, x), SplicedIn(c, At(l, k - 1), x);
    PutInMembers(l, k, x);
    PutInAt(l, k, x, 0);
    PutInAt(l, k, x, |l|);
    forall j ensures NodeOk(m, c', j) {
      SplicedInNode(l, c, k, x, j);
    }
    if k > 0 {
      assert NodeOk(l, c, k - 1);
    }
  }

  lemma TakenOutAt<T>(l: seq<T>, k: nat, j: int)
    requires k < |l|
    ensures At(TakenOut(l, k), j) == if j < k then At(l, j) else At(l, j + 1)
  {
  }

  lemma TakenOutMembers<T>(l: seq<T>, k: nat)
    requires k < |l| && Distinct(l)
    ensures Distinct(TakenOut(l, k)) && forall y :: y in TakenOut(l, k) <==> y in l && y != l[k]
  {
    assert l == l[..k] + [l[k]] + l[k + 1..];
    forall y ensures y in TakenOut(l, k) <==> y in l && y != l[k] {
      assert y in l <==> y in l[..k] || y == l[k] || y in l[k + 1..];
    }
  }

  lemma SplicedOutNode<T>(l: seq<T>, c: Chain<T>, k: nat, j: nat)
    requires Linked(l, c) && k < |l| && l[k] in c.next && l[k] in c.prev
    ensures NodeOk(TakenOut(l, k), SplicedOut(c, l[k]), j)
  {
    var m, i := TakenOut(l, k), if j < k then j else j + 1;
    assert NodeOk(l, c, k);
    TakenOutAt(l, k, j - 1);
    TakenOutAt(l, k, j);
    TakenOutAt(l, k, j + 1);
    if j < |m| {
      assert NodeOk(l, c, i);
      SameNode(l, i, k);
      if k > 0 { SameNode(l, i, k - 1); }
      if k + 1 < |l| { SameNode(l, i, k + 1); }
    }
  }

  lemma SplicedOutOk<T>(l: seq<T>, c: Chain<T>, k: nat)
    requires Linked(l, c) && k < |l|
    ensures l[k] in c.next && l[k] in c.prev && Linked(TakenOut(l, k), SplicedOut(c, l[k]))
  {
    assert NodeOk(l, c, k);
    var m, c' := TakenOut(l, k), SplicedOut(c, l[k]);
    TakenOutMembers(l, k);
    TakenOutAt(l, k, 0);
    TakenOutAt(l, k, |l| - 2);
    forall j ensures NodeOk(m, c', j) {
      SplicedOutNode(l, c, k, j);
    }
    if k > 0 { SameNode(l, k, k - 1); }
    if k + 1 < |l| { SameNode(l, k, k + 1); }
  }

  /** Only the single element of a list has the same neighbour, none, on both sides. */
  lemma AloneTest<T>(l: seq<T>, c: Chain<T>, k: nat)
    requires Linked(l, c) && k < |l|
    ensures l[k] in c.next && l[k] in c.prev && (c.next[l[k]] == c.prev[l[k]] <==> |l| == 1)
  {
    assert NodeOk(l, c, k);
    if 0 < k && k + 1 < |l| { SameNode(l, k - 1, k + 1); }
  }

  /** Following the pointers from any node meets the elements in order. */
  lemma NextOf<T>(l: seq<T>, c: Chain<T>, k: nat)
    requires Linked(l, c) && k < |l|
    ensures l[k] in c.next && l[k] in c.prev && c.next[l[k]] == At(l, k + 1) && c.prev[l[k]] == At(l, k - 1)
  {
    assert NodeOk(l, c, k);
  }
}
