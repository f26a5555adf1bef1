/**
 The index of an action list: a trie over clock values with 16 children a node and 8 levels.
 A node is named by its level and by the clock prefix that all clocks below it share.
 */
module Tries {
  import opened Options
  import opened PowersOfTwo

  const NODESIZE := 16
  const TOP := 7  // the level of the root; the children at level 0 are list nodes
  const CLOCKS := 0x1_0000_0000

  /** An action, by identity, and its sequence number. */
  datatype Item = Item(id: nat, clock: nat)

  /** A child pointer: to the node one level down, or at level 0 to the last action of a clock. */
  datatype Child = Null | Down | Last(item: Item)

  datatype AllNode = AllNode(children: seq<Child>, count: nat)

  type Trie = map<(nat, nat), AllNode>

  function Width(l: nat): (w: nat)
    ensures w > 0
  {
    if l == 0 then 1 else 16 * Width(l - 1)
  }

  /** The clock without its lowest `l` digits: a right shift by four bits a digit. */
  function Up(c: nat, l: nat): nat {
    if l == 0 then c else Up(c / 16, l - 1)
  }

  lemma {:induction false} UpNext(c: nat, l: nat)
    ensures Up(c, l + 1) == Up(c, l) / 16
  {
    if l > 0 {
      UpNext(c / 16, l - 1);
    }
  }

  lemma {:induction false} UpMono(c: nat, d: nat, l: nat)
    requires c <= d
    ensures Up(c, l) <= Up(d, l)
  {
    if l > 0 {
      UpMono(c / 16, d / 16, l - 1);
    }
  }

  lemma {:induction false} UpSmall(c: nat, l: nat)
    ensures c < Width(l) <==> Up(c, l) == 0
  {
    if l > 0 {
      UpSmall(c / 16, l - 1);
    }
  }

  lemma TopWidth()
    ensures Width(TOP + 1) == CLOCKS
  {
    assert Width(4) == 0x1_0000;
  }

  lemma TopUp(c: nat)
    requires c < CLOCKS
    ensures Up(c, TOP + 1) == 0
  {
    TopWidth();
    UpSmall(c, TOP + 1);
  }

  /** The lowest `l` digits are all 15. */
  predicate Ones(c: nat, l: nat) {
    l == 0 || (c % 16 == 15 && Ones(c / 16, l - 1))
  }

  lemma {:induction false} OnesNext(c: nat, l: nat)
    ensures Ones(c, l + 1) <==> Ones(c, l) && Up(c, l) % 16 == 15
  {
    if l > 0 {
      OnesNext(c / 16, l - 1);
    }
  }

  /** Taking one off digit `l` leaves the digits below alone. */
  lemma {:induction false} UpMinus(c: nat, l: nat)
    requires c >= Width(l)
    ensures Up(c - Width(l), l) == Up(c, l) - 1
    ensures Ones(c, l) ==> Ones(c - Width(l), l)
  {
    if l > 0 {
      assert (c - Width(l)) / 16 == c / 16 - Width(l - 1);
      UpMinus(c / 16, l - 1);
    }
  }

  lemma {:induction false} OnesSmall(c: nat, l: nat)
    requires Ones(c, l) && Up(c, l) == 0
    ensures c == Width(l) - 1
  {
    if l > 0 {
      OnesSmall(c / 16, l - 1);
    }
  }

  lemma {:induction false} OnesWidth(l: nat, k: nat)
    requires l <= k
    ensures Ones(Width(k) - 1, l) && Up(Width(k) - 1, l) == Width(k - l) - 1
  {
    if l > 0 {
      assert (Width(k) - 1) / 16 == Width(k - 1) - 1;
      OnesWidth(l - 1, k - 1);
    }
  }

  /** Some clock of `s` has prefix `p` above its lowest `l` digits. */
  ghost predicate Below(s: set<nat>, l: nat, p: nat) {
    exists c :: c in s && Up(c, l) == p
  }

  function NonNull(cs: seq<Child>): nat {
    if cs == [] then 0 else (if cs[0].Null? then 0 else 1) + NonNull(cs[1..])
  }

  lemma {:induction false} NonNullUpdate(cs: seq<Child>, i: nat, c: Child)
    requires i < |cs|
    ensures NonNull(cs[i := c]) == NonNull(cs) - (if cs[i].Null? then 0 else 1) + (if c.Null? then 0 else 1)
  {
    if i == 0 {
      assert cs[i := c][1..] == cs[1..];
    } else {
      NonNullUpdate(cs[1..], i - 1, c);
      assert cs[i := c][1..] == cs[1..][i - 1 := c];
    }
  }

  lemma {:induction false} NonNullZero(cs: seq<Child>)
    ensures NonNull(cs) == 0 <==> forall i :: 0 <= i < |cs| ==> cs[i].Null?
  {
    if cs != [] {
      NonNullZero(cs[1..]);
      assert forall i :: 1 <= i < |cs| ==> cs[i] == cs[1..][i - 1];
    }
  }

  // ----- what a trie holds -----

  /** The clocks that the children at level `l` account for, while `low` and `high` meet at level `k`. */
  function SetAt(low: set<nat>, high: set<nat>, k: nat, l: nat): set<nat> {
    if l < k then low else high
  }

  ghost predicate HasNode(low: set<nat>, high: set<nat>, k: nat, l: nat, p: nat) {
    l <= TOP && ((l == TOP && p == 0) || Below(SetAt(low, high, k, l + 1), l + 1, p))
  }

  ghost predicate ChildOk(last: map<nat, Item>, s: set<nat>, l: nat, p: nat, c: Child) {
    if !Below(s, l, p) then c.Null?
    else if l == 0 then p in last && c == Last(last[p])
    else c.Down?
  }

  ghost predicate NodeOk(last: map<nat, Item>, s: set<nat>, l: nat, p: nat, n: AllNode) {
    && |n.children| == NODESIZE && n.count == NonNull(n.children)
    && forall i :: 0 <= i < NODESIZE ==> ChildOk(last, s, l, 16 * p + i, n.children[i])
  }

  /**
   The trie has exactly the nodes and children that the clocks need: those of `low` below
   level `k` and those of `high` from there up.
   */
  ghost predicate Halfway(t: Trie, last: map<nat, Item>, low: set<nat>, high: set<nat>, k: nat) {
    && (forall l: nat, p: nat {:trigger (l, p) in t} :: (l, p) in t <==> HasNode(low, high, k, l, p))
    && (forall l: nat, p: nat {:trigger t[(l, p)]} :: (l, p) in t ==> NodeOk(last, SetAt(low, high, k, l), l, p, t[(l, p)]))
  }

  ghost predicate Indexes(t: Trie, last: map<nat, Item>) {
    Halfway(t, last, last.Keys, last.Keys, 0)
  }

  lemma BelowAdd(s: set<nat>, c: nat, l: nat, p: nat)
    ensures Below(s + {c}, l, p) <==> Below(s, l, p) || Up(c, l) == p
  {
    if Below(s, l, p) {
      var d :| d in s && Up(d, l) == p;
      assert d in s + {c};
    }
    if Up(c, l) == p {
      assert c in s + {c};
    }
  }

  lemma BelowUp(s: set<nat>, l: nat, p: nat, i: nat)
    requires Below(s, l, 16 * p + i) && i < NODESIZE
    ensures Below(s, l + 1, p)
  {
    var d :| d in s && Up(d, l) == 16 * p + i;
    UpNext(d, l);
  }

  lemma BelowDown(s: set<nat>, l: nat, p: nat) returns (i: nat)
    requires Below(s, l + 1, p)
    ensures i < NODESIZE && Below(s, l, 16 * p + i)
  {
    var d :| d in s && Up(d, l + 1) == p;
    UpNext(d, l);
    i := Up(d, l) % 16;
  }

  /** The digit of `c` at level `l`. */
  function Digit(c: nat, l: nat): (i: nat)
    ensures i < NODESIZE
  {
    Up(c, l) % 16
  }

  // ----- adding a clock, level by level from the root -----

  /** `addAction` at an inner level: makes the missing node below. */
  function AddedNode(t: Trie, c: nat, l: nat): Trie
    requires l > 0 && (l, Up(c, l + 1)) in t && Digit(c, l) < |t[(l, Up(c, l + 1))].children|
  {
    var n := t[(l, Up(c, l + 1))];
    if n.children[Digit(c, l)].Null? then
      t[(l, Up(c, l + 1)) := AllNode(n.children[Digit(c, l) := Down], n.count + 1)]
       [(l - 1, Up(c, l)) := AllNode(seq(NODESIZE, _ => Null), 0)]
    else t
  }

  /** `addAction` at level 0: the child now points to the new action. */
  function AddedLast(t: Trie, x: Item): Trie
    requires (0, Up(x.clock, 1)) in t && Digit(x.clock, 0) < |t[(0, Up(x.clock, 1))].children|
  {
    var n := t[(0, Up(x.clock, 1))];
    t[(0, Up(x.clock, 1)) := AllNode(n.children[Digit(x.clock, 0) := Last(x)],
                                  n.count + if n.children[Digit(x.clock, 0)].Null? then 1 else 0)]
  }

  /** The node on the way to `c` at the level where the two halves meet. */
  lemma OnTheWay(t: Trie, last: map<nat, Item>, low: set<nat>, high: set<nat>, c: nat, l: nat)
    requires Halfway(t, last, low, high, l + 1) && c in high && c < CLOCKS && l <= TOP
    ensures (l, Up(c, l + 1)) in t && NodeOk(last, low, l, Up(c, l + 1), t[(l, Up(c, l + 1))])
    ensures 16 * Up(c, l + 1) + Digit(c, l) == Up(c, l)
  {
    UpNext(c, l);
    OnTheWayUp(t, last, low, high, c, l, l + 1);
  }

  lemma OnTheWayUp(t: Trie, last: map<nat, Item>, low: set<nat>, high: set<nat>, c: nat, l: nat, k: nat)
    requires Halfway(t, last, low, high, k) && k <= l + 1 && c in high && c < CLOCKS && l <= TOP
    ensures (l, Up(c, l + 1)) in t && NodeOk(last, SetAt(low, high, k, l), l, Up(c, l + 1), t[(l, Up(c, l + 1))])
  {
    TopUp(c);
    assert l < TOP ==> Below(high, l + 1, Up(c, l + 1));
    assert HasNode(low, high, k, l, Up(c, l + 1));
  }

  lemma NoChildren(last: map<nat, Item>, l: nat, p: nat, s: set<nat>)
    requires !Below(s, l + 1, p)
    ensures NodeOk(last, s, l, p, AllNode(seq(NODESIZE, _ => Null), 0))
  {
    var cs: seq<Child> := seq(NODESIZE, _ => Null);
    NonNullZero(cs);
    forall i: nat | i < NODESIZE ensures ChildOk(last, s, l, 16 * p + i, cs[i]) {
      if Below(s, l, 16 * p + i) {
        BelowUp(s, l, p, i);
      }
    }
  }

  lemma AddedNodeOk(t: Trie, last: map<nat, Item>, s: set<nat>, c: nat, l: nat)
    requires Halfway(t, last, s, s + {c}, l + 1) && c < CLOCKS && 0 < l <= TOP
    ensures (l, Up(c, l + 1)) in t && |t[(l, Up(c, l + 1))].children| == NODESIZE
    ensures Halfway(AddedNode(t, c, l), last, s, s + {c}, l)
  {
    var high, q, i := s + {c}, Up(c, l + 1), Digit(c, l);
    OnTheWay(t, last, s, high, c, l);
    var n, u := t[(l, q)], AddedNode(t, c, l);
    assert ChildOk(last, s, l, 16 * q + i, n.children[i]);
    forall l': nat, p: nat ensures (l', p) in u <==> HasNode(s, high, l, l', p) {
      assert (l', p) in t <==> HasNode(s, high, l + 1, l', p);
      if l' + 1 == l {
        BelowAdd(s, c, l, p);
      }
    }
    forall l': nat, p: nat | (l', p) in u ensures NodeOk(last, SetAt(s, high, l, l'), l', p, u[(l', p)]) {
      if l' == l {
        AddedNodeHere(t, last, s, c, l, p);
      } else if (l', p) !in t {
        NoChildren(last, l - 1, p, s);
      } else {
        assert NodeOk(last, SetAt(s, high, l + 1, l'), l', p, t[(l', p)]);
      }
    }
  }

  lemma AddedNodeHere(t: Trie, last: map<nat, Item>, s: set<nat>, c: nat, l: nat, p: nat)
    requires Halfway(t, last, s, s + {c}, l + 1) && c < CLOCKS && 0 < l <= TOP && (l, p) in t
    requires (l, Up(c, l + 1)) in t && |t[(l, Up(c, l + 1))].children| == NODESIZE
    ensures (l, p) in AddedNode(t, c, l) && NodeOk(last, s + {c}, l, p, AddedNode(t, c, l)[(l, p)])
  {
    OnTheWay(t, last, s, s + {c}, c, l);
    var n, m := t[(l, p)], AddedNode(t, c, l)[(l, p)];
    assert NodeOk(last, s, l, p, n);
    if p == Up(c, l + 1) {
      NonNullUpdate(n.children, Digit(c, l), Down);
    }
    forall i | 0 <= i < NODESIZE ensures ChildOk(last, s + {c}, l, 16 * p + i, m.children[i]) {
      BelowAdd(s, c, l, 16 * p + i);
      assert ChildOk(last, s, l, 16 * p + i, n.children[i]);
    }
  }

  lemma AddedLastOk(t: Trie, last: map<nat, Item>, x: Item)
    requires Halfway(t, last, last.Keys, last.Keys + {x.clock}, 1) && x.clock < CLOCKS
    ensures (0, Up(x.clock, 1)) in t && |t[(0, Up(x.clock, 1))].children| == NODESIZE
    ensures Indexes(AddedLast(t, x), last[x.clock := x])
  {
    var s, c, last' := last.Keys, x.clock, last[x.clock := x];
    OnTheWay(t, last, s, s + {c}, c, 0);
    var u := AddedLast(t, x);
    assert last'.Keys == s + {c};
    forall l: nat, p: nat ensures (l, p) in u <==> HasNode(last'.Keys, last'.Keys, 0, l, p) {
      assert (l, p) in t <==> HasNode(s, s + {c}, 1, l, p);
    }
    forall l: nat, p: nat | (l, p) in u ensures NodeOk(last', last'.Keys, l, p, u[(l, p)]) {
      assert NodeOk(last, SetAt(s, s + {c}, 1, l), l, p, t[(l, p)]);
      if l == 0 {
        AddedLastHere(t[(0, p)], u[(0, p)], last, x, p);
      } else {
        forall i | 0 <= i < NODESIZE ensures ChildOk(last', last'.Keys, l, 16 * p + i, u[(l, p)].children[i]) {
          assert ChildOk(last, last'.Keys, l, 16 * p + i, t[(l, p)].children[i]);
        }
      }
    }
  }

  lemma AddedLastHere(n: AllNode, m: AllNode, last: map<nat, Item>, x: Item, p: nat)
    requires NodeOk(last, last.Keys, 0, p, n)
    requires if p == Up(x.clock, 1)
             then m == AllNode(n.children[Digit(x.clock, 0) := Last(x)], n.count + if n.children[Digit(x.clock, 0)].Null? then 1 else 0)
             else m == n
    ensures NodeOk(last[x.clock := x], last.Keys + {x.clock}, 0, p, m)
  {
    UpNext(x.clock, 0);
    if p == Up(x.clock, 1) {
      NonNullUpdate(n.children, Digit(x.clock, 0), Last(x));
    }
    forall i | 0 <= i < NODESIZE ensures ChildOk(last[x.clock := x], last.Keys + {x.clock}, 0, 16 * p + i, m.children[i]) {
      BelowAdd(last.Keys, x.clock, 0, 16 * p + i);
      assert ChildOk(last, last.Keys, 0, 16 * p + i, n.children[i]);
    }
  }

  // ----- removing a clock, level by level towards the root -----

  /** A node whose child on the way to `c` has been cleared and whose count has been decremented. */
  function Cleared(n: AllNode, i: nat): AllNode
    requires i < |n.children| && n.count > 0
  {
    AllNode(n.children[i := Null], n.count - 1)
  }

  lemma BelowLess(s: set<nat>, c: nat, l: nat, p: nat)
    ensures Below(s, l, p) && !Below(s - {c}, l, p) ==> Up(c, l) == p
    ensures Below(s - {c}, l, p) ==> Below(s, l, p)
  {
    if Below(s, l, p) && !Below(s - {c}, l, p) {
      var d :| d in s && Up(d, l) == p;
      assert d == c;
    }
  }

  /** Clearing the child of `c` in its node, once nothing else is below that child. */
  lemma ClearedOk(last: map<nat, Item>, last': map<nat, Item>, s: set<nat>, c: nat, l: nat, p: nat, n: AllNode)
    requires NodeOk(last, s, l, p, n) && c in s && last' == last - {c}
    requires p == Up(c, l + 1) && !Below(s - {c}, l, Up(c, l))
    ensures n.count > 0 && NodeOk(last', s - {c}, l, p, Cleared(n, Digit(c, l)))
  {
    UpNext(c, l);
    var i := Digit(c, l);
    assert Below(s, l, 16 * p + i);
    assert ChildOk(last, s, l, 16 * p + i, n.children[i]);
    NonNullUpdate(n.children, i, Null);
    var m := n.children[i := Null];
    forall j | 0 <= j < NODESIZE ensures ChildOk(last', s - {c}, l, 16 * p + j, m[j]) {
      BelowLess(s, c, l, 16 * p + j);
      assert ChildOk(last, s, l, 16 * p + j, n.children[j]);
      if l == 0 && Below(s - {c}, 0, 16 * p + j) {
        assert 16 * p + j != c;
      }
    }
  }

  lemma NodeKept(last: map<nat, Item>, last': map<nat, Item>, s: set<nat>, c: nat, l: nat, p: nat, n: AllNode)
    requires NodeOk(last, s, l, p, n) && last' == last - {c}
    requires Up(c, l + 1) != p || (l > 0 && Below(s - {c}, l, Up(c, l)))
    ensures NodeOk(last', s - {c}, l, p, n)
  {
    UpNext(c, l);
    forall j | 0 <= j < NODESIZE ensures ChildOk(last', s - {c}, l, 16 * p + j, n.children[j]) {
      BelowLess(s, c, l, 16 * p + j);
      assert ChildOk(last, s, l, 16 * p + j, n.children[j]);
    }
  }

  lemma HigherKept(last: map<nat, Item>, last': map<nat, Item>, s: set<nat>, c: nat, l: nat, p: nat, n: AllNode)
    requires l > 0 && NodeOk(last, s, l, p, n)
    ensures NodeOk(last', s, l, p, n)
  {
    forall j | 0 <= j < NODESIZE ensures ChildOk(last', s, l, 16 * p + j, n.children[j]) {
      assert ChildOk(last, s, l, 16 * p + j, n.children[j]);
    }
  }

  function RemovedLast(t: Trie, c: nat): Trie
    requires (0, Up(c, 1)) in t && Digit(c, 0) < |t[(0, Up(c, 1))].children| && t[(0, Up(c, 1))].count > 0
  {
    t[(0, Up(c, 1)) := Cleared(t[(0, Up(c, 1))], Digit(c, 0))]
  }

  /** `removeAction` of the only action with its clock: the leaf goes, the nodes above are still there. */
  lemma RemovedLastOk(t: Trie, last: map<nat, Item>, c: nat)
    requires Indexes(t, last) && c in last && c < CLOCKS
    ensures (0, Up(c, 1)) in t && |t[(0, Up(c, 1))].children| == NODESIZE && t[(0, Up(c, 1))].count > 0
    ensures Halfway(RemovedLast(t, c), last - {c}, last.Keys - {c}, last.Keys, 1)
  {
    var s, last' := last.Keys, last - {c};
    assert Below(s, 1, Up(c, 1));
    assert HasNode(s, s, 0, 0, Up(c, 1));
    assert Below(s, 0, Up(c, 0));
    ClearedOk(last, last', s, c, 0, Up(c, 1), t[(0, Up(c, 1))]);
    var u := RemovedLast(t, c);
    forall l: nat, p: nat ensures (l, p) in u <==> HasNode(s - {c}, s, 1, l, p) {
      assert (l, p) in t <==> HasNode(s, s, 0, l, p);
    }
    forall l: nat, p: nat | (l, p) in u ensures NodeOk(last', SetAt(s - {c}, s, 1, l), l, p, u[(l, p)]) {
      assert NodeOk(last, s, l, p, t[(l, p)]);
      if l > 0 {
        HigherKept(last, last', s, c, l, p, t[(l, p)]);
      } else if p != Up(c, 1) {
        NodeKept(last, last', s, c, 0, p, t[(0, p)]);
      }
    }
  }

  /** A node that still has children, or the root: every level above already agrees. */
  lemma RemovalStops(t: Trie, last: map<nat, Item>, s: set<nat>, c: nat, l: nat)
    requires Halfway(t, last, s - {c}, s, l + 1) && c in s && c < CLOCKS && l <= TOP && last.Keys == s - {c}
    ensures (l, Up(c, l + 1)) in t
    ensures t[(l, Up(c, l + 1))].count > 0 || l == TOP ==> Indexes(t, last)
  {
    OnTheWay(t, last, s - {c}, s, c, l);
    var n := t[(l, Up(c, l + 1))];
    NonNullZero(n.children);
    if n.count > 0 || l == TOP {
      if n.count > 0 {
        var i :| 0 <= i < NODESIZE && !n.children[i].Null?;
        assert ChildOk(last, s - {c}, l, 16 * Up(c, l + 1) + i, n.children[i]);
        BelowUp(s - {c}, l, Up(c, l + 1), i);
      }
      forall l': nat, p: nat ensures (l', p) in t <==> HasNode(s - {c}, s - {c}, 0, l', p) {
        assert (l', p) in t <==> HasNode(s - {c}, s, l + 1, l', p);
        if l == TOP {
          TopUp(c);
          BelowLess(s, c, l' + 1, p);
        } else {
          AboveAgrees(s, c, l, l' + 1, p);
        }
      }
      forall l': nat, p: nat | (l', p) in t ensures NodeOk(last, s - {c}, l', p, t[(l', p)]) {
        assert NodeOk(last, SetAt(s - {c}, s, l + 1, l'), l', p, t[(l', p)]);
        assert HasNode(s - {c}, s, l + 1, l', p);
        if l' > l {
          forall i | 0 <= i < NODESIZE ensures ChildOk(last, s - {c}, l', 16 * p + i, t[(l', p)].children[i]) {
            AboveAgrees(s, c, l, l', 16 * p + i);
            assert ChildOk(last, s, l', 16 * p + i, t[(l', p)].children[i]);
          }
        }
      }
    }
  }

  /** Once some other clock shares the prefix at level `l` + 1, no higher level can tell `c` is gone. */
  lemma AboveAgrees(s: set<nat>, c: nat, l: nat, k: nat, p: nat)
    requires k > l ==> Below(s - {c}, l + 1, Up(c, l + 1))
    ensures k > l ==> (Below(s, k, p) <==> Below(s - {c}, k, p))
  {
    if k > l {
      BelowLess(s, c, k, p);
      var d :| d in s - {c} && Up(d, l + 1) == Up(c, l + 1);
      SameAbove(c, d, l + 1, k);
      assert Below(s - {c}, k, Up(c, k));
    }
  }

  lemma {:induction false} SameAbove(c: nat, d: nat, l: nat, k: nat)
    requires l <= k && Up(c, l) == Up(d, l)
    ensures Up(c, k) == Up(d, k)
    decreases k - l
  {
    if l < k {
      UpNext(c, l);
      UpNext(d, l);
      SameAbove(c, d, l + 1, k);
    }
  }

  function ParentOf(l: nat, p: nat): (nat, nat) {
    (l + 1, p / 16)
  }

  /** `decrementCount` reaching zero below the root: the node goes, and its parent's child is cleared. */
  function RemovedNode(t: Trie, l: nat, p: nat): Trie
    requires ParentOf(l, p) in t && p % 16 < |t[ParentOf(l, p)].children| && t[ParentOf(l, p)].count > 0
  {
    t[ParentOf(l, p) := Cleared(t[ParentOf(l, p)], p % 16)] - {(l, p)}
  }

  lemma RemovedNodeOk(t: Trie, last: map<nat, Item>, s: set<nat>, c: nat, l: nat)
    requires Halfway(t, last, s - {c}, s, l + 1) && c in s && c < CLOCKS && l < TOP && last.Keys == s - {c}
    requires (l, Up(c, l + 1)) in t && t[(l, Up(c, l + 1))].count == 0
    ensures ParentOf(l, Up(c, l + 1)) == (l + 1, Up(c, l + 2)) && (l + 1, Up(c, l + 2)) in t
    ensures |t[(l + 1, Up(c, l + 2))].children| == NODESIZE && t[(l + 1, Up(c, l + 2))].count > 0
    ensures Halfway(RemovedNode(t, l, Up(c, l + 1)), last, s - {c}, s, l + 2)
  {
    var p, q := Up(c, l + 1), Up(c, l + 2);
    UpNext(c, l + 1);
    NoneBelow(t, last, s, c, l);
    UpperNode(t, last, s, c, l);
    ClearedOk(last, last - {c}, s, c, l + 1, q, t[(l + 1, q)]);
    assert last - {c} == last;
    var u := RemovedNode(t, l, p);
    hide Below;
    hide Up;
    forall l': nat, p': nat ensures (l', p') in u <==> HasNode(s - {c}, s, l + 2, l', p') {
      assert (l', p') in t <==> HasNode(s - {c}, s, l + 1, l', p');
      if l' == l {
        BelowLess(s, c, l + 1, p');
      }
    }
    forall l': nat, p': nat | (l', p') in u ensures NodeOk(last, SetAt(s - {c}, s, l + 2, l'), l', p', u[(l', p')]) {
      assert NodeOk(last, SetAt(s - {c}, s, l + 1, l'), l', p', t[(l', p')]);
      if l' == l + 1 && p' != q {
        NodeKept(last, last, s, c, l + 1, p', t[(l', p')]);
      }
    }
  }

  lemma UpperNode(t: Trie, last: map<nat, Item>, s: set<nat>, c: nat, l: nat)
    requires Halfway(t, last, s - {c}, s, l + 1) && c in s && c < CLOCKS && l < TOP
    ensures (l + 1, Up(c, l + 2)) in t && NodeOk(last, s, l + 1, Up(c, l + 2), t[(l + 1, Up(c, l + 2))])
  {
    TopUp(c);
    assert Below(s, l + 2, Up(c, l + 2));
    assert HasNode(s - {c}, s, l + 1, l + 1, Up(c, l + 2));
  }

  lemma ChildNull(last: map<nat, Item>, s: set<nat>, l: nat, p: nat, n: AllNode, i: nat)
    requires NodeOk(last, s, l, p, n) && i < NODESIZE && n.children[i].Null?
    ensures !Below(s, l, 16 * p + i)
  {
    assert ChildOk(last, s, l, 16 * p + i, n.children[i]);
  }

  lemma NoneBelow(t: Trie, last: map<nat, Item>, s: set<nat>, c: nat, l: nat)
    requires Halfway(t, last, s - {c}, s, l + 1) && (l, Up(c, l + 1)) in t && t[(l, Up(c, l + 1))].count == 0
    ensures !Below(s - {c}, l + 1, Up(c, l + 1))
  {
    var n := t[(l, Up(c, l + 1))];
    NonNullZero(n.children);
    if Below(s - {c}, l + 1, Up(c, l + 1)) {
      var i := BelowDown(s - {c}, l, Up(c, l + 1));
      ChildNull(last, s - {c}, l, Up(c, l + 1), n, i);
      assert false;
    }
  }

  // ----- finding the action before a clock -----

  /** No clock below `c` has a prefix above `t` at level `l`. */
  ghost predicate NoneAbove(s: set<nat>, c: nat, l: nat, t: int) {
    forall d :: d in s && d < c ==> Up(d, l) <= t
  }

  /** The 32-bit search index whose prefix at level `l` is `t` and whose lower digits are all 15; -1 wraps. */
  predicate IndexAt(index: nat, l: nat, t: int) {
    if t < 0 then t == -1 && index == CLOCKS - 1 else index < CLOCKS && Up(index, l) == t && Ones(index, l)
  }

  /** Subtraction of an unsigned 32-bit number. */
  function Minus(a: nat, b: nat): (r: nat)
    requires a < CLOCKS && b <= CLOCKS
    ensures r < CLOCKS
  {
    if a >= b then a - b else a + CLOCKS - b
  }

  lemma {:induction false} WidthMono(l: nat, k: nat)
    requires l <= k
    ensures Width(l) <= Width(k)
    decreases k
  {
    if l < k {
      WidthMono(l, k - 1);
    }
  }

  lemma IndexDigit(index: nat, l: nat, t: int)
    requires IndexAt(index, l, t) && l <= TOP
    ensures Up(index, l) % 16 == if t < 0 then 15 else t % 16
  {
    if t < 0 {
      TopWidth();
      OnesWidth(l, TOP + 1);
    }
  }

  lemma IndexStart(c: nat)
    requires c < CLOCKS
    ensures IndexAt(Minus(c, 1), 0, c - 1)
  {
  }

  lemma IndexMinus(index: nat, l: nat, t: nat)
    requires IndexAt(index, l, t) && l <= TOP
    ensures Width(l) <= CLOCKS && IndexAt(Minus(index, Width(l)), l, t - 1)
  {
    TopWidth();
    WidthMono(l, TOP + 1);
    UpSmall(index, l);
    if t > 0 {
      UpMinus(index, l);
    } else {
      OnesSmall(index, l);
    }
  }

  /** After a borrow the digits already passed are all 15. */
  lemma IndexUp(index: nat, l: nat, q: nat)
    requires IndexAt(index, l, 16 * q - 1)
    ensures IndexAt(index, l + 1, q - 1)
  {
    if q > 0 {
      UpNext(index, l);
      OnesNext(index, l);
    }
  }

  lemma IndexDown(index: nat, l: nat, t: nat)
    requires IndexAt(index, l + 1, t)
    ensures IndexAt(index, l, 16 * t + 15)
  {
    UpNext(index, l);
    OnesNext(index, l);
  }

  /** What the search at level `l`, in the node with prefix `q`, may rely on while it climbs. */
  ghost predicate Climbing(t: Trie, last: map<nat, Item>, c: nat, l: nat, q: nat, u: int) {
    && Halfway(t, last, last.Keys, last.Keys + {c}, 1) && c < CLOCKS && l <= TOP
    && q == Up(c, l + 1) && 16 * q - 1 <= u < Up(c, l) && NoneAbove(last.Keys, c, l, u)
  }

  /** While it descends: the greatest clock before `c` is below this node, at or before child `u`. */
  ghost predicate Descending(t: Trie, last: map<nat, Item>, c: nat, l: nat, q: nat, u: nat) {
    && Halfway(t, last, last.Keys, last.Keys + {c}, 1) && c < CLOCKS && l <= TOP
    && 16 * q <= u < 16 * q + NODESIZE && u < Up(c, l) && Up(c, l + 1) > q && NoneAbove(last.Keys, c, l, u)
    && exists d :: d in last.Keys && 16 * q <= Up(d, l) <= u
  }

  ghost predicate IsPrev(last: map<nat, Item>, c: nat, r: Option<Item>) {
    match r
    case None => forall d :: d in last ==> d >= c
    case Some(x) => exists d :: d in last && d < c && x == last[d] && forall e :: e in last && e < c ==> e <= d
  }

  lemma ClimbStart(t: Trie, last: map<nat, Item>, c: nat)
    requires Halfway(t, last, last.Keys, last.Keys + {c}, 1) && c < CLOCKS
    ensures Climbing(t, last, c, 0, Up(c, 1), c - 1)
  {
    UpNext(c, 0);
  }

  /** The child at `u` and what it says about the clocks. */
  lemma ClimbChild(t: Trie, last: map<nat, Item>, c: nat, l: nat, q: nat, u: int)
    requires Climbing(t, last, c, l, q, u) && u >= 16 * q
    ensures (l, q) in t && u - 16 * q < 15 && |t[(l, q)].children| == NODESIZE
    ensures ChildOk(last, last.Keys, l, u, t[(l, q)].children[u - 16 * q])
  {
    OnTheWayUp(t, last, last.Keys, last.Keys + {c}, c, l, 1);
    UpNext(c, l);
    var i := u - 16 * q;
    assert ChildOk(last, SetAt(last.Keys, last.Keys + {c}, 1, l), l, 16 * q + i, t[(l, q)].children[i]);
    BelowAdd(last.Keys, c, l, u);
  }

  lemma ClimbSkip(t: Trie, last: map<nat, Item>, c: nat, l: nat, q: nat, u: int)
    requires Climbing(t, last, c, l, q, u) && u >= 16 * q && (l, q) in t && u - 16 * q < |t[(l, q)].children|
    requires t[(l, q)].children[u - 16 * q].Null?
    ensures Climbing(t, last, c, l, q, u - 1)
  {
    ClimbChild(t, last, c, l, q, u);
    assert !Below(last.Keys, l, u);
  }

  lemma ClimbUp(t: Trie, last: map<nat, Item>, c: nat, l: nat, q: nat)
    requires Climbing(t, last, c, l, q, 16 * q - 1)
    ensures l < TOP ==> ParentOf(l, q) == (l + 1, Up(c, l + 2)) && Climbing(t, last, c, l + 1, Up(c, l + 2), q - 1)
    ensures l == TOP ==> IsPrev(last, c, None)
  {
    UpNext(c, l + 1);
    forall d | d in last.Keys && d < c ensures Up(d, l + 1) <= q - 1 {
      UpNext(d, l);
    }
    if l == TOP {
      TopUp(c);
    }
  }

  /** Going down: the search continues at the last child of the node below. */
  lemma EnterChild(t: Trie, last: map<nat, Item>, c: nat, l: nat, u: nat)
    requires Halfway(t, last, last.Keys, last.Keys + {c}, 1) && c < CLOCKS && 0 < l <= TOP
    requires u < Up(c, l) && NoneAbove(last.Keys, c, l, u) && Below(last.Keys, l, u)
    ensures Descending(t, last, c, l - 1, u, 16 * u + 15)
  {
    hide Up;
    hide Halfway;
    UpNext(c, l - 1);
    forall d | d in last.Keys && d < c ensures Up(d, l - 1) <= 16 * u + 15 {
      UpNext(d, l - 1);
    }
    var d :| d in last.Keys && Up(d, l) == u;
    UpNext(d, l - 1);
  }

  lemma LeafFound(last: map<nat, Item>, c: nat, u: nat)
    requires u < c && NoneAbove(last.Keys, c, 0, u) && Below(last.Keys, 0, u)
    ensures u in last && IsPrev(last, c, Some(last[u]))
  {
    forall e | e in last && e < c ensures e <= u {
      assert Up(e, 0) == e;
    }
  }

  lemma DescendChild(t: Trie, last: map<nat, Item>, c: nat, l: nat, q: nat, u: nat)
    requires Descending(t, last, c, l, q, u)
    ensures (l, q) in t && |t[(l, q)].children| == NODESIZE
    ensures ChildOk(last, last.Keys, l, u, t[(l, q)].children[u - 16 * q])
  {
    var s := last.Keys + {c};
    var d :| d in last.Keys && 16 * q <= Up(d, l) <= u;
    UpNext(d, l);
    assert d in s && Below(s, l + 1, q);
    if l == TOP {
      TopUp(c);
    }
    assert HasNode(last.Keys, s, 1, l, q);
    var i := u - 16 * q;
    assert ChildOk(last, SetAt(last.Keys, s, 1, l), l, 16 * q + i, t[(l, q)].children[i]);
    BelowAdd(last.Keys, c, l, u);
  }

  lemma DescendSkip(t: Trie, last: map<nat, Item>, c: nat, l: nat, q: nat, u: nat)
    requires Descending(t, last, c, l, q, u) && !Below(last.Keys, l, u)
    ensures u > 16 * q && Descending(t, last, c, l, q, u - 1)
  {
    var d :| d in last.Keys && 16 * q <= Up(d, l) <= u;
    assert Up(d, l) != u;
    forall e | e in last.Keys && e < c ensures Up(e, l) <= u - 1 {
      assert Up(e, l) != u;
    }
  }

  lemma EmptyIndexes()
    ensures Indexes(map[(TOP, 0) := AllNode(seq(NODESIZE, _ => Null), 0)], map[])
  {
    NoChildren(map[], TOP, 0, {});
  }

  // ----- the same facts for the digits the search computes -----

  /** "See if we went negative": the digit is 15 exactly when a borrow left the node. */
  lemma ClimbDigit(t: Trie, last: map<nat, Item>, c: nat, l: nat, p: nat, u: int, index: nat)
    requires Climbing(t, last, c, l, p, u) && IndexAt(index, l, u)
    ensures Up(index, l) % 16 == 15 <==> u == 16 * p - 1
    ensures u >= 16 * p ==> u == 16 * p + Up(index, l) % 16 && (l, p) in t && |t[(l, p)].children| == NODESIZE
    ensures u >= 16 * p ==> ChildOk(last, last.Keys, l, u, t[(l, p)].children[Up(index, l) % 16])
  {
    hide Halfway;
    hide Up;
    hide Below;
    IndexDigit(index, l, u);
    UpNext(c, l);
    if u >= 16 * p {
      ClimbChild(t, last, c, l, p, u);
    }
  }

  lemma ClimbLeft(t: Trie, last: map<nat, Item>, c: nat, l: nat, p: nat, u: nat, index: nat)
    requires Climbing(t, last, c, l, p, u) && IndexAt(index, l, u) && u >= 16 * p
    requires (l, p) in t && u - 16 * p < |t[(l, p)].children| && t[(l, p)].children[u - 16 * p].Null?
    ensures Climbing(t, last, c, l, p, u - 1)
    ensures index < CLOCKS && Width(l) <= CLOCKS && IndexAt(Minus(index, Width(l)), l, u - 1)
  {
    ClimbSkip(t, last, c, l, p, u);
    IndexMinus(index, l, u);
  }

  lemma ClimbHigher(t: Trie, last: map<nat, Item>, c: nat, l: nat, p: nat, index: nat)
    requires Climbing(t, last, c, l, p, 16 * p - 1) && IndexAt(index, l, 16 * p - 1)
    ensures if l == TOP then IsPrev(last, c, None)
            else Climbing(t, last, c, l + 1, p / 16, p - 1) && IndexAt(index, l + 1, p - 1)
  {
    ClimbUp(t, last, c, l, p);
    IndexUp(index, l, p);
  }

  /** A child that is not null, met while climbing or descending: either the answer or the way down. */
  lemma ChildFound(t: Trie, last: map<nat, Item>, c: nat, l: nat, p: nat, u: nat, index: nat)
    requires Climbing(t, last, c, l, p, u) || Descending(t, last, c, l, p, u)
    requires IndexAt(index, l, u) && Below(last.Keys, l, u)
    ensures if l == 0 then u in last && IsPrev(last, c, Some(last[u]))
            else Descending(t, last, c, l - 1, u, 16 * u + 15) && IndexAt(index, l - 1, 16 * u + 15)
  {
    if l == 0 {
      LeafFound(last, c, u);
    } else {
      EnterChild(t, last, c, l, u);
      IndexDown(index, l - 1, u);
    }
  }

  lemma DescendDigit(t: Trie, last: map<nat, Item>, c: nat, l: nat, p: nat, u: nat, index: nat)
    requires Descending(t, last, c, l, p, u) && IndexAt(index, l, u)
    ensures u == 16 * p + Up(index, l) % 16 && (l, p) in t && |t[(l, p)].children| == NODESIZE
    ensures ChildOk(last, last.Keys, l, u, t[(l, p)].children[Up(index, l) % 16])
  {
    hide Halfway;
    hide Up;
    hide Below;
    DescendChild(t, last, c, l, p, u);
    IndexDigit(index, l, u);
  }

  lemma DescendLeft(t: Trie, last: map<nat, Item>, c: nat, l: nat, p: nat, u: nat, index: nat)
    requires Descending(t, last, c, l, p, u) && IndexAt(index, l, u) && !Below(last.Keys, l, u)
    ensures u > 16 * p && Descending(t, last, c, l, p, u - 1)
    ensures index < CLOCKS && Width(l) <= CLOCKS && IndexAt(Minus(index, Width(l)), l, u - 1)
  {
    DescendSkip(t, last, c, l, p, u);
    IndexMinus(index, l, u);
  }

  lemma ClimbBounds(t: Trie, last: map<nat, Item>, c: nat, l: nat, p: nat, u: int)
    requires Climbing(t, last, c, l, p, u)
    ensures l <= TOP && u >= 16 * p - 1
  {
  }

  lemma HalfwayStart(t: Trie, last: map<nat, Item>, c: nat)
    requires Indexes(t, last) && c < CLOCKS
    ensures Halfway(t, last, last.Keys, last.Keys + {c}, TOP + 1)
  {
    TopUp(c);
    forall l: nat, p: nat ensures (l, p) in t <==> HasNode(last.Keys, last.Keys + {c}, TOP + 1, l, p) {
      assert (l, p) in t <==> HasNode(last.Keys, last.Keys, 0, l, p);
      BelowAdd(last.Keys, c, l + 1, p);
    }
  }

  lemma BelowZero(s: set<nat>, c: nat)
    ensures Below(s, 0, c) <==> c in s
  {
    assert Up(c, 0) == c;
  }

  lemma LeafOf(last: map<nat, Item>, c: nat, n: AllNode)
    requires NodeOk(last, last.Keys, 0, Up(c, 1), n)
    ensures if c in last then n.children[Digit(c, 0)] == Last(last[c]) else n.children[Digit(c, 0)].Null?
  {
    UpNext(c, 0);
    BelowZero(last.Keys, c);
    var p, i := Up(c, 1), Digit(c, 0);
    assert 16 * p + i == c;
    hide Up;
    hide Digit;
    hide Below;
    assert ChildOk(last, last.Keys, 0, 16 * p + i, n.children[i]);
  }

  /** The child of clock `c` at level 0 points to its last action, if it has one. */
  lemma LeafChild(t: Trie, last: map<nat, Item>, c: nat)
    requires Halfway(t, last, last.Keys, last.Keys + {c}, 1) && c < CLOCKS
    ensures (0, Up(c, 1)) in t && |t[(0, Up(c, 1))].children| == NODESIZE
    ensures var child := t[(0, Up(c, 1))].children[Digit(c, 0)];
            if c in last then child == Last(last[c]) else child.Null?
  {
    OnTheWayUp(t, last, last.Keys, last.Keys + {c}, c, 0, 1);
    LeafOf(last, c, t[(0, Up(c, 1))]);
  }

  /** One step of the walk from the root to a clock that may not be there. */
  lemma WalkStep(t: Trie, last: map<nat, Item>, c: nat, l: nat)
    requires Indexes(t, last) && l <= TOP && (l, Up(c, l + 1)) in t
    ensures |t[(l, Up(c, l + 1))].children| == NODESIZE && 16 * Up(c, l + 1) + Digit(c, l) == Up(c, l)
    ensures t[(l, Up(c, l + 1))].children[Digit(c, l)].Null? ==> c !in last
    ensures !t[(l, Up(c, l + 1))].children[Digit(c, l)].Null? ==> if l == 0 then c in last else (l - 1, Up(c, l)) in t
  {
    UpNext(c, l);
    var n := t[(l, Up(c, l + 1))];
    assert NodeOk(last, last.Keys, l, Up(c, l + 1), n);
    assert ChildOk(last, last.Keys, l, 16 * Up(c, l + 1) + Digit(c, l), n.children[Digit(c, l)]);
    assert c in last ==> Below(last.Keys, l, Up(c, l));
    if l > 0 && !n.children[Digit(c, l)].Null? {
      assert HasNode(last.Keys, last.Keys, 0, l - 1, Up(c, l));
    }
  }

  lemma IndexesHalfway(t: Trie, last: map<nat, Item>, c: nat)
    requires Indexes(t, last) && c in last
    ensures Halfway(t, last, last.Keys, last.Keys + {c}, 1)
  {
    assert last.Keys + {c} == last.Keys;
    forall l: nat, p: nat ensures (l, p) in t <==> HasNode(last.Keys, last.Keys, 1, l, p) {
      assert (l, p) in t <==> HasNode(last.Keys, last.Keys, 0, l, p);
    }
  }

  lemma RootThere(t: Trie, last: map<nat, Item>, c: nat)
    requires Indexes(t, last) && c < CLOCKS
    ensures (TOP, Up(c, TOP + 1)) in t && Up(c, TOP + 1) == 0
  {
    TopUp(c);
    assert HasNode(last.Keys, last.Keys, 0, TOP, 0);
  }

  /** `isEmpty`: the root's count is zero exactly when no clock is in use. */
  lemma RootCount(t: Trie, last: map<nat, Item>)
    requires Indexes(t, last) && forall c :: c in last ==> c < CLOCKS
    ensures (TOP, 0) in t && (t[(TOP, 0)].count == 0 <==> last == map[])
  {
    assert HasNode(last.Keys, last.Keys, 0, TOP, 0);
    var n := t[(TOP, 0)];
    assert NodeOk(last, last.Keys, TOP, 0, n);
    NonNullZero(n.children);
    if last != map[] {
      var c :| c in last;
      TopUp(c);
      WalkStep(t, last, c, TOP);
    }
    if n.count > 0 {
      var i :| 0 <= i < NODESIZE && !n.children[i].Null?;
      assert ChildOk(last, last.Keys, TOP, 16 * 0 + i, n.children[i]);
    }
  }
}
