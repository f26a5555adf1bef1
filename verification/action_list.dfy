/**
 The list of a thread's actions on a location: linked in the order of sequence numbers, with a
 trie over the numbers to find where a new action goes.
 */
module ActionLists {
  import opened Sequences
  import opened Options
  import opened Tries
  import L = Links

  // ----- stable sorting -----

  ghost predicate InOrder(l: seq<Item>) {
    forall i, j :: 0 <= i < j < |l| ==> l[i].clock <= l[j].clock
  }

  /** The actions with clock `c`, in list order. */
  function OfClock(l: seq<Item>, c: nat): seq<Item> {
    if l == [] then []
    else OfClock(l[..|l| - 1], c) + if l[|l| - 1].clock == c then [l[|l| - 1]] else []
  }

  function Without(l: seq<Item>, x: Item): seq<Item> {
    if l == [] then []
    else Without(l[..|l| - 1], x) + if l[|l| - 1] == x then [] else [l[|l| - 1]]
  }

  /** `l` holds the actions of `log` sorted by clock, and those of one clock in the order of `log`. */
  ghost predicate StablySorted(l: seq<Item>, log: seq<Item>) {
    InOrder(l) && forall c :: OfClock(l, c) == OfClock(log, c)
  }

  lemma {:induction false} OfClockConcat(a: seq<Item>, b: seq<Item>, c: nat)
    ensures OfClock(a + b, c) == OfClock(a, c) + OfClock(b, c)
  {
    if b == [] {
      assert a + b == a;
    } else {
      var n := |b| - 1;
      assert (a + b)[..|a + b| - 1] == a + b[..n];
      OfClockConcat(a, b[..n], c);
    }
  }

  lemma {:induction false} OfClockNone(l: seq<Item>, c: nat)
    requires forall i :: 0 <= i < |l| ==> l[i].clock != c
    ensures OfClock(l, c) == []
  {
    if l != [] {
      OfClockNone(l[..|l| - 1], c);
    }
  }

  lemma {:induction false} WithoutConcat(a: seq<Item>, b: seq<Item>, x: Item)
    ensures Without(a + b, x) == Without(a, x) + Without(b, x)
  {
    if b == [] {
      assert a + b == a;
    } else {
      var n := |b| - 1;
      assert (a + b)[..|a + b| - 1] == a + b[..n];
      WithoutConcat(a, b[..n], x);
    }
  }

  lemma {:induction false} WithoutNone(l: seq<Item>, x: Item)
    requires x !in l
    ensures Without(l, x) == l
  {
    if l != [] {
      WithoutNone(l[..|l| - 1], x);
    }
  }

  lemma {:induction false} OfClockWithout(l: seq<Item>, x: Item, c: nat)
    ensures OfClock(Without(l, x), c) == Without(OfClock(l, c), x)
  {
    if l != [] {
      var n := |l| - 1;
      OfClockWithout(l[..n], x, c);
      var tail := if l[n] == x then [] else [l[n]];
      OfClockConcat(Without(l[..n], x), tail, c);
      WithoutConcat(OfClock(l[..n], c), if l[n].clock == c then [l[n]] else [], x);
      assert OfClock(tail, c) == Without(if l[n].clock == c then [l[n]] else [], x);
    }
  }

  // ----- the two edits -----

  /** Everything before `k` is at or before clock `c`, and everything from `k` on is after it. */
  ghost predicate Splits(l: seq<Item>, k: nat, c: nat) {
    && k <= |l|
    && (forall i :: 0 <= i < k ==> l[i].clock <= c)
    && (forall i :: k <= i < |l| ==> l[i].clock > c)
  }

  lemma InsertedOfClock(l: seq<Item>, k: nat, x: Item, c: nat)
    requires Splits(l, k, x.clock)
    ensures OfClock(L.PutIn(l, k, x), c) == OfClock(l + [x], c)
  {
    hide OfClock;
    OfClockConcat(l[..k] + [x], l[k..], c);
    OfClockConcat(l[..k], [x], c);
    OfClockConcat(l, [x], c);
    OfClockConcat(l[..k], l[k..], c);
    assert l == l[..k] + l[k..];
    if c == x.clock {
      OfClockNone(l[k..], c);
    } else {
      OfClockNone([x], c);
    }
  }

  lemma InsertedSorted(l: seq<Item>, log: seq<Item>, k: nat, x: Item)
    requires StablySorted(l, log) && Splits(l, k, x.clock)
    ensures StablySorted(L.PutIn(l, k, x), log + [x])
  {
    hide OfClock;
    forall c ensures OfClock(L.PutIn(l, k, x), c) == OfClock(log + [x], c) {
      InsertedOfClock(l, k, x, c);
      OfClockConcat(l, [x], c);
      OfClockConcat(log, [x], c);
    }
  }

  lemma WithoutOne(x: Item)
    ensures Without([x], x) == []
  {
    assert [x][..0] == [];
  }

  lemma WithoutMiddle(a: seq<Item>, x: Item, b: seq<Item>)
    requires x !in a && x !in b
    ensures Without(a + [x] + b, x) == a + b
  {
    hide Without;
    WithoutOne(x);
    WithoutConcat(a + [x], b, x);
    WithoutConcat(a, [x], x);
    WithoutNone(a, x);
    WithoutNone(b, x);
  }

  lemma DeletedIsWithout(l: seq<Item>, k: nat)
    requires k < |l| && Distinct(l)
    ensures L.TakenOut(l, k) == Without(l, l[k])
  {
    hide Without;
    var a, b := l[..k], l[k + 1..];
    assert l == a + [l[k]] + b;
    assert forall i :: 0 <= i < |b| ==> b[i] == l[k + 1 + i];
    WithoutMiddle(a, l[k], b);
  }

  lemma DeletedSorted(l: seq<Item>, log: seq<Item>, k: nat)
    requires StablySorted(l, log) && Distinct(l) && k < |l|
    ensures StablySorted(L.TakenOut(l, k), Without(log, l[k]))
  {
    DeletedIsWithout(l, k);
    forall c ensures OfClock(L.TakenOut(l, k), c) == OfClock(Without(log, l[k]), c) {
      OfClockWithout(l, l[k], c);
      OfClockWithout(log, l[k], c);
    }
  }

  // ----- what the leaves point to -----

  /** Position `k` holds the last action of clock `c`. */
  ghost predicate LastAt(l: seq<Item>, c: nat, k: nat) {
    k < |l| && l[k].clock == c && forall j :: k < j < |l| ==> l[j].clock != c
  }

  ghost predicate LastOk(l: seq<Item>, last: map<nat, Item>, c: nat) {
    if c in last then exists k: nat :: LastAt(l, c, k) && last[c] == l[k]
    else forall i :: 0 <= i < |l| ==> l[i].clock != c
  }

  ghost predicate Leaves(l: seq<Item>, last: map<nat, Item>) {
    forall c {:trigger LastOk(l, last, c)} :: LastOk(l, last, c)
  }

  lemma IndexUnique(l: seq<Item>, k: nat)
    requires Distinct(l) && k < |l|
    ensures IndexOf(l, l[k]) == k
  {
  }

  /** The place after the last action of the greatest clock before `c`. */
  lemma PrevSplits(l: seq<Item>, last: map<nat, Item>, c: nat, r: Option<Item>)
    requires InOrder(l) && Distinct(l) && Leaves(l, last) && c !in last && IsPrev(last, c, r)
    ensures r.Some? ==> r.value in l
    ensures Splits(l, if r.Some? then IndexOf(l, r.value) + 1 else 0, c)
  {
    forall i | 0 <= i < |l| ensures l[i].clock in last && l[i].clock != c {
      assert LastOk(l, last, l[i].clock);
    }
    if r.Some? {
      var d :| d in last && d < c && r.value == last[d] && forall e :: e in last && e < c ==> e <= d;
      assert LastOk(l, last, d);
      var k: nat :| LastAt(l, d, k) && last[d] == l[k];
      IndexUnique(l, k);
    }
  }

  lemma SameSplits(l: seq<Item>, last: map<nat, Item>, c: nat)
    requires InOrder(l) && Distinct(l) && Leaves(l, last) && c in last
    ensures last[c] in l && LastAt(l, c, IndexOf(l, last[c])) && Splits(l, IndexOf(l, last[c]) + 1, c)
  {
    assert LastOk(l, last, c);
    var k: nat :| LastAt(l, c, k) && last[c] == l[k];
    IndexUnique(l, k);
  }

  lemma InsertedLeaves(l: seq<Item>, last: map<nat, Item>, k: nat, x: Item)
    requires Leaves(l, last) && Splits(l, k, x.clock)
    ensures Leaves(L.PutIn(l, k, x), last[x.clock := x])
  {
    var m, last' := L.PutIn(l, k, x), last[x.clock := x];
    forall c ensures LastOk(m, last', c) {
      assert LastOk(l, last, c);
      if c == x.clock {
        assert LastAt(m, c, k);
      } else if c in last {
        var j: nat :| LastAt(l, c, j) && last[c] == l[j];
        assert LastAt(m, c, if j < k then j else j + 1);
      }
    }
  }

  /** What the leaf of a clock must point to once the action at `k` is gone. */
  function LastWithout(l: seq<Item>, last: map<nat, Item>, k: nat): map<nat, Item>
    requires k < |l|
  {
    if l[k].clock in last && last[l[k].clock] != l[k] then last
    else if k > 0 && l[k - 1].clock == l[k].clock then last[l[k].clock := l[k - 1]]
    else last - {l[k].clock}
  }

  lemma DeletedLeaves(l: seq<Item>, last: map<nat, Item>, k: nat)
    requires InOrder(l) && Distinct(l) && Leaves(l, last) && k < |l|
    ensures Leaves(L.TakenOut(l, k), LastWithout(l, last, k))
  {
    var m, last' := L.TakenOut(l, k), LastWithout(l, last, k);
    assert LastOk(l, last, l[k].clock);
    forall c ensures LastOk(m, last', c) {
      assert LastOk(l, last, c);
      if c in last {
        var j: nat :| LastAt(l, c, j) && last[c] == l[j];
        if j == k {
          assert k > 0 && l[k - 1].clock == c ==> LastAt(m, c, k - 1);
        } else {
          assert LastAt(m, c, if j < k then j else j - 1);
        }
      }
    }
  }

  lemma {:induction false} OfClockMember(l: seq<Item>, x: Item)
    ensures x in OfClock(l, x.clock) <==> x in l
  {
    if l != [] {
      OfClockMember(l[..|l| - 1], x);
      assert l == l[..|l| - 1] + [l[|l| - 1]];
    }
  }

  /** The list holds exactly the live actions. */
  lemma SameMembers(l: seq<Item>, log: seq<Item>, x: Item)
    requires StablySorted(l, log)
    ensures x in l <==> x in log
  {
    OfClockMember(l, x);
    OfClockMember(log, x);
  }

  lemma NotLeaf(l: seq<Item>, last: map<nat, Item>, x: Item)
    requires Leaves(l, last) && x.clock !in last
    ensures x !in l
  {
    assert LastOk(l, last, x.clock);
  }

  /** The actions of one clock stand together: before `k` there is none of clock `c`. */
  lemma NotAmong(l: seq<Item>, c: nat, k: nat, x: Item)
    requires InOrder(l) && k < |l| && l[k].clock == c && (k > 0 ==> l[k - 1].clock != c) && x.clock == c && l[k] != x
    requires forall j :: k < j < |l| ==> l[j] != x
    ensures x !in l
  {
    forall j | 0 <= j < k ensures l[j] != x {
      assert l[j].clock <= l[k - 1].clock <= l[k].clock;
    }
  }

  lemma LeavesEmpty(l: seq<Item>, last: map<nat, Item>)
    requires Leaves(l, last)
    ensures l == [] <==> last == map[]
  {
    if l != [] {
      assert LastOk(l, last, l[0].clock);
    }
    if last != map[] {
      var c :| c in last;
      assert LastOk(l, last, c);
    }
  }

  lemma SplitsBound(l: seq<Item>, k: nat, c: nat)
    requires Splits(l, k, c)
    ensures k <= |l|
  {
  }

  lemma SortedInOrder(l: seq<Item>, log: seq<Item>)
    requires StablySorted(l, log)
    ensures InOrder(l)
  {
  }

  class ActionList {
    var nodes: Trie
    var links: L.Chain<Item>
    var size: nat
    ghost var list: seq<Item>       // what the links stand for
    ghost var last: map<nat, Item>  // the last action of each clock in use
    ghost var log: seq<Item>        // the live actions, in the order they were added

    ghost predicate Listed()
      reads this
    {
      && L.Linked(list, links) && StablySorted(list, log) && Leaves(list, last) && size == |list|
      && forall c :: c in last ==> c < CLOCKS
    }

    ghost predicate Valid()
      reads this
    {
      Listed() && Indexes(nodes, last)
    }

    constructor ()
      ensures Valid() && list == [] && log == []
    {
      nodes := map[(TOP, 0) := AllNode(seq(NODESIZE, _ => Null), 0)];
      links := L.Chain(map[], map[], None, None);
      list, size, last, log := [], 0, map[], [];
      new;
      EmptyIndexes();
    }

    /** `findPrev`, from the leaf node of clock `c`: the last action with a smaller clock. */
    method FindPrev(c: nat) returns (r: Option<Item>)
      requires c < CLOCKS && Halfway(nodes, last, last.Keys, last.Keys + {c}, 1)
      ensures IsPrev(last, c, r)
    {
      hide Halfway;
      hide Climbing;
      hide Descending;
      hide IsPrev;
      hide Up;
      hide IndexAt;
      hide Below;
      var l: nat, p: nat, increment: nat := 0, Up(c, 1), 1;
      var index := Minus(c, increment);
      ghost var u: int := c - 1;
      ClimbStart(nodes, last, c);
      IndexStart(c);
      while true
        invariant Climbing(nodes, last, c, l, p, u) && IndexAt(index, l, u) && increment == Width(l) && l <= TOP
        decreases TOP - l, u - 16 * p
      {
        var currindex := Up(index, l) % 16;
        ClimbDigit(nodes, last, c, l, p, u, index);
        ClimbBounds(nodes, last, c, l, p, u);
        if currindex != 15 {
          if nodes[(l, p)].children[currindex].Null? {
            ClimbLeft(nodes, last, c, l, p, u, index);
            index := Minus(index, increment);
            u := u - 1;
            continue;
          }
          ChildFound(nodes, last, c, l, p, u, index);
          if l == 0 {
            return Some(nodes[(l, p)].children[currindex].item);
          }
          p := 16 * p + currindex;
          l := l - 1;
          increment := increment / 16;
          break;
        }
        ClimbHigher(nodes, last, c, l, p, index);
        if l == TOP {
          return None;
        }
        u := p - 1;
        p := p / 16;
        l := l + 1;
        increment := increment * 16;
      }
      u := 16 * p + 15;
      r := FindLast(c, l, p, increment, index, u);
    }

    /** The second half of `findPrev`: the last action below node (`level`, `prefix`). */
    method FindLast(c: nat, level: nat, prefix: nat, inc: nat, start: nat, ghost digit: nat) returns (r: Option<Item>)
      requires Descending(nodes, last, c, level, prefix, digit) && IndexAt(start, level, digit) && inc == Width(level)
      ensures IsPrev(last, c, r)
    {
      hide Halfway;
      hide Climbing;
      hide Descending;
      hide IsPrev;
      hide Up;
      hide IndexAt;
      hide Below;
      var l: nat, p: nat, increment: nat, index: nat := level, prefix, inc, start;
      ghost var u: nat := digit;
      while true
        invariant Descending(nodes, last, c, l, p, u) && IndexAt(index, l, u) && increment == Width(l)
        decreases l, u
      {
        var currindex := Up(index, l) % 16;
        DescendDigit(nodes, last, c, l, p, u, index);
        if !nodes[(l, p)].children[currindex].Null? {
          ChildFound(nodes, last, c, l, p, u, index);
          if l == 0 {
            return Some(nodes[(l, p)].children[currindex].item);
          }
          p := 16 * p + currindex;
          l := l - 1;
          increment := increment / 16;
          u := 16 * u + 15;
        } else {
          DescendLeft(nodes, last, c, l, p, u, index);
          index := Minus(index, increment);
          u := u - 1;
        }
      }
    }

    /** The descent of `addAction`: makes the nodes that clock `c` still needs. */
    method MakePath(c: nat)
      requires Indexes(nodes, last) && c < CLOCKS
      modifies this`nodes
      ensures Halfway(nodes, last, last.Keys, last.Keys + {c}, 1)
    {
      HalfwayStart(nodes, last, c);
      hide Halfway;
      hide Indexes;
      hide AddedNode;
      var l := TOP;
      while l > 0
        invariant 0 <= l <= TOP && Halfway(nodes, last, last.Keys, last.Keys + {c}, l + 1)
      {
        AddedNodeOk(nodes, last, last.Keys, c, l);
        nodes := AddedNode(nodes, c, l);
        l := l - 1;
      }
    }

    /** `addAction`: after everything with a clock up to its own. */
    method AddAction(x: Item)
      requires Valid() && x.clock < CLOCKS && x !in list
      modifies this
      ensures Valid() && log == old(log) + [x]
      ensures exists k :: Splits(old(list), k, x.clock) && list == L.PutIn(old(list), k, x)
    {
      hide Halfway;
      hide Indexes;
      hide StablySorted;
      hide Leaves;
      hide Splits;
      hide AddedLast;
      size := size + 1;
      MakePath(x.clock);
      AddedLastOk(nodes, last, x);
      var child := nodes[(0, Up(x.clock, 1))].children[Digit(x.clock, 0)];
      LeafChild(nodes, last, x.clock);
      SortedInOrder(list, log);
      var p: Option<Item>;
      if child.Null? {
        p := FindPrev(x.clock);
        PrevSplits(list, last, x.clock, p);
      } else {
        p := Some(child.item);
        SameSplits(list, last, x.clock);
      }
      InsertAfter(x, p, if p.Some? then IndexOf(list, p.value) + 1 else 0);
    }

    /** Points the leaf at the new action and splices its node in after `p`, or at the front. */
    method InsertAfter(x: Item, p: Option<Item>, ghost k: nat)
      requires L.Linked(list, links) && StablySorted(list, log) && Leaves(list, last) && size == |list| + 1
      requires (forall c :: c in last ==> c < CLOCKS) && x.clock < CLOCKS && x !in list && Splits(list, k, x.clock)
      requires p == L.At(list, k - 1)
      requires Halfway(nodes, last, last.Keys, last.Keys + {x.clock}, 1)
      requires (0, Up(x.clock, 1)) in nodes && |nodes[(0, Up(x.clock, 1))].children| == NODESIZE
      modifies this
      ensures Valid() && log == old(log) + [x] && list == L.PutIn(old(list), k, x)
    {
      hide Halfway;
      hide Indexes;
      hide StablySorted;
      hide Leaves;
      hide AddedLast;
      hide L.Linked;
      AddedLastOk(nodes, last, x);
      InsertedSorted(list, log, k, x);
      InsertedLeaves(list, last, k, x);
      L.SplicedInOk(list, links, k, x);
      SplitsBound(list, k, x.clock);
      if k > 0 {
        L.NextOf(list, links, k - 1);
      }
      SpliceIn(x, p);
      nodes := AddedLast(nodes, x);
      list := L.PutIn(list, k, x);
      last := last[x.clock := x];
      log := log + [x];
    }

    /** The pointer writes of an insertion. */
    method SpliceIn(x: Item, p: Option<Item>)
      requires p.Some? ==> p.value in links.next && p.value != x
      modifies this`links
      ensures links == L.SplicedIn(old(links), p, x)
    {
      var next, prev, head, tail := links.next, links.prev, links.head, links.tail;
      if p.Some? {
        next := next[x := next[p.value]];
        prev := prev[x := p];
        if next[x].Some? {
          prev := prev[next[x].value := Some(x)];
        } else {
          tail := Some(x);
        }
        next := next[p.value := Some(x)];
      } else {
        next := next[x := head];
        prev := prev[x := None];
        if head.Some? {
          prev := prev[head.value := Some(x)];
        } else {
          tail := Some(x);
        }
        head := Some(x);
      }
      links := L.Chain(next, prev, head, tail);
    }

    /** The walk of `removeAction` from the root to the leaf of clock `c`. */
    method FindLeaf(c: nat) returns (found: bool)
      requires Indexes(nodes, last) && c < CLOCKS
      ensures found <==> c in last
    {
      hide Indexes;
      hide Up;
      RootThere(nodes, last, c);
      var l, p: nat := TOP, 0;
      while true
        invariant 0 <= l <= TOP && p == Up(c, l + 1) && (l, p) in nodes
        decreases l
      {
        WalkStep(nodes, last, c, l);
        var child := nodes[(l, p)].children[Digit(c, l)];
        if child.Null? {
          return false;
        }
        if l == 0 {
          return true;
        }
        p := 16 * p + Digit(c, l);
        l := l - 1;
      }
    }

    /** `removeAction`: an action that is not listed is left alone. */
    method RemoveAction(x: Item)
      requires Valid() && x.clock < CLOCKS
      modifies this
      ensures Valid()
      ensures if x in old(list) then list == Without(old(list), x) && log == Without(old(log), x)
              else list == old(list) && log == old(log)
    {
      hide Indexes;
      hide Halfway;
      hide StablySorted;
      hide Leaves;
      hide Without;
      var c := x.clock;
      var found := FindLeaf(c);
      if !found {
        NotLeaf(list, last, x);
        return;
      }
      IndexesHalfway(nodes, last, c);
      LeafChild(nodes, last, c);
      SortedInOrder(list, log);
      SameSplits(list, last, c);
      ghost var k: nat := IndexOf(list, last[c]);
      var there, first;
      there, first, k := FindNode(x, nodes[(0, Up(c, 1))].children[Digit(c, 0)].item, k);
      if there {
        DeleteAt(x, first, k);
      }
    }

    /**
     The search of `removeAction`: from the node the leaf points to, back through the nodes of the
     same clock. `first` says that the action found is the one the leaf points to.
     */
    method FindNode(x: Item, leaf: Item, ghost end: nat) returns (there: bool, first: bool, ghost k: nat)
      requires L.Linked(list, links) && InOrder(list) && LastAt(list, x.clock, end) && list[end] == leaf
      ensures there <==> x in list
      ensures there ==> k < |list| && list[k] == x && (first <==> leaf == x)
    {
      hide L.Linked;
      var cur := leaf;
      k, first := end, true;
      while cur != x
        invariant k <= end < |list| && list[k].clock == x.clock && cur == list[k]
        invariant (forall j :: k < j < |list| ==> list[j] != x) && (first <==> k == end)
        decreases k
      {
        L.NextOf(list, links, k);
        var p := links.prev[cur];
        if p.None? || p.value.clock != x.clock {
          NotAmong(list, x.clock, k, x);
          return false, first, k;
        }
        cur := p.value;
        k := k - 1;
        first := false;
      }
      there := true;
    }

    /** Splices the node of `x` out; `first` says that the leaf points to it. */
    method DeleteAt(x: Item, first: bool, ghost k: nat)
      requires Valid() && k < |list| && list[k] == x && x.clock in last && (first <==> last[x.clock] == x)
      modifies this
      ensures Valid() && list == Without(old(list), x) && log == Without(old(log), x)
    {
      hide Indexes;
      hide Halfway;
      hide StablySorted;
      hide Leaves;
      hide Without;
      var c := x.clock;
      SortedInOrder(list, log);
      DeletedSorted(list, log, k);
      DeletedIsWithout(list, k);
      DeletedLeaves(list, last, k);
      L.SplicedOutOk(list, links, k);
      L.NextOf(list, links, k);
      ghost var last' := LastWithout(list, last, k);
      var p := links.prev[x];
      SpliceOut(x);
      if first {
        if p.Some? && p.value.clock == c {
          IndexesHalfway(nodes, last, c);
          AddedLastOk(nodes, last, p.value);
          nodes := AddedLast(nodes, p.value);
        } else {
          DecrementCount(c);
        }
      }
      log := Without(log, x);
      list := L.TakenOut(list, k);
      size := size - 1;
      last := last';
    }

    /** The pointer writes of a removal; the node itself is freed. */
    method SpliceOut(x: Item)
      requires x in links.next && x in links.prev
      modifies this`links
      ensures links == L.SplicedOut(old(links), x)
    {
      var next, prev, head, tail := links.next, links.prev, links.head, links.tail;
      var p, n := prev[x], next[x];
      if p.Some? {
        next := next[p.value := n];
      } else {
        head := n;
      }
      if n.Some? {
        prev := prev[n.value := p];
      } else {
        tail := p;
      }
      links := L.Chain(next - {x}, prev - {x}, head, tail);
    }

    /** Clears the leaf of clock `c`, and `decrementCount`: empty nodes go, up to the root. */
    method DecrementCount(c: nat)
      requires Indexes(nodes, last) && c in last && c < CLOCKS
      modifies this`nodes
      ensures Indexes(nodes, last - {c})
    {
      hide Indexes;
      hide Halfway;
      hide Up;
      hide RemovedNode;
      hide RemovedLast;
      RemovedLastOk(nodes, last, c);
      nodes := RemovedLast(nodes, c);
      var l, p := 0, Up(c, 1);
      RemovalStops(nodes, last - {c}, last.Keys, c, l);
      while nodes[(l, p)].count == 0 && l < TOP
        invariant 0 <= l <= TOP && p == Up(c, l + 1) && (l, p) in nodes
        invariant Halfway(nodes, last - {c}, last.Keys - {c}, last.Keys, l + 1)
        decreases TOP - l
      {
        RemovedNodeOk(nodes, last - {c}, last.Keys, c, l);
        nodes := RemovedNode(nodes, l, p);
        l, p := l + 1, p / 16;
        RemovalStops(nodes, last - {c}, last.Keys, c, l);
      }
      RemovalStops(nodes, last - {c}, last.Keys, c, l);
    }

    method IsEmpty() returns (empty: bool)
      requires Valid()
      ensures empty <==> list == []
    {
      RootCount(nodes, last);
      LeavesEmpty(list, last);
      empty := nodes[(TOP, 0)].count == 0;
    }
  }
}
