/**
 The allocator's tree bins as values: chunks linked into bitwise tries by size, one trie a bin,
 with chunks of equal size in a ring behind the one that is in the trie.
 */
module TreeBins {
  import opened SizeIndex

  /** A parent pointer: none for a chained chunk, the bin header for a root. */
  datatype Parent = NoParent | Header(bin: nat) | Under(chunk: nat)

  /** `malloc_tree_chunk`; pointers are addresses and 0 is null. */
  datatype TChunk = TChunk(size: nat, fd: nat, bk: nat, child0: nat, child1: nat, parent: Parent, index: nat)

  type Chunks = map<nat, TChunk>

  /** A place in a trie: the bin, how many bits are unresolved, and the bits above them. */
  datatype Place = Place(bin: nat, width: nat, prefix: nat)

  /** Which chunk is at which place. */
  type Places = map<Place, nat>

  function Root(i: nat): Place {
    Place(i, RootWidth(i), RootPrefix(i))
  }

  function Above(p: Place): Place {
    Place(p.bin, p.width + 1, p.prefix / 2)
  }

  function Below(p: Place, b: nat): Place
    requires p.width > 0
  {
    Place(p.bin, p.width - 1, 2 * p.prefix + b)
  }

  /** The place at width `w` on the way to sizes equal to `s` in bin `i`. */
  function On(i: nat, s: nat, w: nat): Place {
    Place(i, w, Pre(s, w))
  }

  function Ptr(at: Places, p: Place): nat {
    if p in at then at[p] else 0
  }

  function Kid(at: Places, p: Place, b: nat): nat {
    if p.width == 0 then 0 else Ptr(at, Below(p, b))
  }

  function ParentAt(at: Places, p: Place): Parent {
    if p == Root(p.bin) then Header(p.bin) else Under(Ptr(at, Above(p)))
  }

  ghost predicate Fits(c: TChunk, p: Place) {
    p.bin < NTREEBINS && p.width <= RootWidth(p.bin) && Pre(c.size, p.width) == p.prefix && c.index == p.bin
  }

  ghost predicate Linked(c: TChunk, at: Places, p: Place) {
    c.child0 == Kid(at, p, 0) && c.child1 == Kid(at, p, 1) && c.parent == ParentAt(at, p)
  }

  ghost predicate PlaceOk(cs: Chunks, at: Places, p: Place) {
    p in at ==>
      && at[p] != 0 && at[p] in cs && Fits(cs[at[p]], p) && Linked(cs[at[p]], at, p)
      && (p == Root(p.bin) || (p.width < RootWidth(p.bin) && Above(p) in at))
  }

  ghost predicate OnePlace(cs: Chunks, at: Places, p: Place, q: Place) {
    p in at && q in at && at[p] in cs && at[q] in cs && cs[at[p]].size == cs[at[q]].size ==> p == q
  }

  /** The pointers of the chunks in tries are exactly what their places say, and no size has two places. */
  ghost predicate TreesOk(cs: Chunks, at: Places) {
    && (forall p {:trigger PlaceOk(cs, at, p)} :: PlaceOk(cs, at, p))
    && (forall p, q {:trigger OnePlace(cs, at, p, q)} :: OnePlace(cs, at, p, q))
  }

  /** Everything on the way from a place to its root is there. */
  lemma {:induction false} WayThere(cs: Chunks, at: Places, p: Place, w: nat)
    requires TreesOk(cs, at) && p in at && p.width <= w <= RootWidth(p.bin)
    ensures at[p] in cs && On(p.bin, cs[at[p]].size, w) in at
    ensures p == On(p.bin, cs[at[p]].size, p.width)
    decreases w
  {
    assert PlaceOk(cs, at, p);
    if w > p.width {
      WayThere(cs, at, p, w - 1);
      var s := cs[at[p]].size;
      var q := On(p.bin, s, w - 1);
      assert PlaceOk(cs, at, q);
      PreNext(s, w - 1);
    }
  }

  lemma RootThere(cs: Chunks, at: Places, p: Place)
    requires TreesOk(cs, at) && p in at
    ensures Root(p.bin) in at && at[p] in cs && RootPrefix(p.bin) == Pre(cs[at[p]].size, RootWidth(p.bin))
  {
    assert PlaceOk(cs, at, p);
    WayThere(cs, at, p, RootWidth(p.bin));
    var r := On(p.bin, cs[at[p]].size, RootWidth(p.bin));
    assert PlaceOk(cs, at, r);
  }

  // ----- attaching a chunk at a free place -----

  /** The child pointer of the node at `p` for bit `b` set to `x`. */
  function SetKid(c: TChunk, b: nat, x: nat): TChunk {
    if b == 0 then c.(child0 := x) else c.(child1 := x)
  }

  /** `x` hung below the node at `p`. */
  function Hung(cs: Chunks, at: Places, p: Place, b: nat, x: nat): Chunks
    requires p in at && at[p] in cs && x in cs
  {
    var t := at[p];
    var m := cs[t := SetKid(cs[t], b, x)];
    m[x := m[x].(child0 := 0, child1 := 0, parent := Under(t))]
  }

  ghost predicate Unplaced(at: Places, x: nat) {
    forall p :: p in at ==> at[p] != x
  }

  ghost predicate NewSize(cs: Chunks, at: Places, s: nat) {
    forall p :: p in at && at[p] in cs ==> cs[at[p]].size != s
  }

  lemma HungOk(cs: Chunks, at: Places, p: Place, b: nat, x: nat)
    requires TreesOk(cs, at) && p in at && x in cs && x != 0 && Unplaced(at, x) && NewSize(cs, at, cs[x].size)
    requires p.width > 0 && b < 2 && Below(p, b) !in at && Fits(cs[x], Below(p, b))
    ensures at[p] in cs && TreesOk(Hung(cs, at, p, b, x), at[Below(p, b) := x])
  {
    assert PlaceOk(cs, at, p);
    var q := Below(p, b);
    var cs', at' := Hung(cs, at, p, b, x), at[q := x];
    forall r ensures PlaceOk(cs', at', r) {
      assert PlaceOk(cs, at, r) && OnePlace(cs, at, r, p);
      if r in at' && r.width > 0 && (Below(r, 0) == q || Below(r, 1) == q) {
        assert r == p;
      }
      if r == q && r.width > 0 {
        NothingBelow(cs, at, q);
      }
    }
    forall r, r' ensures OnePlace(cs', at', r, r') {
      assert OnePlace(cs, at, r, r');
    }
  }

  lemma NothingBelow(cs: Chunks, at: Places, q: Place)
    requires TreesOk(cs, at) && q !in at && q.width > 0 && (q.width < RootWidth(q.bin) || q == Root(q.bin))
    ensures Below(q, 0) !in at && Below(q, 1) !in at
  {
    assert PlaceOk(cs, at, Below(q, 0)) && PlaceOk(cs, at, Below(q, 1));
    assert Above(Below(q, 0)) == q && Above(Below(q, 1)) == q;
  }

  /** `x` made the root of an empty bin. */
  function Planted(cs: Chunks, i: nat, x: nat): Chunks
    requires x in cs
  {
    cs[x := cs[x].(child0 := 0, child1 := 0, parent := Header(i))]
  }

  lemma PlantedOk(cs: Chunks, at: Places, i: nat, x: nat)
    requires TreesOk(cs, at) && x in cs && x != 0 && Unplaced(at, x) && NewSize(cs, at, cs[x].size)
    requires i < NTREEBINS && Root(i) !in at && Fits(cs[x], Root(i))
    ensures TreesOk(Planted(cs, i, x), at[Root(i) := x])
  {
    var q, cs', at' := Root(i), Planted(cs, i, x), at[Root(i) := x];
    NothingBelow(cs, at, q);
    forall r ensures PlaceOk(cs', at', r) {
      assert PlaceOk(cs, at, r);
      if r in at && r.bin == i {
        RootThere(cs, at, r);
      }
    }
    forall r, r' ensures OnePlace(cs', at', r, r') {
      assert OnePlace(cs, at, r, r');
    }
  }

  /** Which child of the place above a place is. */
  function Side(p: Place): nat {
    p.prefix % 2
  }

  lemma BelowAbove(p: Place, q: Place, b: nat)
    requires q.width > 0 && b < 2 && Below(q, b) == p
    ensures q == Above(p) && b == Side(p)
  {
  }

  ghost predicate Leaf(at: Places, p: Place) {
    p in at && Kid(at, p, 0) == 0 && Kid(at, p, 1) == 0
  }

  /** The leaf at `p` cut off: the pointer to it is null. */
  function CutOff(cs: Chunks, at: Places, p: Place): Chunks
    requires Above(p) in at && at[Above(p)] in cs
  {
    cs[at[Above(p)] := SetKid(cs[at[Above(p)]], Side(p), 0)]
  }

  lemma CutOffOk(cs: Chunks, at: Places, p: Place)
    requires TreesOk(cs, at) && Leaf(at, p) && p != Root(p.bin)
    ensures Above(p) in at && at[Above(p)] in cs && TreesOk(CutOff(cs, at, p), at - {p})
  {
    assert PlaceOk(cs, at, p) && PlaceOk(cs, at, Above(p));
    var cs', at' := CutOff(cs, at, p), at - {p};
    forall r ensures PlaceOk(cs', at', r) {
      assert PlaceOk(cs, at, r) && OnePlace(cs, at, r, Above(p));
      CutKids(cs, at, p, r);
    }
    forall r, r' ensures OnePlace(cs', at', r, r') {
      assert OnePlace(cs, at, r, r');
    }
  }

  lemma CutKids(cs: Chunks, at: Places, p: Place, r: Place)
    requires TreesOk(cs, at) && Leaf(at, p)
    ensures forall b :: 0 <= b < 2 ==> Kid(at - {p}, r, b) == if r == Above(p) && b == Side(p) then 0 else Kid(at, r, b)
    ensures r in at && r != Root(r.bin) && r != p ==> Above(r) != p
  {
    forall b | 0 <= b < 2 ensures Kid(at - {p}, r, b) == if r == Above(p) && b == Side(p) then 0 else Kid(at, r, b) {
      if r.width > 0 && Below(r, b) == p {
        BelowAbove(p, r, b);
      }
    }
    assert PlaceOk(cs, at, r) && PlaceOk(cs, at, p);
    assert Above(r) == p && r.width < RootWidth(r.bin) ==> p.width > 0 && r == Below(p, Side(r));
  }

  lemma UprootedOk(cs: Chunks, at: Places, i: nat)
    requires TreesOk(cs, at) && Leaf(at, Root(i))
    ensures TreesOk(cs, at - {Root(i)})
  {
    var p, at' := Root(i), at - {Root(i)};
    forall r ensures PlaceOk(cs, at', r) {
      assert PlaceOk(cs, at, r) && PlaceOk(cs, at, p);
      CutKids(cs, at, p, r);
      if r in at && r.width > 0 && r == Above(p) {
        assert r.bin == i && r.width <= RootWidth(i);
      }
    }
    forall r, r' ensures OnePlace(cs, at', r, r') {
      assert OnePlace(cs, at, r, r');
    }
  }

  /** The parent's pointer to `x` redirected to `r`; the first child is tried first. */
  function Redirected(cs: Chunks, x: nat, r: nat): Chunks
    requires x in cs
  {
    match cs[x].parent
    case Under(t) =>
      if t !in cs then cs
      else if cs[t].child0 == x then cs[t := cs[t].(child0 := r)]
      else cs[t := cs[t].(child1 := r)]
    case _ => cs
  }

  /** `r` takes over the parent and the children of `x`. */
  function TakenOver(cs: Chunks, x: nat, r: nat): Chunks
    requires x in cs && r in cs
  {
    var c0, c1 := cs[x].child0, cs[x].child1;
    var m1 := cs[r := cs[r].(parent := cs[x].parent)];
    var m2 := if c0 != 0 && c0 in m1 then Adopted(m1[r := m1[r].(child0 := c0)], c0, r) else m1;
    if c1 != 0 && c1 in m2 then Adopted(m2[r := m2[r].(child1 := c1)], c1, r) else m2
  }

  function Adopted(cs: Chunks, c: nat, r: nat): (m: Chunks)
    requires c in cs
    ensures m.Keys == cs.Keys
  {
    cs[c := cs[c].(parent := Under(r))]
  }

  /** `r` has the right bits for the place `p` and no other place has its size. */
  ghost predicate Suits(cs: Chunks, at: Places, p: Place, r: nat) {
    && r in cs && r != 0 && Unplaced(at, r) && cs[r].child0 == 0 && cs[r].child1 == 0 && Fits(cs[r], p)
    && forall q :: q in at && q != p && at[q] in cs ==> cs[at[q]].size != cs[r].size
  }

  lemma TakenOverIs(cs: Chunks, at: Places, p: Place, r: nat, a: nat)
    requires TreesOk(cs, at) && p in at && Suits(cs, at, p, r) && a != 0
    ensures at[p] in cs && at[p] in Redirected(cs, at[p], r) && r in Redirected(cs, at[p], r)
    ensures a in cs ==> a in TakenOver(Redirected(cs, at[p], r), at[p], r)
    ensures a in cs && a != at[p] ==>
      TakenOver(Redirected(cs, at[p], r), at[p], r)[a] ==
        if a == r then cs[r].(parent := cs[at[p]].parent, child0 := cs[at[p]].child0, child1 := cs[at[p]].child1)
        else if a == cs[at[p]].child0 || a == cs[at[p]].child1 then cs[a].(parent := Under(r))
        else if cs[at[p]].parent == Under(a) then if cs[a].child0 == at[p] then cs[a].(child0 := r) else cs[a].(child1 := r)
        else cs[a]
  {
    assert PlaceOk(cs, at, p);
    if p.width > 0 {
      assert PlaceOk(cs, at, Below(p, 0)) && PlaceOk(cs, at, Below(p, 1));
      assert OnePlace(cs, at, Below(p, 0), Above(p)) && OnePlace(cs, at, Below(p, 1), Above(p));
      assert OnePlace(cs, at, Below(p, 0), Below(p, 1));
      assert OnePlace(cs, at, Below(p, 0), p) && OnePlace(cs, at, Below(p, 1), p);
    }
    assert PlaceOk(cs, at, Above(p));
    assert OnePlace(cs, at, p, Above(p));
  }

  /** Which places point to the chunk at `p`: those next to it. */
  lemma NeighbourLinks(cs: Chunks, at: Places, p: Place, q: Place)
    requires TreesOk(cs, at) && p in at && q in at && q != p
    ensures at[p] != 0 && at[q] in cs && at[p] in cs
    ensures cs[at[q]].child0 == at[p] <==> q == Above(p) && Side(p) == 0 && p != Root(p.bin)
    ensures cs[at[q]].child1 == at[p] <==> q == Above(p) && Side(p) == 1 && p != Root(p.bin)
    ensures cs[at[q]].parent == Under(at[p]) <==> q != Root(q.bin) && Above(q) == p
    ensures at[q] == cs[at[p]].child0 <==> p.width > 0 && q == Below(p, 0)
    ensures at[q] == cs[at[p]].child1 <==> p.width > 0 && q == Below(p, 1)
    ensures cs[at[p]].parent == Under(at[q]) <==> p != Root(p.bin) && q == Above(p)
  {
    assert PlaceOk(cs, at, p) && PlaceOk(cs, at, q) && PlaceOk(cs, at, Above(p)) && PlaceOk(cs, at, Above(q));
    assert OnePlace(cs, at, Above(p), q) && OnePlace(cs, at, Above(q), p);
    if q.width > 0 {
      assert PlaceOk(cs, at, Below(q, 0)) && PlaceOk(cs, at, Below(q, 1));
      assert OnePlace(cs, at, Below(q, 0), p) && OnePlace(cs, at, Below(q, 1), p);
    }
    if p.width > 0 {
      assert PlaceOk(cs, at, Below(p, 0)) && PlaceOk(cs, at, Below(p, 1));
      assert OnePlace(cs, at, Below(p, 0), q) && OnePlace(cs, at, Below(p, 1), q);
    }
  }

  lemma TakenOverSize(cs: Chunks, at: Places, p: Place, r: nat, q: Place)
    requires TreesOk(cs, at) && p in at && Suits(cs, at, p, r) && q in at
    ensures at[p] in cs && at[p] in Redirected(cs, at[p], r) && r in Redirected(cs, at[p], r)
    ensures var m, b := TakenOver(Redirected(cs, at[p], r), at[p], r), at[p := r];
            b[q] in m && at[q] in cs && m[b[q]].size == cs[if q == p then r else at[q]].size
  {
    assert PlaceOk(cs, at, p) && PlaceOk(cs, at, q) && OnePlace(cs, at, p, q);
    TakenOverIs(cs, at, p, r, if q == p then r else at[q]);
  }

  lemma TakenOverPlace(cs: Chunks, at: Places, p: Place, r: nat, q: Place)
    requires TreesOk(cs, at) && p in at && Suits(cs, at, p, r) && q in at && q != p
    ensures at[p] in cs && at[p] in Redirected(cs, at[p], r) && r in Redirected(cs, at[p], r)
    ensures PlaceOk(TakenOver(Redirected(cs, at[p], r), at[p], r), at[p := r], q)
  {
    assert PlaceOk(cs, at, q) && PlaceOk(cs, at, p) && OnePlace(cs, at, p, q);
    TakenOverIs(cs, at, p, r, at[q]);
    NeighbourLinks(cs, at, p, q);
    hide TakenOver;
    hide Redirected;
    hide TreesOk;
    hide PlaceOk;
    TakenOverLinks(cs, at, p, r, q, TakenOver(Redirected(cs, at[p], r), at[p], r));
  }

  lemma TakenOverLinks(cs: Chunks, at: Places, p: Place, r: nat, q: Place, m: Chunks)
    requires PlaceOk(cs, at, q) && p in at && q in at && q != p && at[q] in m && at[p] in cs && r != 0
    requires p.width <= RootWidth(p.bin)
    requires m[at[q]] ==
      if at[q] == cs[at[p]].child0 || at[q] == cs[at[p]].child1 then cs[at[q]].(parent := Under(r))
      else if cs[at[p]].parent == Under(at[q]) then if cs[at[q]].child0 == at[p] then cs[at[q]].(child0 := r) else cs[at[q]].(child1 := r)
      else cs[at[q]]
    requires cs[at[q]].child0 == at[p] <==> q == Above(p) && Side(p) == 0 && p != Root(p.bin)
    requires cs[at[q]].child1 == at[p] <==> q == Above(p) && Side(p) == 1 && p != Root(p.bin)
    requires cs[at[q]].parent == Under(at[p]) <==> q != Root(q.bin) && Above(q) == p
    requires at[q] == cs[at[p]].child0 <==> p.width > 0 && q == Below(p, 0)
    requires at[q] == cs[at[p]].child1 <==> p.width > 0 && q == Below(p, 1)
    requires cs[at[p]].parent == Under(at[q]) <==> p != Root(p.bin) && q == Above(p)
    ensures PlaceOk(m, at[p := r], q)
  {
  }

  /** Replacing the chunk at a place by another that suits it. */
  lemma TakenOverOk(cs: Chunks, at: Places, p: Place, r: nat)
    requires TreesOk(cs, at) && p in at && Suits(cs, at, p, r)
    ensures at[p] in cs && at[p] in Redirected(cs, at[p], r) && r in Redirected(cs, at[p], r)
    ensures TreesOk(TakenOver(Redirected(cs, at[p], r), at[p], r), at[p := r])
  {
    assert PlaceOk(cs, at, p);
    TakenOverSize(cs, at, p, r, p);
    var cs', at' := TakenOver(Redirected(cs, at[p], r), at[p], r), at[p := r];
    forall q ensures PlaceOk(cs', at', q) {
      if q == p {
        TakenOverSelf(cs, at, p, r);
      } else if q in at {
        TakenOverPlace(cs, at, p, r, q);
      }
    }
    hide TakenOver;
    hide Redirected;
    hide PlaceOk;
    forall q, q' ensures OnePlace(cs', at', q, q') {
      assert OnePlace(cs, at, q, q');
      if q in at && q' in at {
        TakenOverSize(cs, at, p, r, q);
        TakenOverSize(cs, at, p, r, q');
      }
    }
  }

  lemma TakenOverSelf(cs: Chunks, at: Places, p: Place, r: nat)
    requires TreesOk(cs, at) && p in at && Suits(cs, at, p, r)
    ensures at[p] in cs && at[p] in Redirected(cs, at[p], r) && r in Redirected(cs, at[p], r)
    ensures PlaceOk(TakenOver(Redirected(cs, at[p], r), at[p], r), at[p := r], p)
  {
    assert PlaceOk(cs, at, p) && PlaceOk(cs, at, Above(p));
    TakenOverIs(cs, at, p, r, r);
  }
}
