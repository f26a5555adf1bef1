/**
 What inserting and unlinking a chunk do to the tries and rings together.
 */
module BinEdits {
  import opened Sequences
  import opened SizeIndex
  import opened TreeBins
  import opened TreeSearch
  import opened ChunkRings

  /** Some chunk of the same size is in its bin's trie. */
  ghost predicate Represented(cs: Chunks, at: Places, a: nat) {
    a in cs ==> exists p :: p in at && at[p] in cs && SizeAt(cs, at, p) == cs[a].size
  }

  /** A chunk outside the tries has no tree pointers. */
  ghost predicate Chained(cs: Chunks, at: Places, a: nat) {
    a in cs && Unplaced(at, a) ==> cs[a].parent == NoParent && cs[a].child0 == 0 && cs[a].child1 == 0
  }

  ghost predicate BinsOk(cs: Chunks, at: Places, rings: Rings) {
    && TreesOk(cs, at) && SizesOk(cs) && RingsOk(cs, rings)
    && (forall a {:trigger Represented(cs, at, a)} :: Represented(cs, at, a))
    && (forall a {:trigger Chained(cs, at, a)} :: Chained(cs, at, a))
  }

  /** The tries only depend on the tree fields of the chunks in them. */
  lemma TreesFrame(cs: Chunks, cs': Chunks, at: Places)
    requires TreesOk(cs, at)
    requires forall p :: p in at && at[p] in cs ==> at[p] in cs' && SameTree(cs[at[p]], cs'[at[p]])
    ensures TreesOk(cs', at)
  {
    forall p ensures PlaceOk(cs', at, p) {
      assert PlaceOk(cs, at, p);
    }
    forall p, q ensures OnePlace(cs', at, p, q) {
      assert OnePlace(cs, at, p, q) && PlaceOk(cs, at, p) && PlaceOk(cs, at, q);
    }
  }

  ghost predicate SameTree(c: TChunk, d: TChunk) {
    d == c.(fd := d.fd, bk := d.bk)
  }

  // ----- inserting -----

  /** A new chunk record of size `s`, not yet linked. */
  function Loose(x: nat, s: nat): TChunk {
    TChunk(s, x, x, 0, 0, NoParent, TreeIndex(s))
  }

  ghost predicate Insertable(cs: Chunks, at: Places, rings: Rings, x: nat, s: nat) {
    BinsOk(cs, at, rings) && x !in cs && x != 0 && MIN_LARGE_SIZE <= s < LARGEST
  }

  lemma LooseOk(cs: Chunks, at: Places, rings: Rings, x: nat, s: nat)
    requires Insertable(cs, at, rings, x, s)
    ensures TreesOk(cs[x := Loose(x, s)], at) && Unplaced(at, x) && TreeIndex(s) < NTREEBINS && InBin(s, TreeIndex(s))
    ensures forall c: TChunk :: c.size == s && c.index == TreeIndex(s) ==> SizesOk(cs[x := c])
    ensures NewSize(cs, at, s) ==> NewSize(cs[x := Loose(x, s)], at, s) && s !in rings
  {
    TreeIndexExact(s);
    forall p ensures p in at ==> at[p] in cs && at[p] != x {
      assert PlaceOk(cs, at, p);
    }
    TreesFrame(cs, cs[x := Loose(x, s)], at);
    if s in rings {
      assert RingOk(cs, rings, s);
      RingElements(cs, rings[s], s);
      assert rings[s][0] in cs && Represented(cs, at, rings[s][0]);
    }
  }

  lemma PlantOk(cs: Chunks, at: Places, rings: Rings, x: nat, s: nat)
    requires Insertable(cs, at, rings, x, s) && Root(TreeIndex(s)) !in at
    requires Fits(Loose(x, s), Root(TreeIndex(s)))
    ensures BinsOk(cs[x := Loose(x, s).(parent := Header(TreeIndex(s)))], at[Root(TreeIndex(s)) := x], rings[s := [x]])
  {
    var i := TreeIndex(s);
    NewInBin(cs, at, rings, s);
    LooseOk(cs, at, rings, x, s);
    PlantedOk(cs[x := Loose(x, s)], at, i, x);
    var c := Loose(x, s).(parent := Header(i));
    assert Planted(cs[x := Loose(x, s)], i, x) == cs[x := c];
    Alone(cs, rings, x, c);
    var cs', at' := cs[x := c], at[Root(i) := x];
    forall a ensures Represented(cs', at', a) && Chained(cs', at', a) {
      PlacedMore(cs, at, x, c, Root(i), a);
    }
  }

  lemma NewInBin(cs: Chunks, at: Places, rings: Rings, s: nat)
    requires BinsOk(cs, at, rings) && Root(TreeIndex(s)) !in at
    ensures NewSize(cs, at, s)
  {
    forall p | p in at && at[p] in cs ensures cs[at[p]].size != s {
      RootThere(cs, at, p);
      assert PlaceOk(cs, at, p);
    }
  }

  lemma PlacedMore(cs: Chunks, at: Places, x: nat, c: TChunk, q: Place, a: nat)
    requires x !in cs && q !in at && Represented(cs, at, a) && Chained(cs, at, a)
    ensures Represented(cs[x := c], at[q := x], a) && Chained(cs[x := c], at[q := x], a)
  {
    var cs', at' := cs[x := c], at[q := x];
    if a == x {
      assert at'[q] == x && SizeAt(cs', at', q) == c.size;
    } else if a in cs {
      var p :| p in at && at[p] in cs && SizeAt(cs, at, p) == cs[a].size;
      assert at'[p] == at[p] && SizeAt(cs', at', p) == cs[a].size;
      assert Unplaced(at', a) ==> Unplaced(at, a) by {
        assert forall p :: p in at ==> p in at' && at'[p] == at[p];
      }
    }
  }

  /** No place on the way down to `w` holds a chunk of size `s`. */
  ghost predicate NoneOnWay(cs: Chunks, at: Places, i: nat, s: nat, w: nat) {
    forall p :: p in at && p.bin == i && p.width > w && p == On(i, s, p.width) ==> SizeAt(cs, at, p) != s
  }

  lemma OnWay(cs: Chunks, at: Places, q: Place, s: nat)
    requires TreesOk(cs, at) && SizesOk(cs) && q in at && at[q] in cs && cs[at[q]].size == s
    ensures q == On(TreeIndex(s), s, q.width) && q.width <= RootWidth(q.bin)
  {
    assert PlaceOk(cs, at, q);
    WayThere(cs, at, q, q.width);
  }

  lemma WayEnds(cs: Chunks, at: Places, rings: Rings, s: nat, p: Place)
    requires BinsOk(cs, at, rings) && p in at && p == On(TreeIndex(s), s, p.width)
    requires NoneOnWay(cs, at, TreeIndex(s), s, p.width) && SizeAt(cs, at, p) != s
    ensures p.width > 0 && Below(p, Pre(s, p.width - 1) % 2) == On(TreeIndex(s), s, p.width - 1)
    ensures NoneOnWay(cs, at, TreeIndex(s), s, p.width - 1)
    ensures Below(p, Pre(s, p.width - 1) % 2) !in at ==> NewSize(cs, at, s)
  {
    assert PlaceOk(cs, at, p);
    PreNext(s, p.width - 1);
    forall q | q in at && at[q] in cs && cs[at[q]].size == s ensures On(TreeIndex(s), s, p.width - 1) in at {
      OnWay(cs, at, q, s);
      assert q.width < p.width;
      WayThere(cs, at, q, p.width - 1);
    }
  }

  lemma HungSame(m: Chunks, at: Places, p: Place, b: nat, x: nat, a: nat)
    requires p in at && at[p] in m && x in m && a in m && at[p] != x
    ensures a in Hung(m, at, p, b, x) && Hung(m, at, p, b, x).Keys == m.Keys
    ensures var c := Hung(m, at, p, b, x)[a]; c.size == m[a].size && c.fd == m[a].fd && c.bk == m[a].bk && c.index == m[a].index
    ensures a != x && a != at[p] ==> Hung(m, at, p, b, x)[a] == m[a]
  {
  }

  /** Hanging a chunk below another leaves sizes and rings alone. */
  lemma HungKept(m: Chunks, at: Places, rings: Rings, p: Place, b: nat, x: nat)
    requires p in at && at[p] in m && x in m && at[p] != x && SizesOk(m) && RingsOk(m, rings)
    ensures SizesOk(Hung(m, at, p, b, x)) && RingsOk(Hung(m, at, p, b, x), rings)
  {
    var m' := Hung(m, at, p, b, x);
    HungSame(m, at, p, b, x, x);
    forall a | a in m ensures a in m' && m'[a].size == m[a].size && m'[a].fd == m[a].fd && m'[a].bk == m[a].bk && m'[a].index == m[a].index {
      HungSame(m, at, p, b, x, a);
    }
    SameRings(m, m', rings);
  }

  lemma HungPlaced(m: Chunks, at: Places, p: Place, b: nat, x: nat, a: nat)
    requires p in at && at[p] in m && x in m && at[p] != x && p.width > 0 && Below(p, b) !in at
    requires Represented(m, at[Below(p, b) := x], a) && Chained(m, at[Below(p, b) := x], a)
    ensures Represented(Hung(m, at, p, b, x), at[Below(p, b) := x], a) && Chained(Hung(m, at, p, b, x), at[Below(p, b) := x], a)
  {
    var m', at' := Hung(m, at, p, b, x), at[Below(p, b) := x];
    HungSame(m, at, p, b, x, x);
    forall c | c in m ensures c in m' && m'[c].size == m[c].size {
      HungSame(m, at, p, b, x, c);
    }
    HungChained(m, at, p, b, x, a);
    StillRepresented(m, m', at', a);
  }

  /** The tries with the new chunk hung below `p`. */
  lemma HangTree(cs: Chunks, at: Places, rings: Rings, x: nat, s: nat, p: Place)
    requires Insertable(cs, at, rings, x, s) && p in at && p == On(TreeIndex(s), s, p.width) && p.width > 0
    requires Below(p, Pre(s, p.width - 1) % 2) !in at && NewSize(cs, at, s)
    ensures var b, m := Pre(s, p.width - 1) % 2, cs[x := Loose(x, s)];
            && at[p] in cs && at[p] != x && SizesOk(m) && s !in rings
            && TreesOk(Hung(m, at, p, b, x), at[Below(p, b) := x])
  {
    assert PlaceOk(cs, at, p);
    PreNext(s, p.width - 1);
    LooseOk(cs, at, rings, x, s);
    HungOk(cs[x := Loose(x, s)], at, p, Pre(s, p.width - 1) % 2, x);
  }

  lemma HangOk(cs: Chunks, at: Places, rings: Rings, x: nat, s: nat, p: Place)
    requires Insertable(cs, at, rings, x, s) && p in at && p == On(TreeIndex(s), s, p.width) && p.width > 0
    requires Below(p, Pre(s, p.width - 1) % 2) !in at && NewSize(cs, at, s)
    ensures var b := Pre(s, p.width - 1) % 2;
            at[p] in cs && BinsOk(Hung(cs[x := Loose(x, s)], at, p, b, x), at[Below(p, b) := x], rings[s := [x]])
  {
    hide TreesOk;
    hide Hung;
    hide Pre;
    var b, m := Pre(s, p.width - 1) % 2, cs[x := Loose(x, s)];
    HangTree(cs, at, rings, x, s, p);
    Alone(cs, rings, x, m[x]);
    HungKept(m, at, rings[s := [x]], p, b, x);
    var cs', at' := Hung(m, at, p, b, x), at[Below(p, b) := x];
    hide RingsOk;
    hide SizesOk;
    forall a ensures Represented(cs', at', a) && Chained(cs', at', a) {
      assert Represented(cs, at, a) && Chained(cs, at, a);
      PlacedMore(cs, at, x, m[x], Below(p, b), a);
      HungPlaced(m, at, p, b, x, a);
    }
  }

  lemma HungChained(m: Chunks, at: Places, p: Place, b: nat, x: nat, a: nat)
    requires p in at && at[p] in m && x in m && at[p] != x && p.width > 0 && Below(p, b) !in at
    requires Chained(m, at[Below(p, b) := x], a)
    ensures Chained(Hung(m, at, p, b, x), at[Below(p, b) := x], a)
  {
    var at' := at[Below(p, b) := x];
    if a in m && Unplaced(at', a) {
      HungSame(m, at, p, b, x, a);
      assert at'[Below(p, b)] == x && at'[p] == at[p];
    }
  }

  /** Rings depend on sizes and ring pointers only. */
  lemma SameRings(cs: Chunks, cs': Chunks, rings: Rings)
    requires RingsOk(cs, rings) && cs'.Keys == cs.Keys
    requires forall a :: a in cs ==> a in cs' && cs'[a].size == cs[a].size && cs'[a].fd == cs[a].fd && cs'[a].bk == cs[a].bk
    ensures RingsOk(cs', rings)
  {
    forall s ensures RingOk(cs', rings, s) {
      assert RingOk(cs, rings, s);
      if s in rings {
        RingElements(cs, rings[s], s);
        RingFrame(cs, cs', rings[s], s);
      }
    }
    forall a ensures InRing(cs', rings, a) {
      assert InRing(cs, rings, a);
    }
  }

  lemma StillRepresented(cs: Chunks, cs': Chunks, at: Places, a: nat)
    requires cs'.Keys == cs.Keys && (forall c :: c in cs ==> c in cs' && cs'[c].size == cs[c].size)
    requires Represented(cs, at, a)
    ensures Represented(cs', at, a)
  {
    if a in cs {
      var p :| p in at && at[p] in cs && SizeAt(cs, at, p) == cs[a].size;
      assert at[p] in cs' && SizeAt(cs', at, p) == cs'[a].size;
    }
  }

  lemma JoinOk(cs: Chunks, at: Places, rings: Rings, x: nat, s: nat, p: Place)
    requires Insertable(cs, at, rings, x, s) && p in at && SizeAt(cs, at, p) == s
    ensures at[p] in cs && s in rings && at[p] in rings[s]
    ensures BinsOk(Joined(cs, at[p], x, Loose(x, s)), at, rings[s := InsertedAfter(rings[s], IndexOf(rings[s], at[p]), x)])
  {
    var t, c := at[p], Loose(x, s);
    assert PlaceOk(cs, at, p) && InRing(cs, rings, t) && RingOk(cs, rings, s);
    LooseOk(cs, at, rings, x, s);
    JoinedOk(cs, rings, t, x, c);
    RingElements(cs, rings[s], s);
    assert RingLink(cs, rings[s], s, IndexOf(rings[s], t));
    var cs' := Joined(cs, t, x, c);
    forall a | a in cs ensures a in cs' && SameTree(cs[a], cs'[a]) {
      JoinedIs(cs, t, x, c, a);
    }
    JoinedIs(cs, t, x, c, t);
    TreesFrame(cs, cs', at);
    assert SizesOk(cs') by {
      assert SizesOk(cs[x := c]);
    }
    forall a ensures Represented(cs', at, a) && Chained(cs', at, a) {
      assert Represented(cs, at, a) && Chained(cs, at, a);
      if a == x {
        assert SizeAt(cs', at, p) == s;
      } else if a in cs {
        var q :| q in at && at[q] in cs && SizeAt(cs, at, q) == cs[a].size;
        assert at[q] in cs' && SizeAt(cs', at, q) == cs'[a].size;
      }
    }
  }

  // ----- unlinking -----

  ghost predicate Removed(cs: Chunks, m: Chunks, x: nat) {
    m.Keys == cs.Keys - {x} && forall a :: a in m ==> a in cs && m[a].size == cs[a].size
  }

  ghost predicate SameButLinks(c: TChunk, d: TChunk) {
    d.size == c.size && d.index == c.index && d.fd == c.fd && d.bk == c.bk
  }

  /** Moving `r` to the place of `x` changes tree pointers only, and only of chunks in the tries. */
  lemma MovedSame(cs: Chunks, at: Places, p: Place, r: nat)
    requires TreesOk(cs, at) && p in at && Suits(cs, at, p, r) && 0 !in cs
    ensures at[p] in cs && at[p] in Redirected(cs, at[p], r) && r in Redirected(cs, at[p], r)
    ensures var m := TakenOver(Redirected(cs, at[p], r), at[p], r);
            && m.Keys == cs.Keys
            && (forall a :: a in cs && a != at[p] ==> SameButLinks(cs[a], m[a]))
            && (forall a :: a in cs && a != r && Unplaced(at, a) ==> m[a] == cs[a])
  {
    assert PlaceOk(cs, at, p);
    TakenOverIs(cs, at, p, r, r);
    var m := TakenOver(Redirected(cs, at[p], r), at[p], r);
    forall a | a in cs && a != at[p] ensures SameButLinks(cs[a], m[a]) {
      TakenOverIs(cs, at, p, r, a);
    }
    forall a | a in cs && a != r && Unplaced(at, a) ensures m[a] == cs[a] {
      TakenOverIs(cs, at, p, r, a);
      NotNeighbour(cs, at, p, a);
    }
  }

  lemma NotNeighbour(cs: Chunks, at: Places, p: Place, a: nat)
    requires TreesOk(cs, at) && p in at && Unplaced(at, a) && a != 0
    ensures at[p] in cs && a != at[p] && a != cs[at[p]].child0 && a != cs[at[p]].child1 && cs[at[p]].parent != Under(a)
  {
    assert PlaceOk(cs, at, p);
  }

  /** Leaving out a chunk that is in no trie. */
  lemma Dropped(cs: Chunks, at: Places, x: nat)
    requires TreesOk(cs, at) && SizesOk(cs) && Unplaced(at, x)
    ensures TreesOk(cs - {x}, at) && SizesOk(cs - {x})
  {
    TreesFrame(cs, cs - {x}, at);
  }

  lemma UnlinkChained(cs: Chunks, at: Places, rings: Rings, x: nat)
    requires BinsOk(cs, at, rings) && x in cs && Unplaced(at, x)
    ensures cs[x].bk != x && cs[x].size in rings && x in rings[cs[x].size]
    ensures BinsOk(Bridged(cs, x) - {x}, at, rings[cs[x].size := Skipped(rings[cs[x].size], IndexOf(rings[cs[x].size], x))])
  {
    assert Represented(cs, at, x);
    var p :| p in at && at[p] in cs && SizeAt(cs, at, p) == cs[x].size;
    if cs[x].bk == x {
      LastGone(cs, rings, x);
    }
    BridgedOk(cs, rings, x);
    BridgedSame(cs, rings, x);
    var cs' := Bridged(cs, x) - {x};
    TreesFrame(cs, Bridged(cs, x), at);
    Dropped(Bridged(cs, x), at, x);
    forall a ensures Represented(cs', at, a) && Chained(cs', at, a) {
      assert Represented(cs, at, a) && Chained(cs, at, a);
      if a in cs' {
        var q :| q in at && at[q] in cs && SizeAt(cs, at, q) == cs[a].size;
        assert at[q] in cs' && SizeAt(cs', at, q) == cs'[a].size;
      }
    }
  }

  lemma BridgedSame(cs: Chunks, rings: Rings, x: nat)
    requires RingsOk(cs, rings) && x in cs
    ensures Bridged(cs, x).Keys == cs.Keys && forall a :: a in cs ==> SameTree(cs[a], Bridged(cs, x)[a])
  {
    assert InRing(cs, rings, x) && RingOk(cs, rings, cs[x].size);
    var r, k := rings[cs[x].size], IndexOf(rings[cs[x].size], x);
    RingElements(cs, r, cs[x].size);
    assert RingLink(cs, r, cs[x].size, k);
    forall a | a in cs ensures SameTree(cs[a], Bridged(cs, x)[a]) {
      BridgedIs(cs, x, a);
    }
  }

  /** The rest of a chunk's ring once it is unlinked. */
  function RingsWithout(cs: Chunks, rings: Rings, x: nat): Rings
    requires x in cs
  {
    var s := cs[x].size;
    if cs[x].bk == x then rings - {s}
    else if s in rings && x in rings[s] then rings[s := Skipped(rings[s], IndexOf(rings[s], x))]
    else rings
  }

  lemma NoNull(cs: Chunks, at: Places, rings: Rings)
    requires BinsOk(cs, at, rings)
    ensures 0 !in cs && forall p :: p in at ==> at[p] in cs
  {
    forall p | p in at ensures at[p] in cs {
      assert PlaceOk(cs, at, p);
    }
  }

  /** A chunk of the same size suits the place of the one it is chained to. */
  lemma NextSuits(cs: Chunks, at: Places, rings: Rings, p: Place, r: nat)
    requires BinsOk(cs, at, rings) && p in at && at[p] in cs && r in cs && r != at[p] && cs[r].size == cs[at[p]].size
    ensures Suits(cs, at, p, r)
  {
    NoNull(cs, at, rings);
    assert PlaceOk(cs, at, p);
    forall q | q in at ensures at[q] != r && (q != p ==> cs[at[q]].size != cs[r].size) {
      assert OnePlace(cs, at, p, q);
    }
    assert Chained(cs, at, r);
  }

  lemma SuitsFrame(cs: Chunks, m: Chunks, at: Places, p: Place, r: nat)
    requires Suits(cs, at, p, r) && m.Keys == cs.Keys && forall a :: a in cs ==> SameTree(cs[a], m[a])
    ensures Suits(m, at, p, r)
  {
  }

  /** A place that held a chunk of `a`'s size still does, or the moved chunk has that size. */
  ghost predicate SizeKept(cs: Chunks, at: Places, at': Places, x: nat, r: nat, q: Place, a: nat) {
    q in at && at[q] in cs && a in cs && a != x && r in cs && cs[at[q]].size == cs[a].size ==>
      (q in at' && at'[q] in cs && at'[q] != x && cs[at'[q]].size == cs[a].size) || cs[r].size == cs[a].size
  }

  ghost predicate ChunkKept(cs: Chunks, m: Chunks, at: Places, at': Places, x: nat, r: nat, a: nat) {
    a in cs && a != x ==>
      && Represented(cs, at, a) && a in m && SameButLinks(cs[a], m[a])
      && (a != r && Unplaced(at', a) ==> Unplaced(at, a) && m[a] == cs[a] && Chained(cs, at, a))
  }

  /** Chunks that stay: sizes, rings and the rest follow from the trees alone. */
  lemma AfterMove(cs: Chunks, m: Chunks, at: Places, at': Places, rings: Rings, p: Place, x: nat, r: nat)
    requires TreesOk(m, at') && SizesOk(cs) && x in cs && r in cs && r != x && m.Keys == cs.Keys && Unplaced(at', x)
    requires RingsOk(cs - {x}, rings) && p in at' && at'[p] == r
    requires forall a {:trigger ChunkKept(cs, m, at, at', x, r, a)} :: ChunkKept(cs, m, at, at', x, r, a)
    requires forall q, a {:trigger SizeKept(cs, at, at', x, r, q, a)} :: SizeKept(cs, at, at', x, r, q, a)
    ensures BinsOk(m - {x}, at', rings)
  {
    var cs' := m - {x};
    hide Represented;
    hide Chained;
    hide Unplaced;
    forall a | a in cs' ensures a in cs && SameButLinks(cs[a], cs'[a]) {
      assert ChunkKept(cs, m, at, at', x, r, a);
    }
    AfterMoveTrees(cs, m, at', rings, x);
    forall a ensures Represented(cs', at', a) && Chained(cs', at', a) {
      assert ChunkKept(cs, m, at, at', x, r, a);
      AfterMoveOne(cs, m, at, at', p, x, r, a);
    }
  }

  lemma AfterMoveTrees(cs: Chunks, m: Chunks, at': Places, rings: Rings, x: nat)
    requires TreesOk(m, at') && SizesOk(cs) && m.Keys == cs.Keys && Unplaced(at', x) && RingsOk(cs - {x}, rings)
    requires forall a :: a in m - {x} ==> a in cs && SameButLinks(cs[a], m[a])
    ensures TreesOk(m - {x}, at') && SizesOk(m - {x}) && RingsOk(m - {x}, rings)
  {
    TreesFrame(m, m - {x}, at');
    SameRings(cs - {x}, m - {x}, rings);
  }

  lemma AfterMoveOne(cs: Chunks, m: Chunks, at: Places, at': Places, p: Place, x: nat, r: nat, a: nat)
    requires x in cs && r in cs && r != x && m.Keys == cs.Keys && p in at' && at'[p] == r
    requires forall c :: c in m - {x} ==> c in cs && SameButLinks(cs[c], m[c])
    requires ChunkKept(cs, m, at, at', x, r, a)
    requires forall q, c {:trigger SizeKept(cs, at, at', x, r, q, c)} :: SizeKept(cs, at, at', x, r, q, c)
    ensures Represented(m - {x}, at', a) && Chained(m - {x}, at', a)
  {
    var cs' := m - {x};
    if a in cs' {
      assert Represented(cs, at, a);
      var q :| q in at && at[q] in cs && SizeAt(cs, at, q) == cs[a].size;
      assert SizeKept(cs, at, at', x, r, q, a);
      var w := if cs[r].size == cs[a].size then p else q;
      assert at'[w] in cs' && SizeAt(cs', at', w) == cs'[a].size;
      assert Unplaced(at', a) ==> a != r;
    }
  }

  lemma BaseMoved(cs: Chunks, at: Places, rings: Rings, p: Place)
    requires BinsOk(cs, at, rings) && p in at && at[p] in cs && cs[at[p]].bk != at[p]
    ensures var x, r, m := at[p], cs[at[p]].bk, Bridged(cs, at[p]);
            && x in m && x in Redirected(m, x, r) && r in Redirected(m, x, r)
            && r in cs && cs[r].size == cs[x].size && Suits(m, at, p, r)
            && m.Keys == cs.Keys && (forall a :: a in cs ==> SameTree(cs[a], m[a]))
            && TreesOk(TakenOver(Redirected(m, x, r), x, r), at[p := r])
  {
    var x, r, m := at[p], cs[at[p]].bk, Bridged(cs, at[p]);
    NoNull(cs, at, rings);
    BridgedOk(cs, rings, x);
    BridgedSame(cs, rings, x);
    TreesFrame(cs, m, at);
    NextSuits(cs, at, rings, p, r);
    SuitsFrame(cs, m, at, p, r);
    TakenOverOk(m, at, p, r);
  }

  /** Unlinking the chunk in the trie when others have its size: the one before it takes its place. */
  lemma UnlinkBase(cs: Chunks, at: Places, rings: Rings, p: Place)
    requires BinsOk(cs, at, rings) && p in at && at[p] in cs && cs[at[p]].bk != at[p]
    ensures var x, r, m := at[p], cs[at[p]].bk, Bridged(cs, at[p]);
            && x in m && x in Redirected(m, x, r) && r in Redirected(m, x, r)
            && BinsOk(TakenOver(Redirected(m, x, r), x, r) - {x}, at[p := r], RingsWithout(cs, rings, x))
            && Removed(cs, TakenOver(Redirected(m, x, r), x, r) - {x}, x)
  {
    var x, r, m := at[p], cs[at[p]].bk, Bridged(cs, at[p]);
    NoNull(cs, at, rings);
    BaseMoved(cs, at, rings, p);
    BridgedOk(cs, rings, x);
    assert TreesOk(m, at) by {
      TreesFrame(cs, m, at);
    }
    hide TreesOk;
    hide RingsOk;
    MovedSame(m, at, p, r);
    hide TakenOver;
    hide Redirected;
    hide Bridged;
    var n, at' := TakenOver(Redirected(m, x, r), x, r), at[p := r];
    BaseReady(cs, m, n, at, rings, p, r);
    AfterMove(m, n, at, at', RingsWithout(cs, rings, x), p, x, r);
  }

  lemma BaseReady(cs: Chunks, m: Chunks, n: Chunks, at: Places, rings: Rings, p: Place, r: nat)
    requires BinsOk(cs, at, rings) && p in at && at[p] in cs && r in cs && Suits(m, at, p, r) && r != at[p]
    requires m.Keys == cs.Keys && (forall a :: a in cs ==> SameTree(cs[a], m[a])) && n.Keys == m.Keys
    requires cs[r].size == cs[at[p]].size
    requires forall a :: a in m && a != at[p] ==> SameButLinks(m[a], n[a])
    requires forall a :: a in m && a != r && Unplaced(at, a) ==> n[a] == m[a]
    ensures SizesOk(m) && Unplaced(at[p := r], at[p])
    ensures forall a {:trigger ChunkKept(m, n, at, at[p := r], at[p], r, a)} :: ChunkKept(m, n, at, at[p := r], at[p], r, a)
    ensures forall q, a {:trigger SizeKept(m, at, at[p := r], at[p], r, q, a)} :: SizeKept(m, at, at[p := r], at[p], r, q, a)
  {
    NoNull(cs, at, rings);
    var x, at' := at[p], at[p := r];
    forall q | q in at' ensures at'[q] != x {
      assert q in at ==> OnePlace(cs, at, p, q);
    }
    forall a ensures ChunkKept(m, n, at, at', x, r, a) {
      if a in m && a != x {
        assert Represented(cs, at, a) && Chained(cs, at, a);
        StillRepresented(cs, m, at, a);
        assert Unplaced(at', a) ==> Unplaced(at, a) by {
          assert forall q :: q in at && q != p ==> at'[q] == at[q];
        }
      }
    }
    forall q, a ensures SizeKept(m, at, at', x, r, q, a) {
      assert q in at && q != p ==> at'[q] == at[q] && OnePlace(cs, at, p, q);
    }
  }

  /** Redirecting the parent of a leaf to null cuts the leaf off. */
  lemma RedirectedNull(cs: Chunks, at: Places, p: Place)
    requires TreesOk(cs, at) && p in at && at[p] in cs && p != Root(p.bin)
    ensures Above(p) in at && at[Above(p)] in cs && Redirected(cs, at[p], 0) == CutOff(cs, at, p)
  {
    assert PlaceOk(cs, at, p) && PlaceOk(cs, at, Above(p));
    assert OnePlace(cs, at, p, Above(p));
    NeighbourLinks(cs, at, p, Above(p));
  }

  /** Unlinking a leaf of the trie that is the only chunk of its size. */
  lemma UnlinkLeaf(cs: Chunks, at: Places, rings: Rings, p: Place)
    requires BinsOk(cs, at, rings) && Leaf(at, p) && at[p] in cs && cs[at[p]].bk == at[p]
    ensures var m := if p == Root(p.bin) then cs else Redirected(cs, at[p], 0);
            BinsOk(m - {at[p]}, at - {p}, RingsWithout(cs, rings, at[p])) && Removed(cs, m - {at[p]}, at[p])
  {
    var x, at' := at[p], at - {p};
    LastGone(cs, rings, x);
    NoNull(cs, at, rings);
    var m := if p == Root(p.bin) then cs else Redirected(cs, x, 0);
    if p == Root(p.bin) {
      UprootedOk(cs, at, p.bin);
    } else {
      RedirectedNull(cs, at, p);
      CutOffOk(cs, at, p);
    }
    LeafGone(cs, m, at, rings, p);
  }

  lemma LeafGoneOne(cs: Chunks, m: Chunks, at: Places, rings: Rings, p: Place, a: nat)
    requires BinsOk(cs, at, rings) && p in at && at[p] in cs && 0 !in cs
    requires m == cs || (Above(p) in at && at[Above(p)] in cs && m == CutOff(cs, at, p))
    requires a in cs && a != at[p] ==> cs[a].size != cs[at[p]].size
    ensures Represented(m - {at[p]}, at - {p}, a) && Chained(m - {at[p]}, at - {p}, a)
  {
    var x, at', cs' := at[p], at - {p}, m - {at[p]};
    if a in cs' {
      assert Represented(cs, at, a) && Chained(cs, at, a);
      var q :| q in at && at[q] in cs && SizeAt(cs, at, q) == cs[a].size;
      assert OnePlace(cs, at, p, q);
      assert q in at' && at'[q] in cs' && SizeAt(cs', at', q) == cs'[a].size;
      if Unplaced(at', a) {
        forall q | q in at ensures at[q] != a {
          assert q != p ==> at'[q] == at[q];
        }
      }
    }
  }

  lemma LeafGone(cs: Chunks, m: Chunks, at: Places, rings: Rings, p: Place)
    requires BinsOk(cs, at, rings) && p in at && at[p] in cs && TreesOk(m, at - {p})
    requires m == cs || (Above(p) in at && at[Above(p)] in cs && m == CutOff(cs, at, p))
    requires forall a :: a in cs && a != at[p] ==> cs[a].size != cs[at[p]].size
    requires RingsOk(cs - {at[p]}, RingsWithout(cs, rings, at[p]))
    ensures BinsOk(m - {at[p]}, at - {p}, RingsWithout(cs, rings, at[p]))
  {
    var x, at', cs' := at[p], at - {p}, m - {at[p]};
    NoNull(cs, at, rings);
    assert Unplaced(at', x) by {
      forall q | q in at' ensures at'[q] != x {
        assert OnePlace(cs, at, p, q);
      }
    }
    forall a | a in cs ensures a in m && SameButLinks(cs[a], m[a]) {
    }
    AfterMoveTrees(cs, m, at', RingsWithout(cs, rings, x), x);
    hide TreesOk;
    hide Represented;
    hide Chained;
    forall a ensures Represented(cs', at', a) && Chained(cs', at', a) {
      LeafGoneOne(cs, m, at, rings, p, a);
    }
  }

  /** A leaf below `p` suits the place `p` once it is cut off. */
  lemma LeafSuits(cs: Chunks, at: Places, rings: Rings, p: Place, q: Place)
    requires BinsOk(cs, at, rings) && p in at && Leaf(at, q) && q != p && InTree(cs, at, p, q)
    ensures q != Root(q.bin) && Above(q) in at && at[Above(q)] in cs && at[q] in cs && at[q] != at[p]
    ensures Suits(CutOff(cs, at, q), at - {q}, p, at[q])
  {
    NoNull(cs, at, rings);
    assert PlaceOk(cs, at, p) && PlaceOk(cs, at, q) && PlaceOk(cs, at, Above(q));
    WayThere(cs, at, q, q.width);
    assert OnePlace(cs, at, p, q) && OnePlace(cs, at, q, Above(q));
    forall o | o in at - {q} ensures at[o] != at[q] && (o != p ==> cs[at[o]].size != cs[at[q]].size) {
      assert OnePlace(cs, at, o, q);
    }
  }

  lemma InnerMoved(cs: Chunks, at: Places, rings: Rings, p: Place, q: Place)
    requires BinsOk(cs, at, rings) && p in at && at[p] in cs
    requires Leaf(at, q) && q != p && InTree(cs, at, p, q)
    ensures Above(q) in at && at[Above(q)] in cs && q in at && at[q] in cs && at[q] != at[p]
    ensures var x, r, m, at1 := at[p], at[q], CutOff(cs, at, q), at - {q};
            && TreesOk(m, at1) && p in at1 && Suits(m, at1, p, r) && m.Keys == cs.Keys
            && x in m && x in Redirected(m, x, r) && r in Redirected(m, x, r)
            && TreesOk(TakenOver(Redirected(m, x, r), x, r), at1[p := r])
  {
    LeafSuits(cs, at, rings, p, q);
    CutOffOk(cs, at, q);
    TakenOverOk(CutOff(cs, at, q), at - {q}, p, at[q]);
  }

  /** Unlinking an inner chunk that is the only one of its size: a leaf below takes its place. */
  lemma UnlinkInner(cs: Chunks, at: Places, rings: Rings, p: Place, q: Place)
    requires BinsOk(cs, at, rings) && p in at && at[p] in cs && cs[at[p]].bk == at[p]
    requires Leaf(at, q) && q != p && InTree(cs, at, p, q)
    ensures Above(q) in at && at[Above(q)] in cs
    ensures var x, r, m := at[p], at[q], CutOff(cs, at, q);
            && x in m && x in Redirected(m, x, r) && r in Redirected(m, x, r)
            && BinsOk(TakenOver(Redirected(m, x, r), x, r) - {x}, (at - {q})[p := r], RingsWithout(cs, rings, x))
            && Removed(cs, TakenOver(Redirected(m, x, r), x, r) - {x}, x)
  {
    hide TreesOk;
    hide RingsOk;
    hide Suits;
    hide TakenOver;
    hide Redirected;
    hide Leaf;
    InnerMoved(cs, at, rings, p, q);
    var x, r, m, at1 := at[p], at[q], CutOff(cs, at, q), at - {q};
    LastGone(cs, rings, x);
    NoNull(cs, at, rings);
    MovedSame(m, at1, p, r);
    var n, at' := TakenOver(Redirected(m, x, r), x, r), at1[p := r];
    InnerReady(cs, n, at, rings, p, q);
    AfterMove(cs, n, at, at', RingsWithout(cs, rings, x), p, x, r);
  }

  lemma InnerChunk(cs: Chunks, n: Chunks, at: Places, rings: Rings, p: Place, q: Place, a: nat)
    requires BinsOk(cs, at, rings) && p in at && q in at && q != p && at[p] in cs && at[q] in cs && Above(q) in at && at[Above(q)] in cs
    requires n.Keys == cs.Keys && 0 !in cs
    requires a in cs && a != at[p] ==> SameButLinks(CutOff(cs, at, q)[a], n[a])
    requires a in cs && a != at[q] && Unplaced(at - {q}, a) ==> n[a] == CutOff(cs, at, q)[a]
    ensures ChunkKept(cs, n, at, (at - {q})[p := at[q]], at[p], at[q], a)
  {
    var x, r, at' := at[p], at[q], (at - {q})[p := at[q]];
    assert Represented(cs, at, a) && Chained(cs, at, a);
    hide BinsOk;
    hide Represented;
    hide Chained;
    if a in cs && a != x && a != r && Unplaced(at', a) {
      forall o | o in at ensures at[o] != a {
        assert o != p && o != q ==> at'[o] == at[o];
      }
    }
  }

  lemma InnerReady(cs: Chunks, n: Chunks, at: Places, rings: Rings, p: Place, q: Place)
    requires BinsOk(cs, at, rings) && p in at && q in at && q != p && at[p] in cs && at[q] in cs && Above(q) in at && at[Above(q)] in cs
    requires n.Keys == cs.Keys
    requires forall a :: a in cs && a != at[p] ==> SameButLinks(CutOff(cs, at, q)[a], n[a])
    requires forall a :: a in cs && a != at[q] && Unplaced(at - {q}, a) ==> n[a] == CutOff(cs, at, q)[a]
    requires forall a :: a in cs && a != at[p] ==> cs[a].size != cs[at[p]].size
    ensures var x, r, at' := at[p], at[q], (at - {q})[p := at[q]];
            && Unplaced(at', x) && r != x
            && (forall a {:trigger ChunkKept(cs, n, at, at', x, r, a)} :: ChunkKept(cs, n, at, at', x, r, a))
            && (forall o, a {:trigger SizeKept(cs, at, at', x, r, o, a)} :: SizeKept(cs, at, at', x, r, o, a))
  {
    NoNull(cs, at, rings);
    var x, r, at' := at[p], at[q], (at - {q})[p := at[q]];
    forall o | o in at' ensures at'[o] != x {
      assert OnePlace(cs, at, p, o) && OnePlace(cs, at, p, q);
    }
    assert OnePlace(cs, at, p, q);
    forall o, a ensures SizeKept(cs, at, at', x, r, o, a) {
      assert o in at && o != p && o != q ==> at'[o] == at[o] && OnePlace(cs, at, p, o);
    }
    hide TreesOk;
    hide ChunkKept;
    forall a ensures ChunkKept(cs, n, at, at', x, r, a) {
      InnerChunk(cs, n, at, rings, p, q, a);
    }
  }

  lemma WayStarts(cs: Chunks, at: Places, rings: Rings, i: nat, s: nat)
    requires BinsOk(cs, at, rings)
    ensures NoneOnWay(cs, at, i, s, RootWidth(i))
  {
    forall p | p in at && p.bin == i ensures p.width <= RootWidth(i) {
      assert PlaceOk(cs, at, p);
    }
  }

  lemma KidOf(cs: Chunks, at: Places, p: Place, b: nat)
    requires TreesOk(cs, at) && p in at && p.width > 0 && b < 2
    ensures Kid(at, p, b) != 0 ==> Below(p, b) in at && at[Below(p, b)] == Kid(at, p, b) && Kid(at, p, b) in cs
    ensures Kid(at, p, b) == 0 ==> Below(p, b) !in at
  {
    assert PlaceOk(cs, at, p) && PlaceOk(cs, at, Below(p, b));
  }

  /** The child pointers of a chunk in a trie lead to the places below it. */
  lemma KidsOf(cs: Chunks, at: Places, rings: Rings, p: Place)
    requires BinsOk(cs, at, rings) && p in at
    ensures at[p] in cs && at[p] != 0 && p.bin < NTREEBINS && p.width <= RootWidth(p.bin) && SizeAt(cs, at, p) == cs[at[p]].size
    ensures cs[at[p]].child0 == Kid(at, p, 0) && cs[at[p]].child1 == Kid(at, p, 1)
    ensures p.width > 0 ==> forall b :: 0 <= b < 2 && Kid(at, p, b) != 0 ==> Below(p, b) in at && at[Below(p, b)] == Kid(at, p, b) && Kid(at, p, b) in cs
    ensures p.width > 0 ==> forall b :: 0 <= b < 2 && Kid(at, p, b) == 0 ==> Below(p, b) !in at
  {
    assert PlaceOk(cs, at, p);
    if p.width > 0 {
      KidOf(cs, at, p, 0);
      KidOf(cs, at, p, 1);
      hide TreesOk;
    }
  }
}
