/**
 The tree bins of an allocator state: inserting, unlinking and best-fit search, step by step.
 */
module LargeBins {
  import opened Sequences
  import opened Options
  import opened PowersOfTwo
  import opened SizeIndex
  import opened Bitmaps
  import opened TreeBins
  import opened TreeSearch
  import opened ChunkRings
  import opened BinEdits

  ghost predicate HeaderOk(bins: seq<nat>, treemap: nat, at: Places, i: nat) {
    i < NTREEBINS ==> i < |bins| && bins[i] == Ptr(at, Root(i)) && (Bit(treemap, i) <==> Root(i) in at)
  }

  ghost predicate HeadersOk(bins: seq<nat>, treemap: nat, at: Places) {
    && |bins| == NTREEBINS
    && (forall i {:trigger HeaderOk(bins, treemap, at, i)} :: HeaderOk(bins, treemap, at, i))
    && (forall i :: i >= NTREEBINS ==> !Bit(treemap, i))
  }

  /** What the caller sees of an insertion: one more chunk, of its size. */
  ghost predicate Added(cs: Chunks, m: Chunks, x: nat, s: nat) {
    m.Keys == cs.Keys + {x} && m[x].size == s && forall a :: a in cs ==> m[a].size == cs[a].size
  }

  /** The smallest chunk that is at least `nb` large, and what it leaves over; 0 if there is none. */
  ghost predicate BestFit(cs: Chunks, nb: nat, v: nat, rsize: nat) {
    if v == 0 then forall a :: a in cs ==> cs[a].size < nb
    else v in cs && cs[v].size == nb + rsize && forall a :: a in cs && cs[a].size >= nb ==> cs[a].size >= cs[v].size
  }

  lemma RootHeader(cs: Chunks, at: Places, rings: Rings, bins: seq<nat>, treemap: nat, i: nat)
    requires BinsOk(cs, at, rings) && HeadersOk(bins, treemap, at) && i < NTREEBINS
    ensures i < |bins| && (bins[i] != 0 <==> Root(i) in at) && (Bit(treemap, i) <==> Root(i) in at)
    ensures Root(i) in at ==> at[Root(i)] == bins[i] && bins[i] in cs
  {
    assert HeaderOk(bins, treemap, at, i) && PlaceOk(cs, at, Root(i));
  }

  lemma HeadersSet(bins: seq<nat>, treemap: nat, at: Places, i: nat, x: nat)
    requires HeadersOk(bins, treemap, at) && i < NTREEBINS
    ensures HeadersOk(bins[i := x], SetBit(treemap, i, true), at[Root(i) := x])
    ensures x == 0 ==> HeadersOk(bins[i := 0], SetBit(treemap, i, false), at - {Root(i)})
    ensures Root(i) in at ==> HeadersOk(bins[i := x], treemap, at[Root(i) := x])
  {
    var bins', marked, cleared, placed, gone := bins[i := x], SetBit(treemap, i, true), SetBit(treemap, i, false), at[Root(i) := x], at - {Root(i)};
    forall j: nat | j >= NTREEBINS ensures !Bit(marked, j) && !Bit(cleared, j) {
      SetBitAt(treemap, i, true, j);
      SetBitAt(treemap, i, false, j);
    }
    forall j ensures HeaderOk(bins', marked, placed, j) {
      assert HeaderOk(bins, treemap, at, j);
      SetBitAt(treemap, i, true, j);
    }
    forall j ensures x == 0 ==> HeaderOk(bins', cleared, gone, j) {
      assert HeaderOk(bins, treemap, at, j);
      SetBitAt(treemap, i, false, j);
    }
    forall j ensures Root(i) in at ==> HeaderOk(bins', treemap, placed, j) {
      assert HeaderOk(bins, treemap, at, j);
    }
  }

  lemma HeadersKept(bins: seq<nat>, treemap: nat, at: Places, at': Places)
    requires HeadersOk(bins, treemap, at) && forall i :: Ptr(at', Root(i)) == Ptr(at, Root(i)) && (Root(i) in at' <==> Root(i) in at)
    ensures HeadersOk(bins, treemap, at')
  {
    forall i ensures HeaderOk(bins, treemap, at', i) {
      assert HeaderOk(bins, treemap, at, i);
    }
  }

  lemma StartKey(s: nat, i: nat)
    requires i < NTREEBINS
    ensures RootWidth(i) <= 64 && s * Power(LeftShift(i)) % WORD == Key(s, RootWidth(i))
  {
  }

  /** A large size has the bits of its bin's root. */
  lemma RootFits(s: nat)
    requires MIN_LARGE_SIZE <= s < LARGEST
    ensures TreeIndex(s) < NTREEBINS && InBin(s, TreeIndex(s))
    ensures RootPrefix(TreeIndex(s)) == Pre(s, RootWidth(TreeIndex(s)))
  {
    TreeIndexExact(s);
    if TreeIndex(s) < NTREEBINS - 1 {
      InBinPrefix(s, TreeIndex(s));
    } else {
      PowerWord();
      PreRange(s, 64, 1);
    }
  }

  lemma HeadersLength(bins: seq<nat>, treemap: nat, at: Places)
    requires HeadersOk(bins, treemap, at)
    ensures |bins| == NTREEBINS
  {
  }

  lemma AddedJoined(cs: Chunks, at: Places, rings: Rings, x: nat, s: nat, t: nat)
    requires Insertable(cs, at, rings, x, s) && t in cs
    ensures Added(cs, Joined(cs, t, x, Loose(x, s)), x, s)
  {
    assert InRing(cs, rings, t) && RingOk(cs, rings, cs[t].size);
    RingElements(cs, rings[cs[t].size], cs[t].size);
    assert RingLink(cs, rings[cs[t].size], cs[t].size, IndexOf(rings[cs[t].size], t));
    forall a | a in cs ensures Joined(cs, t, x, Loose(x, s))[a].size == cs[a].size {
      JoinedIs(cs, t, x, Loose(x, s), a);
    }
    JoinedIs(cs, t, x, Loose(x, s), t);
  }

  lemma AddedHung(cs: Chunks, at: Places, x: nat, s: nat, p: Place, b: nat)
    requires p in at && at[p] in cs && x !in cs
    ensures Added(cs, Hung(cs[x := Loose(x, s)], at, p, b, x), x, s)
  {
  }

  lemma HungUnfold(cs: Chunks, at: Places, x: nat, s: nat, p: Place, b: nat)
    requires p in at && at[p] in cs && x !in cs
    ensures var m := cs[x := Loose(x, s)];
            var m2 := m[at[p] := SetKid(m[at[p]], b, x)];
            m2[x := m2[x].(child0 := 0, child1 := 0, parent := Under(at[p]))] == Hung(m, at, p, b, x)
  {
  }

  lemma WhereIs(cs: Chunks, at: Places, rings: Rings, x: nat) returns (o: Option<Place>)
    requires BinsOk(cs, at, rings) && x in cs
    ensures o.Some? ==> o.value in at && at[o.value] == x && cs[x].parent == ParentAt(at, o.value) && cs[x].parent != NoParent
    ensures o.None? ==> Unplaced(at, x) && cs[x].parent == NoParent
  {
    if Unplaced(at, x) {
      o := None;
      assert Chained(cs, at, x);
    } else {
      var p :| p in at && at[p] == x;
      o := Some(p);
      assert PlaceOk(cs, at, p);
    }
  }

  lemma UnlinkChainedWithout(cs: Chunks, at: Places, rings: Rings, x: nat)
    requires BinsOk(cs, at, rings) && x in cs && Unplaced(at, x)
    ensures BinsOk(Bridged(cs, x) - {x}, at, RingsWithout(cs, rings, x)) && Removed(cs, Bridged(cs, x) - {x}, x)
  {
    UnlinkChained(cs, at, rings, x);
    BridgedSame(cs, rings, x);
  }

  lemma OnlyPlaced(cs: Chunks, at: Places, rings: Rings, x: nat)
    requires BinsOk(cs, at, rings) && x in cs && cs[x].bk == x
    ensures !Unplaced(at, x)
  {
    if Unplaced(at, x) {
      UnlinkChained(cs, at, rings, x);
      assert false;
    }
  }

  lemma SelfIn(cs: Chunks, at: Places, rings: Rings, p: Place)
    requires BinsOk(cs, at, rings) && p in at
    ensures InTree(cs, at, p, p)
  {
    assert PlaceOk(cs, at, p);
  }

  lemma SamePre(s: nat, t: nat, w: nat, v: nat)
    requires Pre(s, w) == Pre(t, w) && w <= v
    ensures Pre(s, v) == Pre(t, v)
  {
    PreAdd(s, w, v - w);
    PreAdd(t, w, v - w);
  }

  lemma LowerIn(cs: Chunks, at: Places, rings: Rings, p: Place, q: Place, b: nat)
    requires BinsOk(cs, at, rings) && p in at && InTree(cs, at, p, q) && q.width > 0 && b < 2 && Kid(at, q, b) != 0
    ensures Below(q, b) in at && InTree(cs, at, p, Below(q, b)) && Above(Below(q, b)) == q && Side(Below(q, b)) == b
  {
    var k := Below(q, b);
    assert TreesOk(cs, at);
    hide BinsOk;
    assert PlaceOk(cs, at, k) && PlaceOk(cs, at, q) && PlaceOk(cs, at, p);
    WayThere(cs, at, k, k.width);
    WayThere(cs, at, q, q.width);
    var s, t := SizeAt(cs, at, k), SizeAt(cs, at, q);
    PreNext(s, k.width);
    assert Pre(s, q.width) == Pre(t, q.width);
    hide TreesOk;
    SamePre(s, t, q.width, p.width);
  }

  lemma RingNeighbours(cs: Chunks, at: Places, rings: Rings, x: nat)
    requires BinsOk(cs, at, rings) && x in cs
    ensures cs[x].fd in cs && cs[x].bk in cs && cs[x].bk != 0
  {
    assert InRing(cs, rings, x) && RingOk(cs, rings, cs[x].size);
    var r, k := rings[cs[x].size], IndexOf(rings[cs[x].size], x);
    RingElements(cs, r, cs[x].size);
    assert RingLink(cs, r, cs[x].size, k);
  }

  /** The header test of `unlink_large_chunk` tells roots from inner chunks. */
  lemma HeaderOf(cs: Chunks, at: Places, rings: Rings, bins: seq<nat>, treemap: nat, p: Place)
    requires BinsOk(cs, at, rings) && HeadersOk(bins, treemap, at) && p in at
    ensures at[p] in cs && cs[at[p]].index == p.bin < |bins| && p.bin < NTREEBINS
    ensures bins[p.bin] == at[p] <==> p == Root(p.bin)
    ensures if p == Root(p.bin) then cs[at[p]].parent == Header(p.bin)
            else Above(p) in at && cs[at[p]].parent == Under(at[Above(p)]) && at[Above(p)] in cs
  {
    assert HeaderOk(bins, treemap, at, p.bin) && PlaceOk(cs, at, p) && PlaceOk(cs, at, Above(p));
    assert OnePlace(cs, at, p, Root(p.bin)) && PlaceOk(cs, at, Root(p.bin));
  }

  /** The headers once `r` is at the place `p`, or nobody if `r` is 0. */
  lemma HeadersAfter(bins: seq<nat>, treemap: nat, at: Places, at': Places, p: Place, r: nat)
    requires HeadersOk(bins, treemap, at) && p.bin < NTREEBINS && p in at
    requires Ptr(at', p) == r && (p in at' <==> r != 0)
    requires forall i :: Root(i) != p ==> Ptr(at', Root(i)) == Ptr(at, Root(i)) && (Root(i) in at' <==> Root(i) in at)
    ensures |bins| == NTREEBINS
    ensures p != Root(p.bin) ==> HeadersOk(bins, treemap, at')
    ensures p == Root(p.bin) ==> HeadersOk(bins[p.bin := r], if r == 0 then SetBit(treemap, p.bin, false) else treemap, at')
  {
    var bins', map' := if p == Root(p.bin) then bins[p.bin := r] else bins,
                       if p == Root(p.bin) && r == 0 then SetBit(treemap, p.bin, false) else treemap;
    forall i: nat | i >= NTREEBINS ensures !Bit(map', i) {
      SetBitAt(treemap, p.bin, false, i);
    }
    forall i ensures HeaderOk(bins', map', at', i) {
      assert HeaderOk(bins, treemap, at, i);
      SetBitAt(treemap, p.bin, false, i);
    }
  }

  lemma RootStays(cs: Chunks, x: nat)
    requires x in cs
    ensures !cs[x].parent.Under? ==> Redirected(cs, x, 0) == cs
  {
  }

  /** A pointer and the place it stands for. */
  ghost predicate Denotes(at: Places, v: nat, p: Option<Place>) {
    if p.Some? then p.value in at && at[p.value] == v && v != 0 else v == 0
  }

  /** One comparison of either walk: `v` becomes `t` if it fits better. */
  lemma Visit(cs: Chunks, at: Places, rings: Rings, nb: nat, v: Option<Place>, rsize: nat, p: Place)
    requires BinsOk(cs, at, rings) && Found(cs, at, nb, v, rsize) && 0 < nb && rsize <= WORD - nb && p in at
    ensures at[p] in cs && cs[at[p]].size < WORD
    ensures var trem := Minus(cs[at[p]].size, nb);
            var (v', rsize') := if trem < rsize then (Some(p), trem) else (v, rsize);
            && Found(cs, at, nb, v', rsize') && rsize' <= rsize && (SizeAt(cs, at, p) >= nb ==> Seen(cs, at, nb, rsize', p))
  {
    assert PlaceOk(cs, at, p);
    WrapTest(cs[at[p]].size, nb, rsize);
  }

  /** When nothing is left to look at, what was found is the best fit among all chunks. */
  lemma SearchDone(cs: Chunks, at: Places, rings: Rings, nb: nat, v: Option<Place>, rsize: nat, a: nat)
    requires BinsOk(cs, at, rings) && Found(cs, at, nb, v, rsize) && Leftmost(cs, at, nb, rsize, None) && Denotes(at, a, v)
    ensures BestFit(cs, nb, a, rsize)
  {
    forall c | c in cs && cs[c].size >= nb ensures cs[c].size >= nb + rsize {
      assert Represented(cs, at, c);
      var q :| q in at && at[q] in cs && SizeAt(cs, at, q) == cs[c].size;
      assert Left(cs, at, nb, rsize, None, q);
    }
    if v.Some? {
      assert PlaceOk(cs, at, v.value);
    }
  }

  /** Two children of a place are different chunks, and both are null below the last bit. */
  lemma KidsDiffer(cs: Chunks, at: Places, rings: Rings, p: Place)
    requires BinsOk(cs, at, rings) && p in at
    ensures Kid(at, p, 0) != 0 ==> Kid(at, p, 0) != Kid(at, p, 1)
    ensures p.width == 0 ==> Kid(at, p, 0) == 0 && Kid(at, p, 1) == 0
  {
    if p.width > 0 {
      assert PlaceOk(cs, at, Below(p, 0)) && PlaceOk(cs, at, Below(p, 1));
      assert OnePlace(cs, at, Below(p, 0), Below(p, 1));
    }
  }

  lemma Parts(cs: Chunks, at: Places, rings: Rings)
    requires BinsOk(cs, at, rings)
    ensures TreesOk(cs, at) && SizesOk(cs)
  {
  }

  /** A better fit in hand leaves less to look for. */
  lemma LessOpen(cs: Chunks, at: Places, idx: nat, nb: nat, was: nat, rsize: nat, p: Option<Place>, rst: Option<Place>)
    requires Walking(cs, at, idx, nb, was, p, rst) && rsize <= was
    ensures Walking(cs, at, idx, nb, rsize, p, rst)
  {
    forall q ensures Open(cs, at, idx, nb, rsize, p, rst, q) {
      assert Open(cs, at, idx, nb, was, p, rst, q);
    }
  }

  /** The bin map leads past empty bins to the next one in use, if there is one. */
  lemma NextInUse(cs: Chunks, at: Places, rings: Rings, bins: seq<nat>, treemap: nat, idx: nat, nb: nat)
    requires BinsOk(cs, at, rings) && HeadersOk(bins, treemap, at) && (nb < LARGEST ==> InBin(nb, idx)) && idx < NTREEBINS && 0 < nb < WORD
    requires nb < LARGEST ==> Root(idx) !in at || Walking(cs, at, idx, nb, WORD - nb, None, None)
    ensures var left := And(treemap, LeftBits(idx));
            && (left == 0 ==> Leftmost(cs, at, nb, WORD - nb, None))
            && (left != 0 ==>
                  && LowestBit(left) < |bins| && Denotes(at, bins[LowestBit(left)], Some(Root(LowestBit(left))))
                  && Leftmost(cs, at, nb, WORD - nb, Some(Root(LowestBit(left)))))
  {
    var left := And(treemap, LeftBits(idx));
    NextMarked(treemap, idx);
    if left != 0 {
      RootHeader(cs, at, rings, bins, treemap, LowestBit(left));
    }
    if nb >= LARGEST {
      NoneFits(cs, at, nb, WORD - nb, if left == 0 then None else Some(Root(LowestBit(left))));
      return;
    }
    forall q ensures NoneUpTo(cs, at, idx, nb, q) {
      WalkEmpty(cs, at, idx, nb, q);
    }
    forall j | idx < j < NTREEBINS && !Bit(treemap, j) ensures Root(j) !in at {
      assert HeaderOk(bins, treemap, at, j);
    }
    if left == 0 {
      NoNextBin(cs, at, idx, nb);
    } else {
      NextBin(cs, at, idx, nb, LowestBit(left));
    }
  }

  /** The tree map is zero exactly when the tree bins are empty. */
  lemma MapZero(cs: Chunks, at: Places, rings: Rings, bins: seq<nat>, treemap: nat)
    requires BinsOk(cs, at, rings) && HeadersOk(bins, treemap, at)
    ensures treemap == 0 <==> cs == map[]
  {
    if treemap > 0 {
      RootHeader(cs, at, rings, bins, treemap, LowestBit(treemap));
    }
    if cs != map[] {
      FirstInUse(cs, at, rings, bins, treemap, 1);
    }
  }

  lemma FirstInUse(cs: Chunks, at: Places, rings: Rings, bins: seq<nat>, treemap: nat, nb: nat)
    requires BinsOk(cs, at, rings) && HeadersOk(bins, treemap, at) && nb < MIN_LARGE_SIZE && cs != map[]
    ensures treemap > 0 && LowestBit(treemap) < NTREEBINS == |bins|
    ensures Denotes(at, bins[LowestBit(treemap)], Some(Root(LowestBit(treemap))))
    ensures Leftmost(cs, at, nb, WORD - nb, Some(Root(LowestBit(treemap))))
  {
    var a :| a in cs;
    assert Represented(cs, at, a);
    var q :| q in at && at[q] in cs && SizeAt(cs, at, q) == cs[a].size;
    RootThere(cs, at, q);
    assert PlaceOk(cs, at, q);
    RootHeader(cs, at, rings, bins, treemap, q.bin);
    if treemap == 0 {
      ZeroBit(q.bin);
    }
    var i := LowestBit(treemap);
    if i > q.bin {
      LowestBitFirst(treemap, q.bin);
    }
    RootHeader(cs, at, rings, bins, treemap, i);
    HeadersLength(bins, treemap, at);
    forall j | 0 <= j < i ensures Root(j) !in at {
      LowestBitFirst(treemap, j);
      assert HeaderOk(bins, treemap, at, j);
    }
    FirstBin(cs, at, nb, i);
  }

  lemma LargeEnough(cs: Chunks, at: Places, rings: Rings, nb: nat, v: nat, rsize: nat)
    requires BinsOk(cs, at, rings) && nb < MIN_LARGE_SIZE && cs != map[] && BestFit(cs, nb, v, rsize)
    ensures v != 0
  {
    var a :| a in cs;
    assert cs[a].size >= MIN_LARGE_SIZE;
  }

  class LargeBins {
    var chunks: Chunks
    var treebins: seq<nat>
    var treemap: nat
    ghost var at: Places
    ghost var rings: Rings

    ghost predicate Valid()
      reads this
    {
      BinsOk(chunks, at, rings) && HeadersOk(treebins, treemap, at)
    }

    constructor ()
      ensures Valid() && chunks == map[]
    {
      chunks, treebins, treemap := map[], seq(NTREEBINS, _ => 0), 0;
      at, rings := map[], map[];
      new;
      forall i: nat | i >= NTREEBINS ensures !Bit(treemap, i) {
        ZeroBit(i);
      }
      forall i ensures HeaderOk(treebins, treemap, at, i) {
        ZeroBit(i);
      }
    }

    /** `insert_large_chunk`. */
    method Insert(x: nat, s: nat)
      requires Valid() && x !in chunks && x != 0 && MIN_LARGE_SIZE <= s < LARGEST
      modifies this
      ensures Valid() && Added(old(chunks), chunks, x, s)
    {
      hide BinsOk;
      hide HeadersOk;
      hide Fits;
      hide Key;
      RootFits(s);
      var i := TreeIndex(s);
      RootHeader(chunks, at, rings, treebins, treemap, i);
      if !Bit(treemap, i) {
        InsertRoot(x, s);
        return;
      }
      StartKey(s, i);
      var t, k := treebins[i], s * Power(LeftShift(i)) % WORD;
      ghost var p := Root(i);
      WayStarts(chunks, at, rings, i, s);
      while true
        invariant p in at && at[p] == t && p.bin == i && p.width <= 64 && p == On(i, s, p.width) && k == Key(s, p.width)
        invariant t in chunks && NoneOnWay(chunks, at, i, s, p.width) && Insertable(chunks, at, rings, x, s)
        invariant unchanged(this)
        decreases p.width
      {
        KidsOf(chunks, at, rings, p);
        if chunks[t].size == s {
          InsertChained(x, s, t, p);
          return;
        }
        WayEnds(chunks, at, rings, s, p);
        KeyBit(s, p.width);
        var bit := k / 0x8000_0000_0000_0000;
        var c := if bit == 0 then chunks[t].child0 else chunks[t].child1;
        k := k * 2 % WORD;
        if c == 0 {
          InsertBelow(x, s, t, bit, p);
          return;
        }
        t := c;
        p := Below(p, bit);
      }
    }

    /** The bin was empty. */
    method InsertRoot(x: nat, s: nat)
      requires Insertable(chunks, at, rings, x, s) && HeadersOk(treebins, treemap, at)
      requires TreeIndex(s) < NTREEBINS && RootPrefix(TreeIndex(s)) == Pre(s, RootWidth(TreeIndex(s)))
      requires Root(TreeIndex(s)) !in at
      modifies this
      ensures Valid() && Added(old(chunks), chunks, x, s)
    {
      hide BinsOk;
      hide HeadersOk;
      var i := TreeIndex(s);
      PlantOk(chunks, at, rings, x, s);
      HeadersSet(treebins, treemap, at, i, x);
      HeadersLength(treebins, treemap, at);
      treemap := SetBit(treemap, i, true);
      treebins := treebins[i := x];
      chunks := chunks[x := Loose(x, s).(parent := Header(i))];
      at := at[Root(i) := x];
      rings := rings[s := [x]];
    }

    /** A chunk of the same size is in the trie: `T->fd = F->bk = X`. */
    method InsertChained(x: nat, s: nat, t: nat, ghost p: Place)
      requires Insertable(chunks, at, rings, x, s) && HeadersOk(treebins, treemap, at)
      requires p in at && at[p] == t && t in chunks && SizeAt(chunks, at, p) == s
      modifies this
      ensures Valid() && Added(old(chunks), chunks, x, s)
    {
      hide BinsOk;
      hide HeadersOk;
      JoinOk(chunks, at, rings, x, s, p);
      rings := rings[s := InsertedAfter(rings[s], IndexOf(rings[s], t), x)];
      AddedJoined(chunks, at, old(rings), x, s, t);
      chunks := Joined(chunks, t, x, Loose(x, s));
    }

    /** The child pointer that leads to the size is null: `*C = X; X->parent = T`. */
    method InsertBelow(x: nat, s: nat, t: nat, bit: nat, ghost p: Place)
      requires Insertable(chunks, at, rings, x, s) && HeadersOk(treebins, treemap, at)
      requires p in at && at[p] == t && t in chunks && p == On(TreeIndex(s), s, p.width) && p.width > 0
      requires bit == Pre(s, p.width - 1) % 2 && Below(p, bit) !in at && NewSize(chunks, at, s) && p.width <= RootWidth(p.bin)
      modifies this
      ensures Valid() && Added(old(chunks), chunks, x, s)
    {
      hide BinsOk;
      hide HeadersOk;
      hide Hung;
      HangOk(chunks, at, rings, x, s, p);
      AddedHung(chunks, at, x, s, p, bit);
      HeadersKept(treebins, treemap, at, at[Below(p, bit) := x]);
      var m := chunks[x := Loose(x, s)];
      m := m[t := SetKid(m[t], bit, x)];
      ghost var was := chunks;
      chunks := m[x := m[x].(child0 := 0, child1 := 0, parent := Under(t))];
      HungUnfold(was, at, x, s, p, bit);
      at := at[Below(p, bit) := x];
      rings := rings[s := [x]];
    }

    /** `unlink_large_chunk`, and the chunk leaves the bins. */
    method Unlink(x: nat)
      requires Valid() && x in chunks
      modifies this
      ensures Valid() && Removed(old(chunks), chunks, x)
    {
      hide BinsOk;
      hide HeadersOk;
      hide RingsWithout;
      hide TakenOver;
      hide Redirected;
      ghost var place := WhereIs(chunks, at, rings, x);
      ghost var newRings := RingsWithout(chunks, rings, x);
      RingNeighbours(chunks, at, rings, x);
      var r := 0;
      if chunks[x].bk != x {
        r := chunks[x].bk;
        if place.Some? {
          UnlinkBase(chunks, at, rings, place.value);
          HeaderOf(chunks, at, rings, treebins, treemap, place.value);
          HeadersAfter(treebins, treemap, at, at[place.value := r], place.value, r);
        } else {
          UnlinkChainedWithout(chunks, at, rings, x);
        }
        Bridge(x);
        if chunks[x].parent != NoParent {
          Relink(x, r);
          at := at[place.value := r];
        }
      } else {
        OnlyPlaced(chunks, at, rings, x);
        HeaderOf(chunks, at, rings, treebins, treemap, place.value);
        ghost var q;
        r, q := DetachLeaf(x, place.value);
        if r == 0 {
          UnlinkLeaf(chunks, at, rings, place.value);
          RootStays(chunks, x);
          HeadersAfter(treebins, treemap, at, at - {place.value}, place.value, 0);
          Relink(x, 0);
          at := at - {place.value};
        } else {
          LeafSuits(old(chunks), at, rings, place.value, q);
          UnlinkInner(old(chunks), at, rings, place.value, q);
          HeadersAfter(treebins, treemap, at, (at - {q})[place.value := r], place.value, r);
          Relink(x, r);
          at := (at - {q})[place.value := r];
        }
      }
      chunks := chunks - {x};
      rings := newRings;
    }

    /** Takes `x` out of its ring. */
    method Bridge(x: nat)
      requires x in chunks && chunks[x].fd in chunks && chunks[x].bk in chunks
      modifies this`chunks
      ensures chunks == Bridged(old(chunks), x)
    {
      var f, r := chunks[x].fd, chunks[x].bk;
      chunks := chunks[f := chunks[f].(bk := r)];
      chunks := chunks[r := chunks[r].(fd := f)];
    }

    /** Gives the place of `x` in its trie to `r`, or to nobody if `r` is 0. */
    method Relink(x: nat, r: nat)
      requires x in chunks && (r != 0 ==> r in chunks && r != x) && chunks[x].index < |treebins|
      requires chunks[x].parent == Header(chunks[x].index) || chunks[x].parent.Under?
      requires treebins[chunks[x].index] == x <==> chunks[x].parent.Header?
      requires chunks[x].parent.Under? ==> chunks[x].parent.chunk in chunks
      modifies this`chunks, this`treebins, this`treemap
      ensures old(chunks[x].parent.Header?) ==> treebins == old(treebins)[old(chunks[x].index) := r]
      ensures old(chunks[x].parent.Header?) ==> treemap == if r == 0 then SetBit(old(treemap), old(chunks[x].index), false) else old(treemap)
      ensures old(chunks[x].parent.Under?) ==> treebins == old(treebins) && treemap == old(treemap)
      ensures x in Redirected(old(chunks), x, r) && (r != 0 ==> r in Redirected(old(chunks), x, r))
      ensures chunks == if r == 0 then Redirected(old(chunks), x, 0) else TakenOver(Redirected(old(chunks), x, r), x, r)
    {
      var i := chunks[x].index;
      if treebins[i] == x {
        treebins := treebins[i := r];
        if r == 0 {
          treemap := SetBit(treemap, i, false);
        }
      } else {
        var t := chunks[x].parent.chunk;
        if chunks[t].child0 == x {
          chunks := chunks[t := chunks[t].(child0 := r)];
        } else {
          chunks := chunks[t := chunks[t].(child1 := r)];
        }
      }
      assert chunks == Redirected(old(chunks), x, r);
      if r != 0 {
        ghost var cs := chunks;
        var c0, c1 := chunks[x].child0, chunks[x].child1;
        chunks := chunks[r := chunks[r].(parent := chunks[x].parent)];
        if c0 != 0 && c0 in chunks {
          chunks := chunks[r := chunks[r].(child0 := c0)];
          chunks := chunks[c0 := chunks[c0].(parent := Under(r))];
        }
        if c1 != 0 && c1 in chunks {
          chunks := chunks[r := chunks[r].(child1 := c1)];
          chunks := chunks[c1 := chunks[c1].(parent := Under(r))];
        }
        assert chunks == TakenOver(cs, x, r);
      }
    }

    /** Finds a leaf below `x`, second children first, and clears the pointer to it; 0 if `x` is a leaf. */
    method DetachLeaf(x: nat, ghost p: Place) returns (r: nat, ghost q: Place)
      requires BinsOk(chunks, at, rings) && p in at && at[p] == x && x in chunks
      modifies this`chunks
      ensures r == 0 ==> Leaf(at, p) && chunks == old(chunks)
      ensures r != 0 ==> Leaf(at, q) && q != p && InTree(old(chunks), at, p, q) && at[q] == r && Above(q) in at && at[Above(q)] in old(chunks)
      ensures r != 0 ==> chunks == CutOff(old(chunks), at, q)
    {
      hide BinsOk;
      q := p;
      var rp, side := x, 1;
      KidsOf(chunks, at, rings, p);
      r := chunks[x].child1;
      if r == 0 {
        r, side := chunks[x].child0, 0;
      }
      if r == 0 {
        return;
      }
      q := Below(p, side);
      SelfIn(chunks, at, rings, p);
      LowerIn(chunks, at, rings, p, p, side);
      while true
        invariant unchanged(this)
        invariant q in at && at[q] == r && r in chunks && q.width < p.width && InTree(chunks, at, p, q)
        invariant Above(q) in at && at[Above(q)] == rp && rp in chunks && side == Side(q)
        decreases q.width
      {
        KidsOf(chunks, at, rings, q);
        var c, b := chunks[r].child1, 1;
        if c == 0 {
          c, b := chunks[r].child0, 0;
        }
        if c == 0 {
          break;
        }
        LowerIn(chunks, at, rings, p, q, b);
        q := Below(q, b);
        rp, side, r := r, b, c;
      }
      chunks := chunks[rp := SetKid(chunks[rp], side, 0)];
    }

    /** The walk of `tmalloc_large` down the bin of the requested size. */
    method WalkBin(nb: nat, idx: nat) returns (v: nat, rsize: nat, t: nat, ghost pv: Option<Place>, ghost pt: Option<Place>)
      requires Valid() && MIN_LARGE_SIZE <= nb < WORD && idx == TreeIndex(nb) && idx < NTREEBINS && treebins[idx] != 0
      ensures Found(chunks, at, nb, pv, rsize) && rsize <= WORD - nb && Denotes(at, v, pv) && Denotes(at, t, pt)
      ensures if pv.None? && pt.None? then rsize == WORD - nb && (nb < LARGEST ==> Walking(chunks, at, idx, nb, rsize, None, None))
              else Leftmost(chunks, at, nb, rsize, pt)
    {
      hide BinsOk;
      hide HeadersOk;
      hide Walking;
      hide Leftmost;
      hide Key;
      hide Seen;
      hide TreesOk;
      hide SizesOk;
      hide Power;
      hide Pre;
      hide InTree;
      RootHeader(chunks, at, rings, treebins, treemap, idx);
      StartKey(nb, idx);
      Parts(chunks, at, rings);
      if nb < LARGEST {
        RootFits(nb);
        WalkStart(chunks, at, idx, nb);
      }
      v, rsize, t := 0, Minus(0, nb), treebins[idx];
      var sizebits, rst := nb * Power(LeftShift(idx)) % WORD, 0;
      ghost var p: Place, prst: Option<Place> := Root(idx), None;
      pv := None;
      while true
        invariant p in at && at[p] == t && t != 0 && p.bin == idx && sizebits == Key(nb, p.width) && p.width <= 64
        invariant Found(chunks, at, nb, pv, rsize) && rsize <= WORD - nb && Denotes(at, v, pv) && (pv.Some? ==> pv.value.bin == idx)
        invariant (nb < LARGEST ==> Walking(chunks, at, idx, nb, rsize, Some(p), prst)) && Denotes(at, rst, prst)
        decreases p.width
      {
        Visit(chunks, at, rings, nb, pv, rsize, p);
        ghost var bound := rsize;
        var trem := Minus(chunks[t].size, nb);
        if trem < rsize {
          v, rsize, pv := t, trem, Some(p);
          if rsize == 0 {
            ExactEnds(chunks, at, nb, p);
            pt := Some(p);
            return;
          }
        }
        if nb < LARGEST {
          LessOpen(chunks, at, idx, nb, bound, rsize, Some(p), prst);
          WalkStep(chunks, at, idx, nb, rsize, p, prst);
        }
        if p.width > 0 {
          KeyBit(nb, p.width);
        }
        KidsOf(chunks, at, rings, p);
        KidsDiffer(chunks, at, rings, p);
        var rt := chunks[t].child1;
        t := if sizebits / 0x8000_0000_0000_0000 == 0 then chunks[t].child0 else chunks[t].child1;
        if rt != 0 && rt != t {
          rst := rt;
        }
        prst := Untaken(at, nb, p, prst);
        if t == 0 {
          t := rst;
          break;
        }
        sizebits := sizebits * 2 % WORD;
        p := Below(p, Pre(nb, p.width - 1) % 2);
      }
      pt := prst;
      if nb >= LARGEST {
        NoneFits(chunks, at, nb, rsize, prst);
      } else if pv.Some? || prst.Some? {
        WalkEnds(chunks, at, idx, nb, pv, rsize, prst);
      }
    }

    /** The walk along first children: the smallest chunk of a subtree is on it. */
    method WalkLeft(nb: nat, best: nat, left: nat, start: nat, ghost pbest: Option<Place>, ghost pstart: Option<Place>)
        returns (v: nat, rsize: nat)
      requires Valid() && 0 < nb && Found(chunks, at, nb, pbest, left) && left <= WORD - nb
      requires Denotes(at, best, pbest) && Denotes(at, start, pstart) && Leftmost(chunks, at, nb, left, pstart)
      ensures BestFit(chunks, nb, v, rsize)
    {
      hide BinsOk;
      hide HeadersOk;
      hide Leftmost;
      hide Seen;
      hide BestFit;
      v, rsize := best, left;
      var t: nat := start;
      ghost var pv, pt := pbest, pstart;
      Parts(chunks, at, rings);
      while t != 0
        invariant Denotes(at, t, pt) && Denotes(at, v, pv) && Leftmost(chunks, at, nb, rsize, pt)
        invariant Found(chunks, at, nb, pv, rsize) && rsize <= WORD - nb
        decreases if pt.Some? then pt.value.width + 1 else 0
      {
        KidsOf(chunks, at, rings, pt.value);
        KidsDiffer(chunks, at, rings, pt.value);
        Visit(chunks, at, rings, nb, pv, rsize, pt.value);
        ghost var bound := rsize;
        var trem := Minus(chunks[t].size, nb);
        if trem < rsize {
          rsize, v, pv := trem, t, pt;
        }
        LeftmostStep(chunks, at, nb, bound, rsize, pt.value);
        t := if chunks[t].child0 != 0 then chunks[t].child0 else chunks[t].child1;
        pt := FirstKid(at, pt.value);
      }
      SearchDone(chunks, at, rings, nb, pv, rsize, v);
    }

    /** The search of `tmalloc_large`: the smallest chunk of any bin that is large enough. */
    method FindLarge(nb: nat) returns (v: nat, rsize: nat)
      requires Valid() && MIN_LARGE_SIZE <= nb < WORD
      ensures BestFit(chunks, nb, v, rsize)
    {
      hide BinsOk;
      hide HeadersOk;
      hide Walking;
      hide Leftmost;
      hide BestFit;
      TreeIndexExact(nb);
      var idx := TreeIndex(nb);
      RootHeader(chunks, at, rings, treebins, treemap, idx);
      var t := treebins[idx];
      ghost var pv: Option<Place>, pt: Option<Place> := None, None;
      v, rsize := 0, Minus(0, nb);
      if t != 0 {
        v, rsize, t, pv, pt := WalkBin(nb, idx);
      }
      if t == 0 && v == 0 {
        NextInUse(chunks, at, rings, treebins, treemap, idx, nb);
        var leftbits := And(treemap, LeftBits(idx));
        if leftbits != 0 {
          var i := LowestBit(leftbits);
          t := treebins[i];
          pt := Some(Root(i));
        }
      }
      v, rsize := WalkLeft(nb, v, rsize, t, pv, pt);
    }

    /** The search of `tmalloc_small`: the smallest chunk of all. */
    method FindSmall(nb: nat) returns (v: nat, rsize: nat)
      requires Valid() && 0 < nb < MIN_LARGE_SIZE && chunks != map[]
      ensures v != 0 && BestFit(chunks, nb, v, rsize)
    {
      hide BinsOk;
      hide HeadersOk;
      hide Leftmost;
      FirstInUse(chunks, at, rings, treebins, treemap, nb);
      var i := LowestBit(treemap);
      v, rsize := WalkLeft(nb, 0, WORD - nb, treebins[i], None, Some(Root(i)));
      LargeEnough(chunks, at, rings, nb, v, rsize);
    }
  }
}
