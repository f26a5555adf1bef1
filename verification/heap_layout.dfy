/**
 The boundary-tag heap as values: a segment tiled by chunks, whose head words say how large they
 are and whether they and their predecessors are in use.
 */
module HeapLayout {
  const MIN_CHUNK_SIZE := 32

  /** A head word: the size and the CINUSE and PINUSE bits. */
  datatype Head = Head(size: nat, pinuse: bool, cinuse: bool)

  /** The memory and the allocator state. `feet` is the word before a chunk, `binned` what is in bins. */
  datatype Space = Space(heads: map<nat, Head>, feet: map<nat, nat>, top: nat, topsize: nat,
                         dv: nat, dvsize: nat, binned: map<nat, nat>)

  /** The chunks of the segment from `base` to `end`, and which chunk each one follows. */
  datatype Extent = Extent(base: nat, end: nat, starts: set<nat>, before: map<nat, nat>)

  function SizeOf(h: Space, p: nat): nat {
    if p in h.heads then h.heads[p].size else 0
  }

  predicate Used(h: Space, p: nat) {
    p in h.heads && h.heads[p].cinuse
  }

  /** A chunk other than top ends where the next one, which it comes before, starts. */
  ghost predicate TileOk(h: Space, x: Extent, p: nat) {
    p in x.starts && p != h.top ==>
      && p in h.heads && SizeOf(h, p) >= MIN_CHUNK_SIZE && SizeOf(h, p) % 8 == 0
      && p + SizeOf(h, p) in x.starts && p + SizeOf(h, p) in x.before && x.before[p + SizeOf(h, p)] == p
      && p + SizeOf(h, p) in h.heads && h.heads[p + SizeOf(h, p)].pinuse == Used(h, p)
  }

  /** Every chunk but the first follows another one. */
  ghost predicate BeforeOk(h: Space, x: Extent, p: nat) {
    p in x.starts && p != x.base ==>
      p in x.before && x.before[p] in x.starts && x.before[p] != h.top && x.before[p] + SizeOf(h, x.before[p]) == p
  }

  ghost predicate ApartOk(h: Space, x: Extent, p: nat, q: nat) {
    p in x.starts && q in x.starts && p < q ==> p != h.top && p + SizeOf(h, p) <= q
  }

  ghost predicate Free(h: Space, x: Extent, p: nat) {
    p in x.starts && p != h.top && !Used(h, p)
  }

  /** A free chunk has used neighbours, its size at its foot, and is in exactly one of dv and the bins. */
  ghost predicate FreeOk(h: Space, x: Extent, p: nat) {
    Free(h, x, p) ==>
      && p + SizeOf(h, p) != h.top && Used(h, p + SizeOf(h, p)) && h.heads[p].pinuse
      && p + SizeOf(h, p) in h.feet && h.feet[p + SizeOf(h, p)] == SizeOf(h, p)
      && (p in h.binned) != (p == h.dv)
  }

  ghost predicate BinnedOk(h: Space, x: Extent, p: nat) {
    p in h.binned ==> Free(h, x, p) && h.binned[p] == SizeOf(h, p)
  }

  ghost predicate EndsOk(h: Space, x: Extent) {
    && x.base in x.starts && x.base > 0 && x.base in h.heads && h.heads[x.base].pinuse
    && h.top in x.starts && h.top in h.heads && h.heads[h.top] == Head(h.topsize, true, false)
    && h.top + h.topsize == x.end && h.topsize > 0 && h.topsize % 8 == 0
    && (if h.dv == 0 then h.dvsize == 0 else Free(h, x, h.dv) && SizeOf(h, h.dv) == h.dvsize)
    && (forall p :: p in x.starts ==> x.base <= p)
  }

  ghost predicate HeapOk(h: Space, x: Extent) {
    && EndsOk(h, x)
    && (forall p {:trigger TileOk(h, x, p)} :: TileOk(h, x, p))
    && (forall p {:trigger BeforeOk(h, x, p)} :: BeforeOk(h, x, p))
    && (forall p, q {:trigger ApartOk(h, x, p, q)} :: ApartOk(h, x, p, q))
    && (forall p {:trigger FreeOk(h, x, p)} :: FreeOk(h, x, p))
    && (forall p {:trigger BinnedOk(h, x, p)} :: BinnedOk(h, x, p))
  }

  /** The chunks the program owns. */
  ghost function InUse(h: Space, x: Extent): map<nat, nat> {
    map p | p in x.starts && p != h.top && Used(h, p) :: SizeOf(h, p)
  }

  // ----- freeing -----

  datatype Dest = ToTop | ToDv | ToBin

  /** The block from `lo` to `hi` made one free chunk; the chunks `gone` leave the bins and dv. */
  function Freed(h: Space, lo: nat, hi: nat, gone: set<nat>, dest: Dest): Space
    requires lo <= hi && (!dest.ToTop? ==> hi in h.heads)
  {
    var size := hi - lo;
    var heads := h.heads[lo := Head(size, true, false)];
    var dv, dvsize := if h.dv in gone then 0 else h.dv, if h.dv in gone then 0 else h.dvsize;
    match dest
    case ToTop => Space(heads, h.feet, lo, size, dv, dvsize, h.binned - gone)
    case ToDv => Space(heads[hi := heads[hi].(pinuse := false)], h.feet[hi := size], h.top, h.topsize, lo, size, h.binned - gone)
    case ToBin => Space(heads[hi := heads[hi].(pinuse := false)], h.feet[hi := size], h.top, h.topsize, dv, dvsize, (h.binned - gone)[lo := size])
  }

  function Merged(x: Extent, lo: nat, hi: nat, gone: set<nat>): Extent {
    x.(starts := x.starts - (gone - {lo}), before := if hi in x.starts then x.before[hi := lo] else x.before)
  }

  /**
   Which block becomes free: `p` with its free neighbours. `gone` are the chunks in it, and a
   free predecessor or successor is in it exactly when there is one.
   */
  ghost predicate Block(h: Space, x: Extent, p: nat, lo: nat, hi: nat, gone: set<nat>) {
    && p in x.starts && p != h.top && Used(h, p)
    && (if h.heads[p].pinuse then lo == p else p in x.before && lo == x.before[p])
    && (var next := p + SizeOf(h, p);
        if next == h.top then hi == x.end && gone == {lo, p, next}
        else if Used(h, next) then hi == next && gone == {lo, p}
        else hi == next + SizeOf(h, next) && gone == {lo, p, next})
  }

  ghost predicate DestOk(h: Space, x: Extent, p: nat, gone: set<nat>, dest: Dest) {
    var next := p + SizeOf(h, p);
    if next == h.top then dest.ToTop? else if h.dv in gone then dest.ToDv? else dest.ToBin?
  }

  /** The block begins after a used chunk, or at the base. */
  lemma BlockLow(h: Space, x: Extent, p: nat, lo: nat, hi: nat, gone: set<nat>)
    requires HeapOk(h, x) && Block(h, x, p, lo, hi, gone)
    ensures lo in x.starts && lo <= p && lo != h.top && lo in h.heads && h.heads[lo].pinuse && lo > 0
    ensures lo != p ==> Free(h, x, lo) && lo + SizeOf(h, lo) == p
    ensures SizeOf(h, lo) % 8 == 0 && p - lo == if lo == p then 0 else SizeOf(h, lo)
  {
    assert TileOk(h, x, p) && BeforeOk(h, x, p);
    if lo != p {
      assert TileOk(h, x, lo) && FreeOk(h, x, lo);
    }
  }

  /** The block ends before a used chunk, or at the end of the segment. */
  lemma BlockHigh(h: Space, x: Extent, p: nat, lo: nat, hi: nat, gone: set<nat>)
    requires HeapOk(h, x) && Block(h, x, p, lo, hi, gone)
    ensures p + MIN_CHUNK_SIZE <= p + SizeOf(h, p) <= hi && p + SizeOf(h, p) in x.starts && (hi - p) % 8 == 0
    ensures p + SizeOf(h, p) != h.top ==> hi in x.starts && hi != h.top && Used(h, hi) && hi <= h.top
    ensures p + SizeOf(h, p) != h.top && !Used(h, p + SizeOf(h, p)) ==> Free(h, x, p + SizeOf(h, p)) && p + SizeOf(h, p) < hi
  {
    var next := p + SizeOf(h, p);
    assert TileOk(h, x, p) && TileOk(h, x, next) && FreeOk(h, x, next) && ApartOk(h, x, h.top, hi);
  }

  lemma BlockInside(h: Space, x: Extent, p: nat, lo: nat, hi: nat, gone: set<nat>, q: nat)
    requires HeapOk(h, x) && Block(h, x, p, lo, hi, gone)
    ensures q in gone ==> q in x.starts && lo <= q < hi && (q == lo || q == p || q == p + SizeOf(h, p))
    ensures q in x.starts && lo <= q < hi ==> q in gone
  {
    BlockLow(h, x, p, lo, hi, gone);
    BlockHigh(h, x, p, lo, hi, gone);
    var next := p + SizeOf(h, p);
    if q in x.starts && lo <= q < hi {
      assert ApartOk(h, x, lo, q) && ApartOk(h, x, p, q) && ApartOk(h, x, next, q);
      assert ApartOk(h, x, q, p) && ApartOk(h, x, q, next) && ApartOk(h, x, h.top, q);
    }
  }

  ghost predicate Freeing(h: Space, x: Extent, p: nat, lo: nat, hi: nat, gone: set<nat>, dest: Dest) {
    HeapOk(h, x) && Block(h, x, p, lo, hi, gone) && DestOk(h, x, p, gone, dest)
  }

  lemma FreedHeads(h: Space, x: Extent, p: nat, lo: nat, hi: nat, gone: set<nat>, dest: Dest, q: nat)
    requires Freeing(h, x, p, lo, hi, gone, dest)
    ensures lo < hi && (!dest.ToTop? ==> hi in h.heads)
    ensures q in Merged(x, lo, hi, gone).starts <==> q in x.starts && (q <= lo || hi <= q)
    ensures var h' := Freed(h, lo, hi, gone, dest);
            && (h'.top == if dest.ToTop? then lo else h.top) && (dest.ToTop? <==> hi == x.end)
            && (q in x.starts && q != lo ==> SizeOf(h', q) == SizeOf(h, q) && (q in h'.heads <==> q in h.heads) && Used(h', q) == Used(h, q))
            && (q in x.starts && q != lo && (q != hi || dest.ToTop?) && q in h.heads ==> h'.heads[q] == h.heads[q])
            && (q in x.starts && q == hi && !dest.ToTop? ==> q in h'.heads && !h'.heads[q].pinuse)
            && lo in h'.heads && h'.heads[lo] == Head(hi - lo, true, false)
  {
    BlockLow(h, x, p, lo, hi, gone);
    BlockHigh(h, x, p, lo, hi, gone);
    BlockInside(h, x, p, lo, hi, gone, q);
    BlockInside(h, x, p, lo, hi, gone, lo);
    assert ApartOk(h, x, h.top, hi) && ApartOk(h, x, hi, h.top);
  }

  lemma FreedTile(h: Space, x: Extent, p: nat, lo: nat, hi: nat, gone: set<nat>, dest: Dest, q: nat)
    requires Freeing(h, x, p, lo, hi, gone, dest) && lo < hi && (!dest.ToTop? ==> hi in h.heads)
    ensures TileOk(Freed(h, lo, hi, gone, dest), Merged(x, lo, hi, gone), q)
  {
    var h', x' := Freed(h, lo, hi, gone, dest), Merged(x, lo, hi, gone);
    BlockLow(h, x, p, lo, hi, gone);
    BlockHigh(h, x, p, lo, hi, gone);
    FreedHeads(h, x, p, lo, hi, gone, dest, q);
    if q in x'.starts && q != h'.top {
      assert TileOk(h, x, q) && ApartOk(h, x, q, lo) && ApartOk(h, x, lo, q) && ApartOk(h, x, h.top, q);
      var n := q + SizeOf(h', q);
      if q == lo {
        FreedHeads(h, x, p, lo, hi, gone, dest, hi);
      } else {
        FreedHeads(h, x, p, lo, hi, gone, dest, n);
        LowUsed(h, x, p, lo, hi, gone, q);
      }
    }
  }

  /** The chunk before the block is in use, so the block's first head says so. */
  lemma LowUsed(h: Space, x: Extent, p: nat, lo: nat, hi: nat, gone: set<nat>, q: nat)
    requires HeapOk(h, x) && Block(h, x, p, lo, hi, gone) && q in x.starts && q != h.top && (q < lo || hi <= q)
    ensures q + SizeOf(h, q) <= lo || hi < q + SizeOf(h, q)
    ensures q + SizeOf(h, q) == lo ==> Used(h, q)
  {
    BlockLow(h, x, p, lo, hi, gone);
    BlockHigh(h, x, p, lo, hi, gone);
    assert TileOk(h, x, q) && ApartOk(h, x, q, lo);
  }

  lemma FreedBefore(h: Space, x: Extent, p: nat, lo: nat, hi: nat, gone: set<nat>, dest: Dest, q: nat)
    requires Freeing(h, x, p, lo, hi, gone, dest) && lo < hi && (!dest.ToTop? ==> hi in h.heads)
    ensures BeforeOk(Freed(h, lo, hi, gone, dest), Merged(x, lo, hi, gone), q)
  {
    var x' := Merged(x, lo, hi, gone);
    BlockLow(h, x, p, lo, hi, gone);
    BlockHigh(h, x, p, lo, hi, gone);
    FreedHeads(h, x, p, lo, hi, gone, dest, q);
    if q in x'.starts && q != x'.base {
      assert BeforeOk(h, x, q) && ApartOk(h, x, h.top, q);
      if q == hi {
        FreedHeads(h, x, p, lo, hi, gone, dest, lo);
      } else {
        var b := x.before[q];
        assert TileOk(h, x, b) && ApartOk(h, x, b, lo) && ApartOk(h, x, lo, b) && ApartOk(h, x, b, hi) && ApartOk(h, x, h.top, q);
        FreedHeads(h, x, p, lo, hi, gone, dest, b);
      }
    }
  }

  lemma FreedApart(h: Space, x: Extent, p: nat, lo: nat, hi: nat, gone: set<nat>, dest: Dest, q: nat, r: nat)
    requires Freeing(h, x, p, lo, hi, gone, dest) && lo < hi && (!dest.ToTop? ==> hi in h.heads)
    ensures ApartOk(Freed(h, lo, hi, gone, dest), Merged(x, lo, hi, gone), q, r)
  {
    var x' := Merged(x, lo, hi, gone);
    FreedHeads(h, x, p, lo, hi, gone, dest, q);
    FreedHeads(h, x, p, lo, hi, gone, dest, r);
    if q in x'.starts && r in x'.starts && q < r {
      assert ApartOk(h, x, q, r) && ApartOk(h, x, h.top, r);
    }
  }

  lemma FreedFree(h: Space, x: Extent, p: nat, lo: nat, hi: nat, gone: set<nat>, dest: Dest, q: nat)
    requires Freeing(h, x, p, lo, hi, gone, dest) && lo < hi && (!dest.ToTop? ==> hi in h.heads)
    ensures FreeOk(Freed(h, lo, hi, gone, dest), Merged(x, lo, hi, gone), q)
    ensures BinnedOk(Freed(h, lo, hi, gone, dest), Merged(x, lo, hi, gone), q)
  {
    var h', x' := Freed(h, lo, hi, gone, dest), Merged(x, lo, hi, gone);
    BlockLow(h, x, p, lo, hi, gone);
    BlockHigh(h, x, p, lo, hi, gone);
    BlockInside(h, x, p, lo, hi, gone, q);
    FreedHeads(h, x, p, lo, hi, gone, dest, q);
    FreedHeads(h, x, p, lo, hi, gone, dest, hi);
    assert FreeOk(h, x, q) && BinnedOk(h, x, q) && BinnedOk(h, x, lo) && FreeOk(h, x, lo) && TileOk(h, x, q);
    assert ApartOk(h, x, h.top, q);
    if Free(h', x', q) && q != lo {
      FreedElsewhere(h, x, p, lo, hi, gone, dest, q);
    }
  }

  /** A free chunk outside the block keeps its neighbours, its foot and its bin. */
  lemma FreedElsewhere(h: Space, x: Extent, p: nat, lo: nat, hi: nat, gone: set<nat>, dest: Dest, q: nat)
    requires Freeing(h, x, p, lo, hi, gone, dest) && lo < hi && (!dest.ToTop? ==> hi in h.heads)
    requires Free(h, x, q) && (q < lo || hi <= q)
    ensures FreeOk(Freed(h, lo, hi, gone, dest), Merged(x, lo, hi, gone), q)
  {
    BlockLow(h, x, p, lo, hi, gone);
    BlockHigh(h, x, p, lo, hi, gone);
    BlockInside(h, x, p, lo, hi, gone, q);
    LowUsed(h, x, p, lo, hi, gone, q);
    var n := q + SizeOf(h, q);
    assert FreeOk(h, x, q) && TileOk(h, x, q);
    FreedHeads(h, x, p, lo, hi, gone, dest, q);
    FreedHeads(h, x, p, lo, hi, gone, dest, n);
    BlockInside(h, x, p, lo, hi, gone, h.dv);
  }

  lemma FreedEnds(h: Space, x: Extent, p: nat, lo: nat, hi: nat, gone: set<nat>, dest: Dest)
    requires Freeing(h, x, p, lo, hi, gone, dest) && lo < hi && (!dest.ToTop? ==> hi in h.heads)
    ensures EndsOk(Freed(h, lo, hi, gone, dest), Merged(x, lo, hi, gone))
  {
    BlockLow(h, x, p, lo, hi, gone);
    BlockHigh(h, x, p, lo, hi, gone);
    FreedHeads(h, x, p, lo, hi, gone, dest, x.base);
    FreedHeads(h, x, p, lo, hi, gone, dest, h.top);
    FreedHeads(h, x, p, lo, hi, gone, dest, lo);
    FreedHeads(h, x, p, lo, hi, gone, dest, h.dv);
    BlockInside(h, x, p, lo, hi, gone, h.dv);
    BlockInside(h, x, p, lo, hi, gone, h.top);
    forall q | q in Merged(x, lo, hi, gone).starts ensures x.base <= q {
      FreedHeads(h, x, p, lo, hi, gone, dest, q);
    }
  }

  /**
   Freeing a used chunk: its block with free neighbours becomes one free chunk, and the heap is
   well-formed again, with the same total size and every other used chunk untouched.
   */
  lemma FreedOk(h: Space, x: Extent, p: nat, lo: nat, hi: nat, gone: set<nat>, dest: Dest)
    requires Freeing(h, x, p, lo, hi, gone, dest)
    ensures lo < hi && (!dest.ToTop? ==> hi in h.heads)
    ensures HeapOk(Freed(h, lo, hi, gone, dest), Merged(x, lo, hi, gone))
    ensures InUse(Freed(h, lo, hi, gone, dest), Merged(x, lo, hi, gone)) == InUse(h, x) - {p}
  {
    FreedHeads(h, x, p, lo, hi, gone, dest, lo);
    var h', x' := Freed(h, lo, hi, gone, dest), Merged(x, lo, hi, gone);
    FreedEnds(h, x, p, lo, hi, gone, dest);
    forall q ensures TileOk(h', x', q) && BeforeOk(h', x', q) && FreeOk(h', x', q) && BinnedOk(h', x', q) {
      FreedTile(h, x, p, lo, hi, gone, dest, q);
      FreedBefore(h, x, p, lo, hi, gone, dest, q);
      FreedFree(h, x, p, lo, hi, gone, dest, q);
    }
    forall q, r ensures ApartOk(h', x', q, r) {
      FreedApart(h, x, p, lo, hi, gone, dest, q, r);
    }
    FreedInUse(h, x, p, lo, hi, gone, dest);
  }

  lemma FreedInUse(h: Space, x: Extent, p: nat, lo: nat, hi: nat, gone: set<nat>, dest: Dest)
    requires Freeing(h, x, p, lo, hi, gone, dest) && lo < hi && (!dest.ToTop? ==> hi in h.heads)
    ensures InUse(Freed(h, lo, hi, gone, dest), Merged(x, lo, hi, gone)) == InUse(h, x) - {p}
  {
    var m, m' := InUse(h, x), InUse(Freed(h, lo, hi, gone, dest), Merged(x, lo, hi, gone));
    BlockLow(h, x, p, lo, hi, gone);
    BlockHigh(h, x, p, lo, hi, gone);
    forall q ensures q in m' <==> q in m && q != p {
      FreedHeads(h, x, p, lo, hi, gone, dest, q);
      BlockInside(h, x, p, lo, hi, gone, q);
      assert ApartOk(h, x, h.top, q);
    }
    forall q | q in m' ensures m'[q] == m[q] {
      FreedHeads(h, x, p, lo, hi, gone, dest, q);
    }
  }

  // ----- allocating -----

  /** Where the remainder of a split chunk goes. */
  datatype Rest = NoRest | RestTop | RestDv | RestBin

  /** `nb` bytes of the free chunk or top at `p`, of size `s`, put to use; the rest stays free. */
  function Carved(h: Space, p: nat, s: nat, nb: nat, rest: Rest): Space
    requires nb <= s && (!rest.RestTop? ==> p + s in h.heads)
  {
    var r, rs := p + nb, s - nb;
    var dv, dvsize := if h.dv == p then 0 else h.dv, if h.dv == p then 0 else h.dvsize;
    var split := h.heads[r := Head(rs, true, false)][p := Head(nb, true, true)];
    match rest
    case NoRest =>
      var heads := h.heads[p := Head(s, true, true)];
      h.(heads := heads[p + s := heads[p + s].(pinuse := true)], dv := dv, dvsize := dvsize, binned := h.binned - {p})
    case RestTop => h.(heads := split, top := r, topsize := rs)
    case RestDv => h.(heads := split, feet := h.feet[r + rs := rs], dv := r, dvsize := rs,
                      binned := if dv == 0 then h.binned - {p} else (h.binned - {p})[dv := dvsize])
    case RestBin => h.(heads := split, feet := h.feet[r + rs := rs], binned := (h.binned - {p})[r := rs])
  }

  function CarvedExtent(x: Extent, p: nat, s: nat, nb: nat, rest: Rest): Extent {
    var r := p + nb;
    if rest.NoRest? then x
    else x.(starts := x.starts + {r}, before := if p + s in x.starts then x.before[r := p][p + s := r] else x.before[r := p])
  }

  ghost predicate Allocating(h: Space, x: Extent, p: nat, s: nat, nb: nat, rest: Rest) {
    && HeapOk(h, x) && nb >= MIN_CHUNK_SIZE && nb % 8 == 0 && nb <= s
    && match rest
       case NoRest => Free(h, x, p) && s == SizeOf(h, p)
       case RestTop => p == h.top && s == h.topsize && nb < s
       case RestDv => Free(h, x, p) && s == SizeOf(h, p) && s - nb >= MIN_CHUNK_SIZE
       case RestBin => Free(h, x, p) && s == SizeOf(h, p) && s - nb >= MIN_CHUNK_SIZE && p != h.dv
  }

  lemma CarvedFacts(h: Space, x: Extent, p: nat, s: nat, nb: nat, rest: Rest)
    requires Allocating(h, x, p, s, nb, rest)
    ensures p in x.starts && p in h.heads && h.heads[p].pinuse && s % 8 == 0
    ensures rest.RestTop? ==> p + s == x.end && forall q :: q in x.starts ==> q <= p
    ensures !rest.RestTop? ==> p + s in x.starts && p + s in h.heads && p + s != h.top && Used(h, p + s) && !h.heads[p + s].pinuse
    ensures forall q :: q in x.starts ==> q <= p || p + s <= q
    ensures forall q :: q in x.starts && q != h.top && q < p ==> q + SizeOf(h, q) <= p && q in h.heads
  {
    assert TileOk(h, x, p) && FreeOk(h, x, p);
    forall q | q in x.starts ensures (q <= p || p + s <= q) && (rest.RestTop? ==> q <= p) {
      assert ApartOk(h, x, p, q);
    }
    forall q | q in x.starts && q != h.top && q < p ensures q + SizeOf(h, q) <= p && q in h.heads {
      assert ApartOk(h, x, q, p) && TileOk(h, x, q);
    }
  }

  lemma CarvedHeads(h: Space, x: Extent, p: nat, s: nat, nb: nat, rest: Rest, q: nat)
    requires Allocating(h, x, p, s, nb, rest)
    ensures !rest.RestTop? ==> p + s in h.heads
    ensures var h', x' := Carved(h, p, s, nb, rest), CarvedExtent(x, p, s, nb, rest);
            && (q in x'.starts <==> q in x.starts || (!rest.NoRest? && q == p + nb))
            && (h'.top == if rest.RestTop? then p + nb else h.top)
            && p in h'.heads && h'.heads[p] == Head(if rest.NoRest? then s else nb, true, true)
            && (!rest.NoRest? ==> p + nb in h'.heads && h'.heads[p + nb] == Head(s - nb, true, false) && p + nb !in x.starts)
            && (q in x.starts && q != p && (q != p + s || !rest.NoRest?) ==> (q in h'.heads <==> q in h.heads))
            && (q in x.starts && q != p && (q != p + s || !rest.NoRest?) && q in h.heads ==> h'.heads[q] == h.heads[q])
            && (q == p + s && rest.NoRest? ==> q in h'.heads && h'.heads[q] == h.heads[q].(pinuse := true))
  {
    CarvedFacts(h, x, p, s, nb, rest);
  }

  lemma CarvedTile(h: Space, x: Extent, p: nat, s: nat, nb: nat, rest: Rest, q: nat)
    requires Allocating(h, x, p, s, nb, rest) && (!rest.RestTop? ==> p + s in h.heads)
    ensures TileOk(Carved(h, p, s, nb, rest), CarvedExtent(x, p, s, nb, rest), q)
  {
    CarvedFacts(h, x, p, s, nb, rest);
    CarvedHeads(h, x, p, s, nb, rest, q);
    CarvedHeads(h, x, p, s, nb, rest, q + SizeOf(h, q));
    CarvedHeads(h, x, p, s, nb, rest, p + s);
    assert TileOk(h, x, q) && TileOk(h, x, p) && FreeOk(h, x, p);
  }

  lemma CarvedBefore(h: Space, x: Extent, p: nat, s: nat, nb: nat, rest: Rest, q: nat)
    requires Allocating(h, x, p, s, nb, rest) && (!rest.RestTop? ==> p + s in h.heads)
    ensures BeforeOk(Carved(h, p, s, nb, rest), CarvedExtent(x, p, s, nb, rest), q)
  {
    CarvedFacts(h, x, p, s, nb, rest);
    CarvedHeads(h, x, p, s, nb, rest, q);
    assert BeforeOk(h, x, q) && TileOk(h, x, p);
    if q in x.starts && q != x.base {
      CarvedHeads(h, x, p, s, nb, rest, x.before[q]);
      assert TileOk(h, x, x.before[q]);
    }
  }

  lemma CarvedApart(h: Space, x: Extent, p: nat, s: nat, nb: nat, rest: Rest, q: nat, r: nat)
    requires Allocating(h, x, p, s, nb, rest) && (!rest.RestTop? ==> p + s in h.heads)
    ensures ApartOk(Carved(h, p, s, nb, rest), CarvedExtent(x, p, s, nb, rest), q, r)
  {
    CarvedFacts(h, x, p, s, nb, rest);
    CarvedHeads(h, x, p, s, nb, rest, q);
    CarvedHeads(h, x, p, s, nb, rest, r);
    assert ApartOk(h, x, q, r) && ApartOk(h, x, q, p) && ApartOk(h, x, p, r);
    assert TileOk(h, x, q);
  }

  lemma CarvedFree(h: Space, x: Extent, p: nat, s: nat, nb: nat, rest: Rest, q: nat)
    requires Allocating(h, x, p, s, nb, rest) && (!rest.RestTop? ==> p + s in h.heads)
    ensures FreeOk(Carved(h, p, s, nb, rest), CarvedExtent(x, p, s, nb, rest), q)
    ensures BinnedOk(Carved(h, p, s, nb, rest), CarvedExtent(x, p, s, nb, rest), q)
  {
    var h', x' := Carved(h, p, s, nb, rest), CarvedExtent(x, p, s, nb, rest);
    CarvedFacts(h, x, p, s, nb, rest);
    CarvedHeads(h, x, p, s, nb, rest, q);
    CarvedHeads(h, x, p, s, nb, rest, q + SizeOf(h, q));
    CarvedHeads(h, x, p, s, nb, rest, p + s);
    assert FreeOk(h, x, q) && BinnedOk(h, x, q) && TileOk(h, x, q) && FreeOk(h, x, p) && BinnedOk(h, x, p + nb) && BinnedOk(h, x, h.dv);
    assert FreeOk(h, x, h.dv) && TileOk(h, x, p);
  }

  lemma CarvedEnds(h: Space, x: Extent, p: nat, s: nat, nb: nat, rest: Rest)
    requires Allocating(h, x, p, s, nb, rest) && (!rest.RestTop? ==> p + s in h.heads)
    ensures EndsOk(Carved(h, p, s, nb, rest), CarvedExtent(x, p, s, nb, rest))
  {
    CarvedFacts(h, x, p, s, nb, rest);
    CarvedHeads(h, x, p, s, nb, rest, x.base);
    CarvedHeads(h, x, p, s, nb, rest, h.top);
    CarvedHeads(h, x, p, s, nb, rest, h.dv);
    forall q | q in CarvedExtent(x, p, s, nb, rest).starts ensures x.base <= q {
      CarvedHeads(h, x, p, s, nb, rest, q);
    }
  }

  lemma CarvedInUse(h: Space, x: Extent, p: nat, s: nat, nb: nat, rest: Rest)
    requires Allocating(h, x, p, s, nb, rest) && (!rest.RestTop? ==> p + s in h.heads)
    ensures p !in InUse(h, x)
    ensures InUse(Carved(h, p, s, nb, rest), CarvedExtent(x, p, s, nb, rest)) == InUse(h, x)[p := if rest.NoRest? then s else nb]
  {
    var m, m' := InUse(h, x), InUse(Carved(h, p, s, nb, rest), CarvedExtent(x, p, s, nb, rest));
    CarvedFacts(h, x, p, s, nb, rest);
    forall q ensures q in m' <==> q in m || q == p {
      CarvedHeads(h, x, p, s, nb, rest, q);
      assert TileOk(h, x, q);
    }
    forall q | q in m' ensures m'[q] == if q == p then if rest.NoRest? then s else nb else m[q] {
      CarvedHeads(h, x, p, s, nb, rest, q);
    }
  }

  /**
   Allocating from a free chunk or from top: the heap is well-formed again with the same total
   size, the chunk is newly in use, and every other used chunk is untouched.
   */
  lemma CarvedOk(h: Space, x: Extent, p: nat, s: nat, nb: nat, rest: Rest)
    requires Allocating(h, x, p, s, nb, rest)
    ensures !rest.RestTop? ==> p + s in h.heads
    ensures HeapOk(Carved(h, p, s, nb, rest), CarvedExtent(x, p, s, nb, rest))
    ensures p !in InUse(h, x)
    ensures InUse(Carved(h, p, s, nb, rest), CarvedExtent(x, p, s, nb, rest)) == InUse(h, x)[p := if rest.NoRest? then s else nb]
  {
    CarvedFacts(h, x, p, s, nb, rest);
    var h', x' := Carved(h, p, s, nb, rest), CarvedExtent(x, p, s, nb, rest);
    CarvedEnds(h, x, p, s, nb, rest);
    forall q ensures TileOk(h', x', q) && BeforeOk(h', x', q) && FreeOk(h', x', q) && BinnedOk(h', x', q) {
      CarvedTile(h, x, p, s, nb, rest, q);
      CarvedBefore(h, x, p, s, nb, rest, q);
      CarvedFree(h, x, p, s, nb, rest, q);
    }
    forall q, r ensures ApartOk(h', x', q, r) {
      CarvedApart(h, x, p, s, nb, rest, q, r);
    }
    CarvedInUse(h, x, p, s, nb, rest);
  }
}
