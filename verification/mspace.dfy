/**
 Freeing and allocating in a memory space of one segment.
 */
module MSpaces {
  import opened SizeIndex
  import opened Bitmaps
  import opened PowersOfTwo
  import opened HeapLayout
  import LB = LargeBins
  import TB = TreeBins
  import TS = TreeSearch
  import FB = FreeBins

  /** What a used chunk's neighbours look like from its own words. */
  lemma UsedFacts(h: Space, x: Extent, p: nat)
    requires HeapOk(h, x) && p in InUse(h, x)
    ensures var next := p + SizeOf(h, p);
            && p in h.heads && next in h.heads && h.heads[next].pinuse
            && (next == h.top ==> !h.heads[next].cinuse)
            && (next != h.top && !h.heads[next].cinuse ==>
                  Free(h, x, next) && next + SizeOf(h, next) in h.heads && !h.heads[next + SizeOf(h, next)].pinuse
                  && (next == h.dv ==> h.dvsize == SizeOf(h, next)) && (next != h.dv ==> next in h.binned && h.binned[next] == SizeOf(h, next)))
  {
    assert TileOk(h, x, p);
    var next := p + SizeOf(h, p);
    assert TileOk(h, x, next) && FreeOk(h, x, next) && BinnedOk(h, x, next);
  }

  lemma FreeBefore(h: Space, x: Extent, p: nat)
    requires HeapOk(h, x) && p in InUse(h, x)
    ensures p in h.heads
    ensures !h.heads[p].pinuse ==> p in x.before && p in h.feet && h.feet[p] <= p && x.before[p] == p - h.feet[p]
    ensures !h.heads[p].pinuse ==> var lo := p - h.feet[p];
            && Free(h, x, lo) && SizeOf(h, lo) == h.feet[p] && lo != 0 && lo in h.heads
            && (lo == h.dv ==> h.dvsize == SizeOf(h, lo)) && (lo != h.dv ==> lo in h.binned && h.binned[lo] == SizeOf(h, lo))
  {
    assert TileOk(h, x, p) && BeforeOk(h, x, p);
    if !h.heads[p].pinuse {
      var lo := x.before[p];
      assert TileOk(h, x, lo) && FreeOk(h, x, lo) && BinnedOk(h, x, lo);
    }
  }

  /** The block to free, as its first and last chunks' words give it. */
  ghost function Low(h: Space, p: nat): nat
    requires p in h.heads
  {
    if !h.heads[p].pinuse && p in h.feet && h.feet[p] <= p then p - h.feet[p] else p
  }

  ghost function Gone(h: Space, p: nat): set<nat>
    requires p in h.heads
  {
    var next := p + SizeOf(h, p);
    if next == h.top || !Used(h, next) then {Low(h, p), p, next} else {Low(h, p), p}
  }

  ghost function High(h: Space, x: Extent, p: nat): nat {
    var next := p + SizeOf(h, p);
    if next == h.top then x.end else if Used(h, next) then next else next + SizeOf(h, next)
  }

  lemma IsBlock(h: Space, x: Extent, p: nat)
    requires HeapOk(h, x) && p in InUse(h, x)
    ensures p in h.heads && Block(h, x, p, Low(h, p), High(h, x, p), Gone(h, p))
    ensures Low(h, p) <= p < High(h, x, p) && High(h, x, p) <= x.end && x.base <= Low(h, p)
    ensures Low(h, p) > 0 && (High(h, x, p) - Low(h, p)) % 8 == 0
  {
    UsedFacts(h, x, p);
    FreeBefore(h, x, p);
    var lo, hi, gone := Low(h, p), High(h, x, p), Gone(h, p);
    BlockLow(h, x, p, lo, hi, gone);
    BlockHigh(h, x, p, lo, hi, gone);
    assert ApartOk(h, x, h.top, hi);
  }

  /** Used chunks, top and dv are in no bin. */
  lemma NotBinned(h: Space, x: Extent, p: nat)
    requires HeapOk(h, x) && p in InUse(h, x)
    ensures h.top + h.topsize == x.end && p !in h.binned && h.top !in h.binned && h.dv !in h.binned
    ensures p != h.dv && h.dv != h.top && h.top > 0
  {
    assert BinnedOk(h, x, p) && BinnedOk(h, x, h.top) && BinnedOk(h, x, h.dv) && FreeOk(h, x, h.dv);
  }

  /** What is left in the bins once the chunks of the block are unlinked. */
  ghost function Kept(h: Space, p: nat): map<nat, nat>
    requires p in h.heads
  {
    h.binned - Gone(h, p)
  }

  /** The three outcomes of a free, as the code leaves the words it wrote. */
  ghost function Outcome(h: Space, x: Extent, p: nat, dest: Dest): Space
    requires p in h.heads
  {
    var lo, hi, next := Low(h, p), High(h, x, p), p + SizeOf(h, p);
    var size := if lo <= hi then hi - lo else 0;
    var cleared := if next in h.heads && next != h.top && Used(h, next) then h.heads[next := h.heads[next].(pinuse := false)] else h.heads;
    match dest
    case ToTop =>
      Space(h.heads[lo := Head(size, true, false)], h.feet, lo, size,
            if lo == h.dv then 0 else h.dv, if lo == h.dv then 0 else h.dvsize, Kept(h, p))
    case ToDv => Space(cleared[lo := Head(size, true, false)], h.feet[hi := size], h.top, h.topsize, lo, size, Kept(h, p))
    case ToBin => Space(cleared[lo := Head(size, true, false)], h.feet[hi := size], h.top, h.topsize, h.dv, h.dvsize, Kept(h, p)[lo := size])
  }

  lemma OutcomeOk(h: Space, x: Extent, p: nat, dest: Dest)
    requires HeapOk(h, x) && p in InUse(h, x)
    requires p in h.heads
    requires var next := p + SizeOf(h, p);
             if next == h.top then dest.ToTop?
             else if h.dv == Low(h, p) || (!Used(h, next) && h.dv == next) then dest.ToDv? else dest.ToBin?
    ensures HeapOk(Outcome(h, x, p, dest), Merged(x, Low(h, p), High(h, x, p), Gone(h, p)))
    ensures InUse(Outcome(h, x, p, dest), Merged(x, Low(h, p), High(h, x, p), Gone(h, p))) == InUse(h, x) - {p}
  {
    hide HeapOk;
    hide InUse;
    IsBlock(h, x, p);
    NotBinned(h, x, p);
    UsedFacts(h, x, p);
    FreedOk(h, x, p, Low(h, p), High(h, x, p), Gone(h, p), dest);
    assert Outcome(h, x, p, dest) == Freed(h, Low(h, p), High(h, x, p), Gone(h, p), dest);
  }

  /** Unlinking what is binned of the block leaves exactly what is kept. */
  lemma KeptIs(h: Space, x: Extent, p: nat)
    requires HeapOk(h, x) && p in InUse(h, x)
    ensures p in h.heads
    ensures var lo, next := Low(h, p), p + SizeOf(h, p);
            var first := if lo != p && lo != h.dv then h.binned - {lo} else h.binned;
            Kept(h, p) == if next != h.top && !Used(h, next) && next != h.dv then first - {next} else first
  {
    UsedFacts(h, x, p);
    FreeBefore(h, x, p);
    IsBlock(h, x, p);
    NotBinned(h, x, p);
  }

  lemma LowKept(h: Space, x: Extent, p: nat)
    requires p in h.heads
    ensures Low(h, p) !in Kept(h, p)
  {
  }

  // ----- requests -----

  const MAX_SMALL_REQUEST := 240
  const MIN_REQUEST := 23
  const MAX_REQUEST := WORD - 128

  /** `pad_request`: room for one header word, rounded up to the alignment. */
  function Pad(bytes: nat): nat {
    (bytes + 15) / 8 * 8
  }

  /** The chunk size a request asks for; too large a request asks for the impossible. */
  function ChunkFor(bytes: nat): nat {
    if bytes <= MAX_SMALL_REQUEST then if bytes < MIN_REQUEST then MIN_CHUNK_SIZE else Pad(bytes)
    else if bytes >= MAX_REQUEST then WORD - 1
    else Pad(bytes)
  }

  /** The least multiple of 8 that holds the bytes and a head word, and is no smaller than a chunk; or nothing there is. */
  lemma ChunkForOk(bytes: nat)
    requires bytes < WORD
    ensures var nb := ChunkFor(bytes);
            && MIN_CHUNK_SIZE <= nb < WORD && (bytes < MAX_REQUEST ==> nb >= bytes + 8 && nb % 8 == 0)
            && (bytes <= MAX_SMALL_REQUEST <==> nb < MIN_LARGE_SIZE)
            && (bytes < MAX_REQUEST ==> forall n :: n % 8 == 0 && n >= bytes + 8 && n >= MIN_CHUNK_SIZE ==> nb <= n)
  {
  }

  /** No free chunk, not even top, can serve a request for `nb` bytes. */
  ghost predicate NoRoom(h: Space, nb: nat) {
    h.dvsize < nb && h.topsize <= nb && forall a :: a in h.binned ==> h.binned[a] < nb
  }

  /** A chunk taken for a request: at least as large, and not a whole chunk too large. */
  ghost predicate Served(was: map<nat, nat>, now: map<nat, nat>, p: nat, nb: nat) {
    p !in was && p in now && nb <= now[p] < nb + MIN_CHUNK_SIZE && now == was[p := now[p]]
  }

  lemma ServedHolds(was: map<nat, nat>, now: map<nat, nat>, p: nat, nb: nat)
    ensures Served(was, now, p, nb) ==> p in now && now[p] >= nb
  {
  }

  lemma BinnedFacts(h: Space, x: Extent, p: nat)
    requires HeapOk(h, x) && p in h.binned
    ensures Free(h, x, p) && h.binned[p] == SizeOf(h, p) && p != h.dv && p > 0 && p != h.top && h.binned[p] % 8 == 0
    ensures p in h.heads && p + SizeOf(h, p) in h.heads && h.dv !in h.binned && h.binned[p] >= MIN_CHUNK_SIZE
    ensures p + SizeOf(h, p) <= x.end && x.base <= p
  {
    assert BinnedOk(h, x, p) && FreeOk(h, x, p) && TileOk(h, x, p) && BinnedOk(h, x, h.dv) && FreeOk(h, x, h.dv);
    assert ApartOk(h, x, p, h.top) && ApartOk(h, x, h.top, p);
  }

  lemma DvFacts(h: Space, x: Extent)
    requires HeapOk(h, x)
    ensures h.dv == 0 ==> h.dvsize == 0
    ensures h.dv != 0 ==> Free(h, x, h.dv) && h.dvsize == SizeOf(h, h.dv) && h.dvsize >= MIN_CHUNK_SIZE && h.dvsize % 8 == 0
    ensures h.dv != 0 ==> h.dv !in h.binned && h.dv in h.heads && h.dv + h.dvsize in h.heads
    ensures h.dv != 0 ==> h.dv + h.dvsize <= x.end && x.base <= h.dv
  {
    assert BinnedOk(h, x, h.dv) && FreeOk(h, x, h.dv) && TileOk(h, x, h.dv);
    assert ApartOk(h, x, h.dv, h.top) && ApartOk(h, x, h.top, h.dv);
  }

  /** Nothing binned starts inside a free chunk. */
  lemma InsideFree(h: Space, x: Extent, p: nat, r: nat)
    requires HeapOk(h, x) && p in h.binned && p < r < p + h.binned[p]
    ensures r !in h.binned
  {
    assert BinnedOk(h, x, p) && BinnedOk(h, x, r) && ApartOk(h, x, p, r);
  }

  /** Splitting a binned chunk writes the head of the request, then head, foot and bin of the rest. */
  lemma CarvedBin(h: Space, p: nat, s: nat, nb: nat)
    requires 0 < nb <= s && p + s in h.heads
    ensures var r, rs := p + nb, s - nb;
            Carved(h, p, s, nb, RestBin) == h.(heads := h.heads[p := Head(nb, true, true)][r := Head(rs, true, false)],
                                               feet := h.feet[r + rs := rs], binned := (h.binned - {p})[r := rs])
  {
    var r, rs := p + nb, s - nb;
    assert h.heads[p := Head(nb, true, true)][r := Head(rs, true, false)] == h.heads[r := Head(rs, true, false)][p := Head(nb, true, true)];
  }

  /** A segment below 2^40 bytes has no larger chunk. */
  lemma SizesSmall(h: Space, x: Extent)
    requires HeapOk(h, x) && x.end - x.base < LARGEST
    ensures h.dvsize < LARGEST && h.topsize < LARGEST
  {
    DvFacts(h, x);
  }

  lemma MarksInside(bins: seq<seq<nat>>, smallmap: nat, chunks: TB.Chunks, binned: map<nat, nat>)
    requires FB.BinsAgree(bins, smallmap, chunks, binned)
    ensures forall i :: i >= FB.NSMALLBINS ==> !Bit(smallmap, i)
  {
  }

  lemma NoneLarge(bins: seq<seq<nat>>, smallmap: nat, lb: LB.LargeBins, binned: map<nat, nat>, nb: nat)
    requires lb.Valid() && FB.BinsAgree(bins, smallmap, lb.chunks, binned) && nb >= MIN_LARGE_SIZE && (lb.treemap == 0 || nb >= LARGEST)
    ensures forall a :: a in binned ==> binned[a] < nb
  {
    LB.MapZero(lb.chunks, lb.at, lb.rings, lb.treebins, lb.treemap);
    forall a | a in binned ensures binned[a] < nb {
      FB.MarkedOf(bins, smallmap, lb.chunks, binned, a);
    }
  }

  /** With no marked bin at or above the request's, nothing binned is large enough. */
  lemma NoneBinned(bins: seq<seq<nat>>, smallmap: nat, lb: LB.LargeBins, binned: map<nat, nat>, nb: nat)
    requires lb.Valid() && FB.BinsAgree(bins, smallmap, lb.chunks, binned) && Pre(smallmap, nb / 8) == 0 && nb < MIN_LARGE_SIZE && lb.treemap == 0
    ensures forall a :: a in binned ==> binned[a] < nb
  {
    SmallBits(smallmap, nb / 8);
    LB.MapZero(lb.chunks, lb.at, lb.rings, lb.treebins, lb.treemap);
    forall a | a in binned ensures binned[a] < nb {
      FB.MarkedOf(bins, smallmap, lb.chunks, binned, a);
    }
  }

  // ----- which free chunk serves a request -----

  ghost predicate Smallest(binned: map<nat, nat>, p: nat, nb: nat) {
    p in binned && binned[p] >= nb && forall a :: a in binned && binned[a] >= nb ==> binned[a] >= binned[p]
  }

  /** A binned chunk of this size is preferred to a victim that fits too. */
  predicate Beats(size: nat, nb: nat, dvsize: nat) {
    if nb < MIN_LARGE_SIZE then size < nb + 16 && size < MIN_LARGE_SIZE else size < dvsize
  }

  /** The request goes to the smallest binned chunk that is large enough. */
  ghost predicate FromBins(binned: map<nat, nat>, dvsize: nat, nb: nat, p: nat) {
    Smallest(binned, p, nb) && (nb <= dvsize ==> Beats(binned[p], nb, dvsize))
  }

  /** No binned chunk serves the request. */
  ghost predicate NotFromBins(binned: map<nat, nat>, dvsize: nat, nb: nat) {
    forall a :: a in binned && binned[a] >= nb ==> nb <= dvsize && !Beats(binned[a], nb, dvsize)
  }

  /** The policy: best fit from the bins unless the victim is better, then the victim, then top. */
  ghost predicate Chosen(h: Space, nb: nat, p: nat) {
    || FromBins(h.binned, h.dvsize, nb, p)
    || (NotFromBins(h.binned, h.dvsize, nb) && if nb <= h.dvsize then p == h.dv else p == h.top && nb < h.topsize)
  }

  lemma SmallestSmall(bins: seq<seq<nat>>, smallmap: nat, chunks: TB.Chunks, binned: map<nat, nat>, nb: nat, i: nat)
    requires FB.BinsAgree(bins, smallmap, chunks, binned) && nb % 8 == 0 && nb / 8 <= i && Bit(smallmap, i)
    requires forall j :: nb / 8 <= j < i ==> !Bit(smallmap, j)
    ensures i < |bins| && bins[i] != [] && Smallest(binned, bins[i][0], nb) && binned[bins[i][0]] == 8 * i < MIN_LARGE_SIZE
  {
    FB.FirstOf(bins, smallmap, chunks, binned, i);
    forall a | a in binned && binned[a] >= nb ensures binned[a] >= 8 * i {
      FB.MarkedOf(bins, smallmap, chunks, binned, a);
    }
  }

  /** Without a small chunk that is large enough, the best fit of the tree bins is the best of all. */
  lemma SmallestTree(bins: seq<seq<nat>>, smallmap: nat, lb: LB.LargeBins, binned: map<nat, nat>, nb: nat, v: nat, rsize: nat)
    requires FB.BinsAgree(bins, smallmap, lb.chunks, binned) && (nb < MIN_LARGE_SIZE ==> Pre(smallmap, nb / 8) == 0)
    requires v != 0 && LB.BestFit(lb.chunks, nb, v, rsize)
    ensures Smallest(binned, v, nb) && binned[v] == nb + rsize
  {
    if nb < MIN_LARGE_SIZE {
      SmallBits(smallmap, nb / 8);
    }
    assert FB.PlacedOk(bins, lb.chunks, binned, v);
    forall a | a in binned && binned[a] >= nb ensures binned[a] >= binned[v] {
      FB.MarkedOf(bins, smallmap, lb.chunks, binned, a);
    }
  }

  /** No chunk of the request's size or the next, and a victim that fits. */
  lemma SmallLeft(bins: seq<seq<nat>>, smallmap: nat, chunks: TB.Chunks, binned: map<nat, nat>, dvsize: nat, nb: nat)
    requires FB.BinsAgree(bins, smallmap, chunks, binned) && nb % 8 == 0 && nb < MIN_LARGE_SIZE && nb <= dvsize
    requires !Bit(smallmap, nb / 8) && !Bit(smallmap, nb / 8 + 1)
    ensures NotFromBins(binned, dvsize, nb)
  {
    forall a | a in binned && binned[a] >= nb ensures !Beats(binned[a], nb, dvsize) {
      FB.MarkedOf(bins, smallmap, chunks, binned, a);
    }
  }

  /** `tmalloc_large` gives up only for the victim's sake, or when nothing binned is large enough. */
  lemma NotServed(bins: seq<seq<nat>>, smallmap: nat, lb: LB.LargeBins, binned: map<nat, nat>, nb: nat, v: nat, rsize: nat, dvsize: nat)
    requires lb.Valid() && FB.BinsAgree(bins, smallmap, lb.chunks, binned) && MIN_LARGE_SIZE <= nb < WORD && dvsize < LARGEST
    requires LB.BestFit(lb.chunks, nb, v, rsize) && (v == 0 || rsize >= TS.Minus(dvsize, nb))
    ensures NotFromBins(binned, dvsize, nb)
  {
    if v != 0 {
      assert lb.chunks[v].size < LARGEST;
    }
    forall a | a in binned && binned[a] >= nb ensures nb <= dvsize && !Beats(binned[a], nb, dvsize) {
      FB.MarkedOf(bins, smallmap, lb.chunks, binned, a);
    }
  }

  /** Two chunks the program owns never overlap, and both lie inside the segment. */
  lemma OwnedApart(h: Space, x: Extent, p: nat, q: nat)
    requires HeapOk(h, x) && p in InUse(h, x) && q in InUse(h, x) && p != q
    ensures p + InUse(h, x)[p] <= q || q + InUse(h, x)[q] <= p
    ensures x.base <= p && p + InUse(h, x)[p] <= x.end
  {
    assert ApartOk(h, x, p, q) && ApartOk(h, x, q, p) && ApartOk(h, x, p, h.top) && ApartOk(h, x, h.top, p);
  }

  class MSpace {
    var heads: map<nat, Head>
    var feet: map<nat, nat>
    var top: nat
    var topsize: nat
    var dv: nat
    var dvsize: nat
    const bins: FB.FreeBins
    ghost var extent: Extent

    ghost function State(): Space
      reads this, bins
    {
      Space(heads, feet, top, topsize, dv, dvsize, bins.binned)
    }

    ghost predicate Valid()
      reads this, bins, bins.large
    {
      bins.Valid() && HeapOk(State(), extent) && extent.end - extent.base < LARGEST
    }

    /** What the program has allocated and not freed: the size of each chunk. */
    ghost function Owned(): map<nat, nat>
      reads this, bins
    {
      InUse(State(), extent)
    }

    /** A space whose whole segment is top, as `init_top` leaves it. */
    constructor (base: nat, size: nat)
      requires base > 0 && 0 < size < LARGEST && size % 8 == 0
      ensures Valid() && Owned() == map[] && fresh(bins) && fresh(bins.large)
      ensures extent.base == base && extent.end == base + size
    {
      heads, feet := map[base := Head(size, true, false)], map[];
      top, topsize, dv, dvsize := base, size, 0, 0;
      bins := new FB.FreeBins();
      extent := Extent(base, base + size, {base}, map[]);
    }

    /** `mspace_free`, from the chunk on; trimming and segment release are left out. */
    method Free(chunk: nat)
      requires Valid() && chunk in Owned()
      modifies this, bins, bins.large
      ensures Valid() && Owned() == old(Owned()) - {chunk}
      ensures extent.base == old(extent.base) && extent.end == old(extent.end)
    {
      hide FB.FreeBins.Valid;
      hide HeapOk;
      hide InUse;
      hide Block;
      ghost var h, x := State(), extent;
      UsedFacts(h, x, chunk);
      FreeBefore(h, x, chunk);
      IsBlock(h, x, chunk);
      NotBinned(h, x, chunk);
      KeptIs(h, x, chunk);
      hide Kept;
      hide Gone;
      var p, psize := chunk, heads[chunk].size;
      var next := p + psize;
      if !heads[p].pinuse {
        var prevsize := feet[p];
        p := p - prevsize;
        psize := psize + prevsize;
        if p != dv {
          bins.UnlinkChunk(p, prevsize);
        } else if heads[next].pinuse && heads[next].cinuse {
          dvsize := psize;
          SetFreeWithPinuse(p, psize, next);
          OutcomeOk(h, x, chunk, ToDv);
          assert State() == Outcome(h, x, chunk, ToDv);
          extent := Merged(x, Low(h, chunk), High(h, x, chunk), Gone(h, chunk));
          return;
        }
      }
      Forward(p, psize, next, h, chunk);
    }

    /** The second half of `mspace_free`: merges with what follows, and puts the block where it belongs. */
    method Forward(p: nat, freed: nat, next: nat, ghost h: Space, ghost chunk: nat)
      requires bins.Valid() && HeapOk(h, extent) && chunk in InUse(h, extent) && extent.end - extent.base < LARGEST
      requires chunk in h.heads && p == Low(h, chunk) && next == chunk + SizeOf(h, chunk) && freed == next - p
      requires State() == h.(binned := if p != chunk && p != h.dv then h.binned - {p} else h.binned)
      requires p == h.dv ==> next == h.top || !Used(h, next)
      modifies this, bins, bins.large
      ensures Valid() && Owned() == InUse(h, old(extent)) - {chunk}
      ensures extent.base == old(extent.base) && extent.end == old(extent.end)
    {
      hide FB.FreeBins.Valid;
      hide HeapOk;
      hide InUse;
      hide Block;
      ghost var x := extent;
      UsedFacts(h, x, chunk);
      FreeBefore(h, x, chunk);
      IsBlock(h, x, chunk);
      NotBinned(h, x, chunk);
      KeptIs(h, x, chunk);
      hide Kept;
      hide Gone;
      var psize := freed;
      if !heads[next].cinuse {
        if next == top {
          GrowTop(p, psize, next, h, chunk);
          return;
        } else if next == dv {
          GrowDv(p, psize, next, h, chunk);
          return;
        }
        TakeNext(p, psize, next, h, chunk);
      } else {
        SetFreeWithPinuse(p, psize, next);
        assert State() == Outcome(h, x, chunk, ToBin).(binned := Kept(h, chunk));
        BinBlock(p, psize, h, chunk);
      }
    }

    /** The block takes in the binned chunk that follows. */
    method TakeNext(p: nat, freed: nat, next: nat, ghost h: Space, ghost chunk: nat)
      requires bins.Valid() && HeapOk(h, extent) && chunk in InUse(h, extent) && extent.end - extent.base < LARGEST
      requires chunk in h.heads && p == Low(h, chunk) && next == chunk + SizeOf(h, chunk) && freed == next - p
      requires State() == h.(binned := if p != chunk && p != h.dv then h.binned - {p} else h.binned)
      requires next != h.top && !Used(h, next) && next != h.dv
      modifies this, bins, bins.large
      ensures Valid() && Owned() == InUse(h, old(extent)) - {chunk}
      ensures extent.base == old(extent.base) && extent.end == old(extent.end)
    {
      hide FB.FreeBins.Valid;
      hide HeapOk;
      hide InUse;
      hide Block;
      ghost var x := extent;
      UsedFacts(h, x, chunk);
      FreeBefore(h, x, chunk);
      IsBlock(h, x, chunk);
      NotBinned(h, x, chunk);
      KeptIs(h, x, chunk);
      hide Kept;
      hide Gone;
      var nsize := heads[next].size;
      var psize := freed + nsize;
      bins.UnlinkChunk(next, nsize);
      SetSizeOfFree(p, psize);
      assert State() == Outcome(h, x, chunk, ToDv).(dv := h.dv, dvsize := h.dvsize);
      if p == dv {
        KeepDv(p, psize, h, chunk);
      } else {
        BinBlock(p, psize, h, chunk);
      }
    }

    /** The block began with the designated victim and stays it. */
    method KeepDv(p: nat, psize: nat, ghost h: Space, ghost chunk: nat)
      requires bins.Valid() && HeapOk(h, extent) && chunk in InUse(h, extent) && extent.end - extent.base < LARGEST
      requires chunk in h.heads && p == Low(h, chunk) && psize == High(h, extent, chunk) - p
      requires chunk + SizeOf(h, chunk) != h.top && h.dv == p
      requires State() == Outcome(h, extent, chunk, ToDv).(dv := h.dv, dvsize := h.dvsize)
      modifies this
      ensures Valid() && Owned() == InUse(h, old(extent)) - {chunk}
      ensures extent.base == old(extent.base) && extent.end == old(extent.end)
    {
      hide HeapOk;
      hide InUse;
      hide Block;
      ghost var x := extent;
      IsBlock(h, x, chunk);
      dvsize := psize;
      OutcomeOk(h, x, chunk, ToDv);
      assert State() == Outcome(h, x, chunk, ToDv);
      extent := Merged(x, Low(h, chunk), High(h, x, chunk), Gone(h, chunk));
    }

    /** The block goes to the bin of its size. */
    method BinBlock(p: nat, psize: nat, ghost h: Space, ghost chunk: nat)
      requires bins.Valid() && HeapOk(h, extent) && chunk in InUse(h, extent) && extent.end - extent.base < LARGEST
      requires chunk in h.heads && p == Low(h, chunk) && psize == High(h, extent, chunk) - p
      requires var next := chunk + SizeOf(h, chunk); next != h.top && h.dv != Low(h, chunk) && (Used(h, next) || h.dv != next)
      requires State() == Outcome(h, extent, chunk, ToBin).(binned := Kept(h, chunk))
      modifies this, bins, bins.large
      ensures Valid() && Owned() == InUse(h, old(extent)) - {chunk}
      ensures extent.base == old(extent.base) && extent.end == old(extent.end)
    {
      hide FB.FreeBins.Valid;
      hide HeapOk;
      hide InUse;
      hide Block;
      ghost var x := extent;
      IsBlock(h, x, chunk);
      NotBinned(h, x, chunk);
      KeptIs(h, x, chunk);
      LowKept(h, x, chunk);
      hide Kept;
      bins.InsertChunk(p, psize);
      OutcomeOk(h, x, chunk, ToBin);
      assert State() == Outcome(h, x, chunk, ToBin);
      extent := Merged(x, Low(h, chunk), High(h, x, chunk), Gone(h, chunk));
    }

    /** The block joins top. */
    method GrowTop(p: nat, psize: nat, next: nat, ghost h: Space, ghost chunk: nat)
      requires bins.Valid() && HeapOk(h, extent) && chunk in InUse(h, extent) && extent.end - extent.base < LARGEST
      requires chunk in h.heads && p == Low(h, chunk) && next == chunk + SizeOf(h, chunk) && psize == next - p
      requires State() == h.(binned := if p != chunk && p != h.dv then h.binned - {p} else h.binned)
      requires next == h.top
      modifies this
      ensures Valid() && Owned() == InUse(h, old(extent)) - {chunk}
      ensures extent.base == old(extent.base) && extent.end == old(extent.end)
    {
      hide FB.FreeBins.Valid;
      hide HeapOk;
      hide InUse;
      hide Block;
      ghost var x := extent;
      UsedFacts(h, x, chunk);
      FreeBefore(h, x, chunk);
      IsBlock(h, x, chunk);
      NotBinned(h, x, chunk);
      KeptIs(h, x, chunk);
      hide Kept;
      hide Gone;
      topsize := topsize + psize;
      top := p;
      heads := heads[p := Head(topsize, true, false)];
      if p == dv {
        dv, dvsize := 0, 0;
      }
      OutcomeOk(h, x, chunk, ToTop);
      assert State() == Outcome(h, x, chunk, ToTop);
      extent := Merged(x, Low(h, chunk), High(h, x, chunk), Gone(h, chunk));
    }

    /** The block joins the designated victim. */
    method GrowDv(p: nat, psize: nat, next: nat, ghost h: Space, ghost chunk: nat)
      requires bins.Valid() && HeapOk(h, extent) && chunk in InUse(h, extent) && extent.end - extent.base < LARGEST
      requires chunk in h.heads && p == Low(h, chunk) && next == chunk + SizeOf(h, chunk) && psize == next - p
      requires State() == h.(binned := if p != chunk && p != h.dv then h.binned - {p} else h.binned)
      requires next != h.top && !Used(h, next) && next == h.dv
      modifies this
      ensures Valid() && Owned() == InUse(h, old(extent)) - {chunk}
      ensures extent.base == old(extent.base) && extent.end == old(extent.end)
    {
      hide FB.FreeBins.Valid;
      hide HeapOk;
      hide InUse;
      hide Block;
      ghost var x := extent;
      UsedFacts(h, x, chunk);
      FreeBefore(h, x, chunk);
      IsBlock(h, x, chunk);
      NotBinned(h, x, chunk);
      KeptIs(h, x, chunk);
      hide Kept;
      hide Gone;
      dvsize := dvsize + psize;
      dv := p;
      SetSizeOfFree(p, dvsize);
      OutcomeOk(h, x, chunk, ToDv);
      assert State() == Outcome(h, x, chunk, ToDv);
      extent := Merged(x, Low(h, chunk), High(h, x, chunk), Gone(h, chunk));
    }

    /** `set_size_and_pinuse_of_free_chunk`. */
    method SetSizeOfFree(p: nat, s: nat)
      modifies this`heads, this`feet
      ensures heads == old(heads)[p := Head(s, true, false)] && feet == old(feet)[p + s := s]
    {
      heads := heads[p := Head(s, true, false)];
      feet := feet[p + s := s];
    }

    /** `set_free_with_pinuse`. */
    method SetFreeWithPinuse(p: nat, s: nat, n: nat)
      requires n in heads && n == p + s && s > 0
      modifies this`heads, this`feet
      ensures heads == old(heads)[n := old(heads)[n].(pinuse := false)][p := Head(s, true, false)] && feet == old(feet)[n := s]
    {
      heads := heads[n := heads[n].(pinuse := false)];
      heads := heads[p := Head(s, true, false)];
      feet := feet[p + s := s];
    }

    /** `set_inuse_and_pinuse`. */
    method SetInUse(p: nat, s: nat)
      requires p + s in heads && s > 0
      modifies this`heads
      ensures heads == old(heads)[p := Head(s, true, true)][p + s := old(heads)[p + s].(pinuse := true)]
    {
      heads := heads[p := Head(s, true, true)];
      heads := heads[p + s := heads[p + s].(pinuse := true)];
    }

    /** `replace_dv`: the old one, known to be small, goes to its bin. */
    method ReplaceDv(r: nat, s: nat)
      requires bins.Valid() && (dvsize != 0 ==> dv != 0 && dv !in bins.binned && FB.IsSmall(dvsize) && dvsize % 8 == 0)
      modifies this`dv, this`dvsize, bins
      ensures bins.Valid() && dv == r && dvsize == s
      ensures bins.binned == if old(dvsize) != 0 then old(bins.binned)[old(dv) := old(dvsize)] else old(bins.binned)
    {
      if dvsize != 0 {
        bins.InsertSmall(dv, dvsize);
      }
      dvsize := s;
      dv := r;
    }

    /** A chunk just unlinked from its bin is used whole. */
    method TakeWhole(p: nat, s: nat, nb: nat, ghost h: Space)
      requires bins.Valid() && HeapOk(h, extent) && extent.end - extent.base < LARGEST
      requires p in h.binned && h.binned[p] == s && State() == h.(binned := h.binned - {p})
      requires MIN_CHUNK_SIZE <= nb <= s < nb + MIN_CHUNK_SIZE && nb % 8 == 0
      modifies this
      ensures Valid() && Served(InUse(h, old(extent)), Owned(), p, nb)
      ensures extent == old(extent)
    {
      hide HeapOk;
      hide InUse;
      BinnedFacts(h, extent, p);
      SetInUse(p, s);
      CarvedOk(h, extent, p, s, nb, NoRest);
      assert State() == Carved(h, p, s, nb, NoRest);
    }

    /** A chunk just unlinked from its bin is used whole, or split with the rest as the new victim. */
    method TakeSmall(p: nat, s: nat, nb: nat, ghost h: Space)
      requires bins.Valid() && HeapOk(h, extent) && extent.end - extent.base < LARGEST
      requires p in h.binned && h.binned[p] == s && State() == h.(binned := h.binned - {p})
      requires MIN_CHUNK_SIZE <= nb <= s && nb % 8 == 0 && nb < MIN_LARGE_SIZE && h.dvsize < nb
      modifies this, bins
      ensures Valid() && Served(InUse(h, old(extent)), Owned(), p, nb)
      ensures extent.base == old(extent.base) && extent.end == old(extent.end)
    {
      hide FB.FreeBins.Valid;
      hide HeapOk;
      hide InUse;
      ghost var x := extent;
      BinnedFacts(h, x, p);
      DvFacts(h, x);
      if s - nb < MIN_CHUNK_SIZE {
        TakeWhole(p, s, nb, h);
      } else {
        heads := heads[p := Head(nb, true, true)];
        SetSizeOfFree(p + nb, s - nb);
        ReplaceDv(p + nb, s - nb);
        CarvedOk(h, x, p, s, nb, RestDv);
        assert State() == Carved(h, p, s, nb, RestDv);
        extent := CarvedExtent(x, p, s, nb, RestDv);
      }
    }

    /** The tail of `tmalloc_large`: the chunk is used whole, or split with the rest going to a bin. */
    method TakeLarge(p: nat, s: nat, nb: nat, ghost h: Space)
      requires bins.Valid() && HeapOk(h, extent) && extent.end - extent.base < LARGEST
      requires p in h.binned && h.binned[p] == s && State() == h.(binned := h.binned - {p})
      requires MIN_CHUNK_SIZE <= nb <= s && nb % 8 == 0
      modifies this, bins, bins.large
      ensures Valid() && Served(InUse(h, old(extent)), Owned(), p, nb)
      ensures extent.base == old(extent.base) && extent.end == old(extent.end)
    {
      hide HeapOk;
      hide InUse;
      if s - nb < MIN_CHUNK_SIZE {
        TakeWhole(p, s, nb, h);
      } else {
        TakeFront(p, s, nb, h);
      }
    }

    /** The chunk is split. */
    method TakeFront(p: nat, s: nat, nb: nat, ghost h: Space)
      requires bins.Valid() && HeapOk(h, extent) && extent.end - extent.base < LARGEST
      requires p in h.binned && h.binned[p] == s && State() == h.(binned := h.binned - {p})
      requires MIN_CHUNK_SIZE <= nb && nb + MIN_CHUNK_SIZE <= s && nb % 8 == 0
      modifies this, bins, bins.large
      ensures Valid() && Served(InUse(h, old(extent)), Owned(), p, nb)
      ensures extent.base == old(extent.base) && extent.end == old(extent.end)
    {
      hide HeapOk;
      hide InUse;
      hide Carved;
      hide FB.FreeBins.Valid;
      ghost var x := extent;
      BinnedFacts(h, x, p);
      heads := heads[p := Head(nb, true, true)];
      SetSizeOfFree(p + nb, s - nb);
      InsideFree(h, x, p, p + nb);
      bins.InsertChunk(p + nb, s - nb);
      CarvedOk(h, x, p, s, nb, RestBin);
      CarvedBin(h, p, s, nb);
      extent := CarvedExtent(x, p, s, nb, RestBin);
    }

    /** Serves a request from the designated victim. */
    method TakeDv(nb: nat) returns (p: nat)
      requires Valid() && MIN_CHUNK_SIZE <= nb <= dvsize && nb % 8 == 0
      modifies this
      ensures Valid() && p != 0 && p == old(dv) && Served(old(Owned()), Owned(), p, nb)
      ensures extent.base == old(extent.base) && extent.end == old(extent.end)
    {
      hide FB.FreeBins.Valid;
      hide HeapOk;
      hide InUse;
      ghost var h, x := State(), extent;
      DvFacts(h, x);
      var s := dvsize;
      var rsize := dvsize - nb;
      p := dv;
      if rsize >= MIN_CHUNK_SIZE {
        dv := p + nb;
        dvsize := rsize;
        SetSizeOfFree(p + nb, rsize);
        heads := heads[p := Head(nb, true, true)];
        CarvedOk(h, x, p, s, nb, RestDv);
        assert State() == Carved(h, p, s, nb, RestDv);
        extent := CarvedExtent(x, p, s, nb, RestDv);
      } else {
        dvsize := 0;
        dv := 0;
        SetInUse(p, s);
        CarvedOk(h, x, p, s, nb, NoRest);
        assert State() == Carved(h, p, s, nb, NoRest);
      }
    }

    /** Splits top. */
    method TakeTop(nb: nat) returns (p: nat)
      requires Valid() && MIN_CHUNK_SIZE <= nb < topsize && nb % 8 == 0
      modifies this
      ensures Valid() && p != 0 && p == old(top) && Served(old(Owned()), Owned(), p, nb)
      ensures extent.base == old(extent.base) && extent.end == old(extent.end)
    {
      hide FB.FreeBins.Valid;
      hide InUse;
      ghost var h, x := State(), extent;
      topsize := topsize - nb;
      p := top;
      top := p + nb;
      heads := heads[top := Head(topsize, true, false)];
      heads := heads[p := Head(nb, true, true)];
      CarvedOk(h, x, p, h.topsize, nb, RestTop);
      assert State() == Carved(h, p, h.topsize, nb, RestTop);
      extent := CarvedExtent(x, p, h.topsize, nb, RestTop);
    }

    /** The small-request half of `mspace_malloc`, short of the victim and top. */
    method MallocSmall(nb: nat) returns (p: nat)
      requires Valid() && MIN_CHUNK_SIZE <= nb < MIN_LARGE_SIZE && nb % 8 == 0
      modifies this, bins, bins.large
      ensures Valid() && extent.base == old(extent.base) && extent.end == old(extent.end)
      ensures p == 0 ==> State() == old(State()) && extent == old(extent) && NotFromBins(bins.binned, dvsize, nb)
      ensures p != 0 ==> Served(old(Owned()), Owned(), p, nb) && FromBins(old(bins.binned), old(dvsize), nb, p)
    {
      hide HeapOk;
      hide InUse;
      hide Served;
      hide Power;
      hide And;
      hide LeftBits;
      hide LowestBit;
      hide Pre;
      hide Bit;
      var idx := nb / 8;
      var smallbits := Pre(bins.smallmap, idx);
      SmallBits(bins.smallmap, idx);
      p := 0;
      if And(smallbits, 3) != 0 {
        idx := idx + (1 - smallbits % 2);
        SmallestSmall(bins.smallbins, bins.smallmap, bins.large.chunks, bins.binned, nb, idx);
        p := FirstSmall(idx, nb);
      } else if nb > dvsize {
        if smallbits != 0 {
          NextSmall(bins.smallmap, idx);
          MarksInside(bins.smallbins, bins.smallmap, bins.large.chunks, bins.binned);
          var i := LowestBit(And(smallbits * Power(idx), LeftBits(idx)));
          SmallestSmall(bins.smallbins, bins.smallmap, bins.large.chunks, bins.binned, nb, i);
          p := SplitSmall(i, nb);
        } else if bins.large.treemap != 0 {
          p := MallocFromTree(nb);
        } else {
          NoneBinned(bins.smallbins, bins.smallmap, bins.large, bins.binned, nb);
        }
      } else {
        SmallLeft(bins.smallbins, bins.smallmap, bins.large.chunks, bins.binned, dvsize, nb);
      }
    }

    /** A remainderless fit: the first chunk of a small bin is used whole. */
    method FirstSmall(i: nat, nb: nat) returns (p: nat)
      requires Valid() && Bit(bins.smallmap, i) && MIN_CHUNK_SIZE <= nb <= 8 * i < nb + MIN_CHUNK_SIZE && nb % 8 == 0
      modifies this, bins
      ensures Valid() && extent == old(extent) && p != 0 && Served(old(Owned()), Owned(), p, nb)
      ensures i < |old(bins.smallbins)| && old(bins.smallbins)[i] != [] && p == old(bins.smallbins)[i][0]
    {
      hide HeapOk;
      hide InUse;
      hide Served;
      ghost var h := State();
      FB.FirstOf(bins.smallbins, bins.smallmap, bins.large.chunks, bins.binned, i);
      FB.HeaderOf(bins.smallbins, bins.links, i);
      p := bins.links[i].head.value;
      BinnedFacts(h, extent, p);
      bins.UnlinkSmall(p, i, 0);
      TakeWhole(p, 8 * i, nb, h);
    }

    /** The first chunk of a larger small bin is split. */
    method SplitSmall(i: nat, nb: nat) returns (p: nat)
      requires Valid() && Bit(bins.smallmap, i) && MIN_CHUNK_SIZE <= nb <= 8 * i && nb % 8 == 0 && nb < MIN_LARGE_SIZE && dvsize < nb
      modifies this, bins
      ensures Valid() && extent.base == old(extent.base) && extent.end == old(extent.end)
      ensures p != 0 && Served(old(Owned()), Owned(), p, nb)
      ensures i < |old(bins.smallbins)| && old(bins.smallbins)[i] != [] && p == old(bins.smallbins)[i][0]
    {
      hide HeapOk;
      hide InUse;
      hide Served;
      ghost var h := State();
      FB.FirstOf(bins.smallbins, bins.smallmap, bins.large.chunks, bins.binned, i);
      FB.HeaderOf(bins.smallbins, bins.links, i);
      p := bins.links[i].head.value;
      BinnedFacts(h, extent, p);
      bins.UnlinkSmall(p, i, 0);
      TakeSmall(p, 8 * i, nb, h);
    }

    /** `tmalloc_small`. */
    method MallocFromTree(nb: nat) returns (p: nat)
      requires Valid() && MIN_CHUNK_SIZE <= nb < MIN_LARGE_SIZE && nb % 8 == 0 && dvsize < nb && bins.large.treemap != 0
      requires Pre(bins.smallmap, nb / 8) == 0
      modifies this, bins, bins.large
      ensures Valid() && extent.base == old(extent.base) && extent.end == old(extent.end)
      ensures p != 0 && Served(old(Owned()), Owned(), p, nb) && Smallest(old(bins.binned), p, nb)
    {
      hide HeapOk;
      hide InUse;
      hide Served;
      ghost var h := State();
      var lb := bins.large;
      LB.MapZero(lb.chunks, lb.at, lb.rings, lb.treebins, lb.treemap);
      var rsize;
      p, rsize := lb.FindSmall(nb);
      SmallestTree(bins.smallbins, bins.smallmap, lb, bins.binned, nb, p, rsize);
      hide Smallest;
      assert FB.PlacedOk(bins.smallbins, lb.chunks, bins.binned, p);
      bins.UnlinkLarge(p);
      TakeSmall(p, rsize + nb, nb, h);
    }

    /** `tmalloc_large`: unless the victim fits better. */
    method MallocLarge(nb: nat) returns (p: nat)
      requires Valid() && MIN_LARGE_SIZE <= nb < WORD && nb % 8 == 0
      modifies this, bins, bins.large
      ensures Valid() && extent.base == old(extent.base) && extent.end == old(extent.end)
      ensures p == 0 ==> State() == old(State()) && extent == old(extent) && NotFromBins(bins.binned, dvsize, nb)
      ensures p != 0 ==> Served(old(Owned()), Owned(), p, nb) && FromBins(old(bins.binned), old(dvsize), nb, p)
    {
      hide HeapOk;
      hide InUse;
      hide Served;
      ghost var h := State();
      var lb := bins.large;
      var v, rsize := lb.FindLarge(nb);
      SizesSmall(h, extent);
      p := 0;
      if v != 0 && rsize < TS.Minus(dvsize, nb) {
        p := v;
        SmallestTree(bins.smallbins, bins.smallmap, lb, bins.binned, nb, p, rsize);
        hide Smallest;
        assert FB.PlacedOk(bins.smallbins, lb.chunks, bins.binned, p);
        bins.UnlinkLarge(p);
        TakeLarge(p, rsize + nb, nb, h);
      } else {
        NotServed(bins.smallbins, bins.smallmap, lb, bins.binned, nb, v, rsize, dvsize);
      }
    }

    /** `mspace_malloc`; 0 when only more memory from the system could help. */
    method Malloc(bytes: nat) returns (p: nat)
      requires Valid() && bytes < WORD
      modifies this, bins, bins.large
      ensures Valid() && extent.base == old(extent.base) && extent.end == old(extent.end)
      ensures p == 0 ==> Owned() == old(Owned()) && NoRoom(old(State()), ChunkFor(bytes))
      ensures p != 0 ==> Served(old(Owned()), Owned(), p, ChunkFor(bytes)) && Chosen(old(State()), ChunkFor(bytes), p)
      ensures p != 0 && bytes < MAX_REQUEST ==> p in Owned() && bytes + 8 <= Owned()[p]
    {
      hide HeapOk;
      hide InUse;
      hide Served;
      ChunkForOk(bytes);
      SizesSmall(State(), extent);
      var nb := ChunkFor(bytes);
      p := 0;
      if bytes <= MAX_SMALL_REQUEST {
        p := MallocSmall(nb);
      } else if bytes < MAX_REQUEST && bins.large.treemap != 0 {
        p := MallocLarge(nb);
      } else {
        NoneLarge(bins.smallbins, bins.smallmap, bins.large, bins.binned, nb);
      }
      if p == 0 {
        if nb <= dvsize {
          p := TakeDv(nb);
        } else if nb < topsize {
          p := TakeTop(nb);
        }
      }
      ServedHolds(old(Owned()), Owned(), p, nb);
    }
  }
}
