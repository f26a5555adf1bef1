/**
 All the bins of an allocator state: lists for small chunks, one size each, and the tree bins.
 */
module FreeBins {
  import opened Options
  import opened Sequences
  import opened SizeIndex
  import opened Bitmaps
  import opened TreeBins
  import opened BinEdits
  import L = Links
  import LB = LargeBins

  const NSMALLBINS := 32

  predicate IsSmall(s: nat) {
    s / 8 < NSMALLBINS
  }

  function SmallIndex(s: nat): nat {
    s / 8
  }

  /** A small bin is marked when it is not empty, and holds chunks of exactly its size. */
  ghost predicate SmallOk(bins: seq<seq<nat>>, smallmap: nat, binned: map<nat, nat>, i: nat) {
    i < NSMALLBINS ==>
      && i < |bins| && (Bit(smallmap, i) <==> bins[i] != []) && Distinct(bins[i])
      && forall a :: a in bins[i] ==> a in binned && binned[a] == 8 * i
  }

  /** Every binned chunk is in the bin of its size. */
  ghost predicate PlacedOk(bins: seq<seq<nat>>, chunks: Chunks, binned: map<nat, nat>, a: nat) {
    && (a in binned ==> a != 0 && if IsSmall(binned[a]) then SmallIndex(binned[a]) < |bins| && a in bins[SmallIndex(binned[a])] else a in chunks)
    && (a in chunks ==> a in binned && binned[a] == chunks[a].size)
  }

  ghost predicate BinsAgree(bins: seq<seq<nat>>, smallmap: nat, chunks: Chunks, binned: map<nat, nat>) {
    && |bins| == NSMALLBINS
    && (forall i {:trigger SmallOk(bins, smallmap, binned, i)} :: SmallOk(bins, smallmap, binned, i))
    && (forall a {:trigger PlacedOk(bins, chunks, binned, a)} :: PlacedOk(bins, chunks, binned, a))
    && (forall a :: a in chunks ==> chunks[a].size >= MIN_LARGE_SIZE)
    && (forall i :: i >= NSMALLBINS ==> !Bit(smallmap, i))
  }

  /** The pointers of every bin in use form the list of its chunks; those of an empty one are left over. */
  ghost predicate RingsOk(bins: seq<seq<nat>>, links: seq<L.Chain<nat>>) {
    |bins| == |links| == NSMALLBINS && forall i :: 0 <= i < NSMALLBINS && bins[i] != [] ==> L.Linked(bins[i], links[i])
  }

  /** What a bin's pointers amount to when a chunk is linked in: an unmarked bin starts afresh. */
  function Started(c: L.Chain<nat>, marked: bool): L.Chain<nat> {
    if marked then c else L.Chain(c.next, c.prev, None, None)
  }

  lemma RingAdded(bins: seq<seq<nat>>, links: seq<L.Chain<nat>>, i: nat, p: nat, marked: bool)
    requires RingsOk(bins, links) && i < NSMALLBINS && p !in bins[i] && (marked <==> bins[i] != [])
    ensures |links| == NSMALLBINS && RingsOk(bins[i := L.PutIn(bins[i], 0, p)], links[i := L.SplicedIn(Started(links[i], marked), None, p)])
  {
    assert marked ==> L.Linked(bins[i], links[i]);
    L.SplicedInOk(bins[i], Started(links[i], marked), 0, p);
  }

  /** Linking a chunk out; the last one leaves the pointers as they are. */
  lemma RingRemoved(bins: seq<seq<nat>>, links: seq<L.Chain<nat>>, i: nat, k: nat)
    requires RingsOk(bins, links) && i < NSMALLBINS && k < |bins[i]|
    ensures |links| == NSMALLBINS
    ensures var c, p := links[i], bins[i][k];
            && p in c.next && p in c.prev && (c.next[p] == c.prev[p] <==> |bins[i]| == 1)
            && RingsOk(bins[i := L.TakenOut(bins[i], k)], if |bins[i]| == 1 then links else links[i := L.SplicedOut(c, p)])
  {
    assert L.Linked(bins[i], links[i]);
    L.AloneTest(bins[i], links[i], k);
    L.SplicedOutOk(bins[i], links[i], k);
  }

  /** A small chunk linked in at the front of its bin. */
  lemma SmallAdded(bins: seq<seq<nat>>, smallmap: nat, chunks: Chunks, binned: map<nat, nat>, p: nat, s: nat)
    requires BinsAgree(bins, smallmap, chunks, binned) && p !in binned && p != 0 && IsSmall(s) && s % 8 == 0
    ensures var i := SmallIndex(s);
            BinsAgree(bins[i := L.PutIn(bins[i], 0, p)], SetBit(smallmap, i, true), chunks, binned[p := s])
  {
    var i := SmallIndex(s);
    var bins', map', binned' := bins[i := L.PutIn(bins[i], 0, p)], SetBit(smallmap, i, true), binned[p := s];
    forall j: nat | j >= NSMALLBINS ensures !Bit(map', j) {
      SetBitAt(smallmap, i, true, j);
    }
    forall j: nat ensures SmallOk(bins', map', binned', j) {
      assert SmallOk(bins, smallmap, binned, j);
      SetBitAt(smallmap, i, true, j);
    }
    forall a ensures PlacedOk(bins', chunks, binned', a) {
      assert PlacedOk(bins, chunks, binned, a);
      if a == p {
        assert bins'[i][0] == p;
      }
    }
  }

  /** A small chunk linked out; the bin is unmarked when it was the last. */
  lemma SmallRemoved(bins: seq<seq<nat>>, smallmap: nat, chunks: Chunks, binned: map<nat, nat>, i: nat, k: nat)
    requires BinsAgree(bins, smallmap, chunks, binned) && i < NSMALLBINS && k < |bins[i]|
    ensures var l := L.TakenOut(bins[i], k);
            BinsAgree(bins[i := l], if l == [] then SetBit(smallmap, i, false) else smallmap, chunks, binned - {bins[i][k]})
  {
    var p, l := bins[i][k], L.TakenOut(bins[i], k);
    var bins', map', binned' := bins[i := l], if l == [] then SetBit(smallmap, i, false) else smallmap, binned - {p};
    assert SmallOk(bins, smallmap, binned, i);
    L.TakenOutMembers(bins[i], k);
    assert PlacedOk(bins, chunks, binned, p);
    forall j: nat | j >= NSMALLBINS ensures !Bit(map', j) {
      SetBitAt(smallmap, i, false, j);
    }
    forall j: nat ensures SmallOk(bins', map', binned', j) {
      assert SmallOk(bins, smallmap, binned, j);
      SetBitAt(smallmap, i, false, j);
      assert j != i && j < NSMALLBINS ==> p !in bins[j];
    }
    forall a ensures PlacedOk(bins', chunks, binned', a) {
      assert PlacedOk(bins, chunks, binned, a);
      if a in binned && IsSmall(binned[a]) {
        assert SmallOk(bins, smallmap, binned, SmallIndex(binned[a]));
      }
    }
  }

  lemma LargeAdded(bins: seq<seq<nat>>, smallmap: nat, chunks: Chunks, chunks': Chunks, binned: map<nat, nat>, p: nat, s: nat)
    requires BinsAgree(bins, smallmap, chunks, binned) && p !in binned && p != 0 && s >= MIN_LARGE_SIZE
    requires LB.Added(chunks, chunks', p, s)
    ensures BinsAgree(bins, smallmap, chunks', binned[p := s])
  {
    var binned' := binned[p := s];
    forall j ensures SmallOk(bins, smallmap, binned', j) {
      assert SmallOk(bins, smallmap, binned, j);
    }
    forall a ensures PlacedOk(bins, chunks', binned', a) {
      assert PlacedOk(bins, chunks, binned, a);
    }
  }

  lemma LargeRemoved(bins: seq<seq<nat>>, smallmap: nat, chunks: Chunks, chunks': Chunks, binned: map<nat, nat>, p: nat)
    requires BinsAgree(bins, smallmap, chunks, binned) && p in chunks && Removed(chunks, chunks', p)
    ensures BinsAgree(bins, smallmap, chunks', binned - {p})
  {
    var binned' := binned - {p};
    assert PlacedOk(bins, chunks, binned, p);
    forall j ensures SmallOk(bins, smallmap, binned', j) {
      assert SmallOk(bins, smallmap, binned, j);
    }
    forall a ensures PlacedOk(bins, chunks', binned', a) {
      assert PlacedOk(bins, chunks, binned, a);
    }
  }

  class FreeBins {
    var links: seq<L.Chain<nat>>     // the pointers of each small bin, with none for the bin's own header
    var smallmap: nat
    const large: LB.LargeBins
    ghost var smallbins: seq<seq<nat>>  // the chunks of each small bin, in the order of its links
    ghost var binned: map<nat, nat>     // the size of every chunk in a bin

    ghost predicate Valid()
      reads this, large
    {
      large.Valid() && BinsAgree(smallbins, smallmap, large.chunks, binned) && RingsOk(smallbins, links)
    }

    constructor ()
      ensures Valid() && binned == map[] && fresh(large)
    {
      links := seq(NSMALLBINS, _ => L.Chain(map[], map[], None, None));
      smallbins, smallmap, binned := seq(NSMALLBINS, _ => []), 0, map[];
      large := new LB.LargeBins();
      new;
      forall i: nat ensures SmallOk(smallbins, smallmap, binned, i) && !Bit(smallmap, i) {
        ZeroBit(i);
      }
    }

    /** `insert_chunk`. */
    method InsertChunk(p: nat, s: nat)
      requires Valid() && p !in binned && p != 0 && s % 8 == 0 && s < LARGEST
      modifies this, large
      ensures Valid() && binned == old(binned)[p := s]
    {
      if IsSmall(s) {
        InsertSmall(p, s);
      } else {
        NotThere(smallbins, smallmap, large.chunks, binned, p);
        large.Insert(p, s);
        LargeAdded(smallbins, smallmap, old(large.chunks), large.chunks, binned, p, s);
        binned := binned[p := s];
      }
    }

    /** `insert_small_chunk`. */
    method InsertSmall(p: nat, s: nat)
      requires Valid() && p !in binned && p != 0 && IsSmall(s) && s % 8 == 0
      modifies this
      ensures Valid() && binned == old(binned)[p := s]
      ensures smallbins == old(smallbins[SmallIndex(s) := L.PutIn(smallbins[SmallIndex(s)], 0, p)])
    {
      hide RingsOk;
      var i := SmallIndex(s);
      assert SmallOk(smallbins, smallmap, binned, i);
      SmallAdded(smallbins, smallmap, large.chunks, binned, p, s);
      RingAdded(smallbins, links, i, p, Bit(smallmap, i));
      LinkFirst(i, p, Bit(smallmap, i));
      smallmap := SetBit(smallmap, i, true);
      smallbins := smallbins[i := L.PutIn(smallbins[i], 0, p)];
      binned := binned[p := s];
    }

    /** The pointer writes of an insertion: first in its bin, before the bin's first chunk if it has one. */
    method LinkFirst(i: nat, p: nat, marked: bool)
      requires i < |links|
      modifies this`links
      ensures links == old(links)[i := L.SplicedIn(Started(old(links)[i], marked), None, p)]
    {
      var next, prev, head, tail := links[i].next, links[i].prev, links[i].head, links[i].tail;
      var f := if marked then head else None;
      head := Some(p);
      prev := prev[p := None];
      if f.Some? {
        prev := prev[f.value := Some(p)];
      } else {
        tail := Some(p);
      }
      next := next[p := f];
      links := links[i := L.Chain(next, prev, head, tail)];
    }

    /** `unlink_chunk`. */
    method UnlinkChunk(p: nat, s: nat)
      requires Valid() && p in binned && binned[p] == s
      modifies this, large
      ensures Valid() && binned == old(binned) - {p}
    {
      assert PlacedOk(smallbins, large.chunks, binned, p);
      if IsSmall(s) {
        UnlinkSmall(p, SmallIndex(s), IndexOf(smallbins[SmallIndex(s)], p));
      } else {
        UnlinkLarge(p);
      }
    }

    /** `unlink_large_chunk`. */
    method UnlinkLarge(p: nat)
      requires Valid() && p in large.chunks
      modifies this, large
      ensures Valid() && binned == old(binned) - {p}
    {
      large.Unlink(p);
      LargeRemoved(smallbins, smallmap, old(large.chunks), large.chunks, binned, p);
      binned := binned - {p};
    }

    /** `unlink_small_chunk` and, for the first chunk, `unlink_first_small_chunk`. */
    method UnlinkSmall(p: nat, i: nat, ghost k: nat)
      requires Valid() && i < NSMALLBINS && k < |smallbins[i]| && p == smallbins[i][k]
      modifies this
      ensures Valid() && binned == old(binned) - {p}
      ensures smallbins == old(smallbins[i := L.TakenOut(smallbins[i], k)])
    {
      hide RingsOk;
      SmallRemoved(smallbins, smallmap, large.chunks, binned, i, k);
      RingRemoved(smallbins, links, i, k);
      var f, b := links[i].next[p], links[i].prev[p];
      if b == f {
        smallmap := SetBit(smallmap, i, false);
      } else {
        LinkOut(i, p, f, b);
      }
      smallbins := smallbins[i := L.TakenOut(smallbins[i], k)];
      binned := binned - {p};
    }

    /** The pointer writes of a removal between `b` and `f`. */
    method LinkOut(i: nat, p: nat, f: Option<nat>, b: Option<nat>)
      requires i < |links| && p in links[i].next && p in links[i].prev && f == links[i].next[p] && b == links[i].prev[p]
      modifies this`links
      ensures links == old(links)[i := L.SplicedOut(old(links)[i], p)]
    {
      var next, prev, head, tail := links[i].next, links[i].prev, links[i].head, links[i].tail;
      if f.Some? {
        prev := prev[f.value := b];
      } else {
        tail := b;
      }
      if b.Some? {
        next := next[b.value := f];
      } else {
        head := f;
      }
      links := links[i := L.Chain(next - {p}, prev - {p}, head, tail)];
    }
  }

  /** The first chunk of a marked small bin has the bin's size. */
  lemma FirstOf(bins: seq<seq<nat>>, smallmap: nat, chunks: Chunks, binned: map<nat, nat>, i: nat)
    requires BinsAgree(bins, smallmap, chunks, binned) && Bit(smallmap, i)
    ensures i < NSMALLBINS && bins[i] != [] && bins[i][0] in binned && binned[bins[i][0]] == 8 * i
  {
    assert SmallOk(bins, smallmap, binned, i);
  }

  /** The header of a bin in use points to its first chunk. */
  lemma HeaderOf(bins: seq<seq<nat>>, links: seq<L.Chain<nat>>, i: nat)
    requires RingsOk(bins, links) && i < NSMALLBINS && bins[i] != []
    ensures links[i].head == Some(bins[i][0])
  {
    assert L.Linked(bins[i], links[i]);
  }

  /** A binned chunk's small bin is marked, or it is in the tree bins. */
  lemma MarkedOf(bins: seq<seq<nat>>, smallmap: nat, chunks: Chunks, binned: map<nat, nat>, a: nat)
    requires BinsAgree(bins, smallmap, chunks, binned) && a in binned
    ensures IsSmall(binned[a]) ==> Bit(smallmap, SmallIndex(binned[a])) && binned[a] == 8 * SmallIndex(binned[a])
    ensures !IsSmall(binned[a]) ==> a in chunks && chunks[a].size == binned[a]
  {
    assert PlacedOk(bins, chunks, binned, a);
    assert SmallOk(bins, smallmap, binned, SmallIndex(binned[a]));
  }

  lemma NotThere(bins: seq<seq<nat>>, smallmap: nat, chunks: Chunks, binned: map<nat, nat>, p: nat)
    requires BinsAgree(bins, smallmap, chunks, binned) && p !in binned
    ensures p !in chunks
  {
    assert PlacedOk(bins, chunks, binned, p);
  }
}
