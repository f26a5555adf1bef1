/**
 Best-fit search through the tree bins: why looking at one path and one leftmost path finds the
 smallest chunk that is large enough.
 */
module TreeSearch {
  import opened Options
  import opened SizeIndex
  import opened TreeBins

  /** Sizes are large, and each chunk is in the bin of its size. */
  ghost predicate SizesOk(cs: Chunks) {
    forall a :: a in cs ==>
      a != 0 && MIN_LARGE_SIZE <= cs[a].size < LARGEST && cs[a].index == TreeIndex(cs[a].size) < NTREEBINS
      && InBin(cs[a].size, cs[a].index)
  }

  function SizeAt(cs: Chunks, at: Places, q: Place): nat {
    if q in at && at[q] in cs then cs[at[q]].size else 0
  }

  /** `q` is in the subtree whose root is at `p`. */
  ghost predicate InTree(cs: Chunks, at: Places, p: Place, q: Place) {
    q in at && q.bin == p.bin && q.width <= p.width && Pre(SizeAt(cs, at, q), p.width) == p.prefix
  }

  /** Unsigned 64-bit subtraction. */
  function Minus(a: nat, b: nat): nat
    requires a < WORD && b < WORD
  {
    if a >= b then a - b else a + WORD - b
  }

  /** Starting from the wrapped-around `-nb`, the comparison lets exactly the large enough sizes through. */
  lemma WrapTest(size: nat, nb: nat, rsize: nat)
    requires size < WORD && nb < WORD && rsize <= WORD - nb
    ensures Minus(size, nb) < rsize <==> size >= nb && size - nb < rsize
  {
  }

  // ----- the walk down the bin of the requested size -----

  /** Places at or after the subtree at `r` in size order. */
  ghost predicate FromOn(cs: Chunks, at: Places, r: Place, q: Place) {
    Pre(SizeAt(cs, at, q), r.width) > r.prefix || InTree(cs, at, r, q)
  }

  ghost predicate Seen(cs: Chunks, at: Places, nb: nat, rsize: nat, q: Place) {
    SizeAt(cs, at, q) >= nb + rsize
  }

  /** What the walk may still find: everything else of bin `idx` is too small or no better. */
  ghost predicate Open(cs: Chunks, at: Places, idx: nat, nb: nat, rsize: nat, p: Option<Place>, rst: Option<Place>, q: Place) {
    q in at && q.bin == idx && SizeAt(cs, at, q) >= nb ==>
      || Seen(cs, at, nb, rsize, q)
      || (p.Some? && InTree(cs, at, p.value, q))
      || (rst.Some? && FromOn(cs, at, rst.value, q))
  }

  ghost predicate Walking(cs: Chunks, at: Places, idx: nat, nb: nat, rsize: nat, p: Option<Place>, rst: Option<Place>) {
    && (p.Some? ==> p.value in at && p.value == On(idx, nb, p.value.width))
    && (rst.Some? ==> rst.value in at && rst.value.bin == idx && rst.value.prefix == Pre(nb, rst.value.width) + 1)
    && (p.Some? && rst.Some? ==> rst.value.width >= p.value.width)
    && forall q {:trigger Open(cs, at, idx, nb, rsize, p, rst, q)} :: Open(cs, at, idx, nb, rsize, p, rst, q)
  }

  lemma WalkStart(cs: Chunks, at: Places, idx: nat, nb: nat)
    requires TreesOk(cs, at) && Root(idx) in at && RootPrefix(idx) == Pre(nb, RootWidth(idx)) && nb < WORD
    ensures Walking(cs, at, idx, nb, WORD - nb, Some(Root(idx)), None)
  {
    var rsize := WORD - nb;
    forall q ensures Open(cs, at, idx, nb, rsize, Some(Root(idx)), None, q) {
      if q in at && q.bin == idx {
        RootThere(cs, at, q);
        assert PlaceOk(cs, at, q);
      }
    }
  }

  /** Below a place, everything but the place itself is below one of its two children. */
  lemma Split(cs: Chunks, at: Places, p: Place, q: Place)
    requires TreesOk(cs, at) && p in at && InTree(cs, at, p, q) && q != p
    ensures p.width > 0
    ensures (InTree(cs, at, Below(p, 0), q) && Kid(at, p, 0) != 0) || (InTree(cs, at, Below(p, 1), q) && Kid(at, p, 1) != 0)
  {
    assert PlaceOk(cs, at, p) && PlaceOk(cs, at, q);
    WayThere(cs, at, q, q.width);
    var s := SizeAt(cs, at, q);
    assert q.width < p.width;
    PreNext(s, p.width - 1);
    WayThere(cs, at, q, p.width - 1);
    var b := Pre(s, p.width - 1) % 2;
    assert On(q.bin, s, p.width - 1) == Below(p, b);
    assert PlaceOk(cs, at, Below(p, b));
  }

  function Taken(at: Places, nb: nat, p: Place): Option<Place> {
    if p.width > 0 && Kid(at, p, Pre(nb, p.width - 1) % 2) != 0 then Some(Below(p, Pre(nb, p.width - 1) % 2)) else None
  }

  /** The untaken right subtree, when there is one, is the deepest so far. */
  function Untaken(at: Places, nb: nat, p: Place, rst: Option<Place>): Option<Place> {
    if p.width > 0 && Kid(at, p, 1) != 0 && Pre(nb, p.width - 1) % 2 == 0 then Some(Below(p, 1)) else rst
  }

  lemma WalkStep(cs: Chunks, at: Places, idx: nat, nb: nat, rsize: nat, p: Place, rst: Option<Place>)
    requires TreesOk(cs, at) && Walking(cs, at, idx, nb, rsize, Some(p), rst)
    requires SizeAt(cs, at, p) >= nb ==> Seen(cs, at, nb, rsize, p)
    ensures Walking(cs, at, idx, nb, rsize, Taken(at, nb, p), Untaken(at, nb, p, rst))
  {
    assert PlaceOk(cs, at, p);
    if p.width > 0 {
      PreNext(nb, p.width - 1);
    }
    forall q ensures Open(cs, at, idx, nb, rsize, Taken(at, nb, p), Untaken(at, nb, p, rst), q) {
      assert Open(cs, at, idx, nb, rsize, Some(p), rst, q);
      if q in at && q.bin == idx && SizeAt(cs, at, q) >= nb && !Seen(cs, at, nb, rsize, q) {
        if InTree(cs, at, p, q) {
          StepBelow(cs, at, nb, p, q);
        } else {
          StepBeyond(cs, at, nb, p, rst.value, q);
        }
      }
    }
  }

  lemma StepBelow(cs: Chunks, at: Places, nb: nat, p: Place, q: Place)
    requires TreesOk(cs, at) && p in at && p == On(p.bin, nb, p.width) && InTree(cs, at, p, q) && q != p && SizeAt(cs, at, q) >= nb
    ensures p.width > 0
    ensures var b := Pre(nb, p.width - 1) % 2;
            || (Kid(at, p, b) != 0 && InTree(cs, at, Below(p, b), q))
            || (b == 0 && Kid(at, p, 1) != 0 && InTree(cs, at, Below(p, 1), q))
  {
    Split(cs, at, p, q);
    PreNext(nb, p.width - 1);
    PreMono(nb, SizeAt(cs, at, q), p.width - 1);
  }

  lemma StepBeyond(cs: Chunks, at: Places, nb: nat, p: Place, r: Place, q: Place)
    requires p == On(p.bin, nb, p.width) && r.width >= p.width && r.prefix == Pre(nb, r.width) + 1 && FromOn(cs, at, r, q)
    ensures p.width > 0 ==> Pre(SizeAt(cs, at, q), p.width - 1) > 2 * p.prefix + 1
  {
    var s := SizeAt(cs, at, q);
    if p.width > 0 && Pre(s, p.width - 1) <= 2 * p.prefix + 1 {
      PreNext(s, p.width - 1);
      assert Pre(s, p.width) <= Pre(nb, p.width);
      PreMono(Pre(s, p.width), Pre(nb, p.width), r.width - p.width);
      PreAdd(s, p.width, r.width - p.width);
      PreAdd(nb, p.width, r.width - p.width);
    }
  }

  // ----- the walk along first children -----

  ghost predicate Left(cs: Chunks, at: Places, nb: nat, rsize: nat, p: Option<Place>, q: Place) {
    q in at && SizeAt(cs, at, q) >= nb ==>
      || Seen(cs, at, nb, rsize, q)
      || (p.Some? && (InTree(cs, at, p.value, q) || SizeAt(cs, at, q) >= SizeAt(cs, at, p.value)))
  }

  ghost predicate Enough(cs: Chunks, at: Places, nb: nat, p: Place, q: Place) {
    InTree(cs, at, p, q) ==> SizeAt(cs, at, q) >= nb
  }

  /** Of all bins, only the subtree at `p`, and what is no smaller than its root, can hold a better fit. */
  ghost predicate Leftmost(cs: Chunks, at: Places, nb: nat, rsize: nat, p: Option<Place>) {
    && (p.Some? ==> p.value in at)
    && (p.Some? && rsize > 0 && nb < LARGEST ==> forall q {:trigger Enough(cs, at, nb, p.value, q)} :: Enough(cs, at, nb, p.value, q))
    && forall q {:trigger Left(cs, at, nb, rsize, p, q)} :: Left(cs, at, nb, rsize, p, q)
  }

  /** `leftmost_child`. */
  function FirstKid(at: Places, p: Place): Option<Place> {
    if Kid(at, p, 0) != 0 then Some(Below(p, 0)) else if Kid(at, p, 1) != 0 then Some(Below(p, 1)) else None
  }

  /** A request too large for any chunk leaves nothing to look for. */
  lemma NoneFits(cs: Chunks, at: Places, nb: nat, rsize: nat, p: Option<Place>)
    requires TreesOk(cs, at) && SizesOk(cs) && nb >= LARGEST && (p.Some? ==> p.value in at)
    ensures Leftmost(cs, at, nb, rsize, p)
  {
    forall q ensures Left(cs, at, nb, rsize, p, q) {
      assert PlaceOk(cs, at, q);
    }
  }

  lemma LeftmostStep(cs: Chunks, at: Places, nb: nat, was: nat, rsize: nat, p: Place)
    requires TreesOk(cs, at) && SizesOk(cs) && Leftmost(cs, at, nb, was, Some(p)) && rsize <= was
    requires SizeAt(cs, at, p) >= nb ==> Seen(cs, at, nb, rsize, p)
    ensures Leftmost(cs, at, nb, rsize, FirstKid(at, p))
  {
    assert PlaceOk(cs, at, p);
    WayThere(cs, at, p, p.width);
    var k := FirstKid(at, p);
    if nb >= LARGEST {
      if k.Some? {
        FirstKidThere(cs, at, p);
      }
      NoneFits(cs, at, nb, rsize, k);
      return;
    }
    forall q ensures Left(cs, at, nb, rsize, k, q) {
      assert Left(cs, at, nb, was, Some(p), q);
      if was > 0 {
        assert Enough(cs, at, nb, p, p);
      }
      if q in at && InTree(cs, at, p, q) && q != p {
        FirstIsLeast(cs, at, p, q);
      }
    }
    if k.Some? && rsize > 0 {
      forall q ensures Enough(cs, at, nb, k.value, q) {
        assert Enough(cs, at, nb, p, q);
        if InTree(cs, at, k.value, q) {
          SubtreeOf(cs, at, p, k.value, q);
        }
      }
    }
  }

  lemma FirstKidThere(cs: Chunks, at: Places, p: Place)
    requires TreesOk(cs, at) && p in at && FirstKid(at, p).Some?
    ensures FirstKid(at, p).value in at
  {
    assert PlaceOk(cs, at, p);
  }

  lemma SubtreeOf(cs: Chunks, at: Places, p: Place, k: Place, q: Place)
    requires p.width > 0 && (k == Below(p, 0) || k == Below(p, 1)) && InTree(cs, at, k, q)
    ensures InTree(cs, at, p, q)
  {
    PreNext(SizeAt(cs, at, q), p.width - 1);
  }

  /** Everything else below `p` is below the first child, or larger than it. */
  lemma FirstIsLeast(cs: Chunks, at: Places, p: Place, q: Place)
    requires TreesOk(cs, at) && p in at && InTree(cs, at, p, q) && q != p
    ensures FirstKid(at, p).Some?
    ensures InTree(cs, at, FirstKid(at, p).value, q) || SizeAt(cs, at, q) >= SizeAt(cs, at, FirstKid(at, p).value)
  {
    Split(cs, at, p, q);
    var k := FirstKid(at, p).value;
    if k == Below(p, 0) && InTree(cs, at, Below(p, 1), q) {
      assert PlaceOk(cs, at, k);
      if SizeAt(cs, at, q) < SizeAt(cs, at, k) {
        PreMono(SizeAt(cs, at, q), SizeAt(cs, at, k), p.width - 1);
      }
    }
  }

  // ----- between the two walks -----

  /** `v` is the best chunk so far, if there is one, and `rsize` what it leaves over. */
  ghost predicate Found(cs: Chunks, at: Places, nb: nat, v: Option<Place>, rsize: nat) {
    nb < WORD && if v.Some? then v.value in at && SizeAt(cs, at, v.value) == nb + rsize else rsize == WORD - nb
  }

  ghost predicate NoneUpTo(cs: Chunks, at: Places, idx: nat, nb: nat, q: Place) {
    q in at && q.bin <= idx ==> SizeAt(cs, at, q) < nb
  }

  lemma BinOf(cs: Chunks, at: Places, q: Place)
    requires TreesOk(cs, at) && SizesOk(cs) && q in at
    ensures at[q] in cs && InBin(SizeAt(cs, at, q), q.bin) && q.bin < NTREEBINS && SizeAt(cs, at, q) < WORD
  {
    assert PlaceOk(cs, at, q);
  }

  /** An exact fit ends the search wherever the walk stands. */
  lemma ExactEnds(cs: Chunks, at: Places, nb: nat, p: Place)
    requires p in at
    ensures Leftmost(cs, at, nb, 0, Some(p))
  {
  }

  /** Leaving the bin with something in hand: only the untaken right subtree is left to look at. */
  lemma WalkEnds(cs: Chunks, at: Places, idx: nat, nb: nat, v: Option<Place>, rsize: nat, rst: Option<Place>)
    requires TreesOk(cs, at) && SizesOk(cs) && InBin(nb, idx) && idx < NTREEBINS
    requires Walking(cs, at, idx, nb, rsize, None, rst) && Found(cs, at, nb, v, rsize) && (v.Some? ==> v.value.bin == idx)
    requires v.Some? || rst.Some?
    ensures Leftmost(cs, at, nb, rsize, rst)
  {
    var best := if v.Some? then v.value else rst.value;
    forall q ensures Left(cs, at, nb, rsize, rst, q) {
      assert Open(cs, at, idx, nb, rsize, None, rst, q);
      if q in at && SizeAt(cs, at, q) >= nb {
        BinOf(cs, at, q);
        BinOf(cs, at, best);
        if q.bin < idx {
          BinsOrdered(SizeAt(cs, at, q), q.bin, nb, idx);
        } else if q.bin > idx {
          BinsOrdered(SizeAt(cs, at, best), idx, SizeAt(cs, at, q), q.bin);
        } else if rst.Some? && FromOn(cs, at, rst.value, q) && !InTree(cs, at, rst.value, q) {
          assert PlaceOk(cs, at, rst.value);
          WayThere(cs, at, rst.value, rst.value.width);
          if SizeAt(cs, at, q) < SizeAt(cs, at, rst.value) {
            PreMono(SizeAt(cs, at, q), SizeAt(cs, at, rst.value), rst.value.width);
          }
        }
      }
    }
    if rst.Some? {
      forall q ensures Enough(cs, at, nb, rst.value, q) {
        if InTree(cs, at, rst.value, q) && SizeAt(cs, at, q) < nb {
          PreMono(SizeAt(cs, at, q), nb, rst.value.width);
        }
      }
    }
  }

  lemma WalkEmpty(cs: Chunks, at: Places, idx: nat, nb: nat, q: Place)
    requires TreesOk(cs, at) && SizesOk(cs) && InBin(nb, idx) && idx < NTREEBINS && nb < WORD
    requires Root(idx) !in at || Walking(cs, at, idx, nb, WORD - nb, None, None)
    ensures NoneUpTo(cs, at, idx, nb, q)
  {
    if q in at && q.bin <= idx {
      BinOf(cs, at, q);
      if q.bin < idx {
        BinsOrdered(SizeAt(cs, at, q), q.bin, nb, idx);
      } else {
        RootThere(cs, at, q);
        assert Open(cs, at, idx, nb, WORD - nb, None, None, q);
      }
    }
  }

  /** Every chunk of the next non-empty bin is large enough, and the bins after it are larger still. */
  lemma NextBin(cs: Chunks, at: Places, idx: nat, nb: nat, i: nat)
    requires TreesOk(cs, at) && SizesOk(cs) && InBin(nb, idx) && nb < WORD && idx < i < NTREEBINS && Root(i) in at
    requires forall q {:trigger NoneUpTo(cs, at, idx, nb, q)} :: NoneUpTo(cs, at, idx, nb, q)
    requires forall j :: idx < j < i ==> Root(j) !in at
    ensures Leftmost(cs, at, nb, WORD - nb, Some(Root(i)))
  {
    var rsize := WORD - nb;
    forall q ensures Left(cs, at, nb, rsize, Some(Root(i)), q) {
      if q in at {
        assert NoneUpTo(cs, at, idx, nb, q);
        RootThere(cs, at, q);
        BinOf(cs, at, q);
        BinOf(cs, at, Root(i));
        assert PlaceOk(cs, at, q);
        if q.bin > i {
          BinsOrdered(SizeAt(cs, at, Root(i)), i, SizeAt(cs, at, q), q.bin);
        }
      }
    }
    forall q ensures Enough(cs, at, nb, Root(i), q) {
      if InTree(cs, at, Root(i), q) {
        BinOf(cs, at, q);
        BinsOrdered(nb, idx, SizeAt(cs, at, q), i);
      }
    }
  }

  lemma NoNextBin(cs: Chunks, at: Places, idx: nat, nb: nat)
    requires TreesOk(cs, at) && SizesOk(cs) && nb < WORD
    requires forall q {:trigger NoneUpTo(cs, at, idx, nb, q)} :: NoneUpTo(cs, at, idx, nb, q)
    requires forall j :: idx < j < NTREEBINS ==> Root(j) !in at
    ensures Leftmost(cs, at, nb, WORD - nb, None)
  {
    var rsize := WORD - nb;
    forall q ensures Left(cs, at, nb, rsize, None, q) {
      if q in at {
        assert NoneUpTo(cs, at, idx, nb, q);
        RootThere(cs, at, q);
        BinOf(cs, at, q);
      }
    }
  }

  /** For a small request every chunk is large enough, and the first non-empty bin has the smallest. */
  lemma FirstBin(cs: Chunks, at: Places, nb: nat, i: nat)
    requires TreesOk(cs, at) && SizesOk(cs) && nb < MIN_LARGE_SIZE && i < NTREEBINS && Root(i) in at
    requires forall j :: 0 <= j < i ==> Root(j) !in at
    ensures Leftmost(cs, at, nb, WORD - nb, Some(Root(i)))
  {
    var rsize := WORD - nb;
    forall q ensures Left(cs, at, nb, rsize, Some(Root(i)), q) {
      if q in at {
        RootThere(cs, at, q);
        BinOf(cs, at, q);
        BinOf(cs, at, Root(i));
        assert PlaceOk(cs, at, q);
        if q.bin > i {
          BinsOrdered(SizeAt(cs, at, Root(i)), i, SizeAt(cs, at, q), q.bin);
        }
      }
    }
    forall q ensures Enough(cs, at, nb, Root(i), q) {
      if q in at {
        BinOf(cs, at, q);
        assert PlaceOk(cs, at, q);
      }
    }
  }
}
