/**
 Which tree bin a chunk size belongs to, and how the bits of a size lead through a bin's tree.
 */
module SizeIndex {
  import opened PowersOfTwo

  const WORD := 0x1_0000_0000_0000_0000  // sizes are 64-bit
  const NTREEBINS := 32
  const MIN_LARGE_SIZE := 256
  const LARGEST := 0x100_0000_0000  // sizes from here on lose bits in `compute_tree_index`

  /** The size without its lowest `w` bits. */
  function Pre(s: nat, w: nat): nat {
    if w == 0 then s else Pre(s / 2, w - 1)
  }

  lemma {:induction false} PreNext(s: nat, w: nat)
    ensures Pre(s, w + 1) == Pre(s, w) / 2
  {
    if w > 0 {
      PreNext(s / 2, w - 1);
    }
  }

  lemma {:induction false} PreAdd(s: nat, v: nat, w: nat)
    ensures Pre(Pre(s, v), w) == Pre(s, v + w)
  {
    if v > 0 {
      PreAdd(s / 2, v - 1, w);
    }
  }

  lemma {:induction false} PreMono(s: nat, t: nat, w: nat)
    requires s <= t
    ensures Pre(s, w) <= Pre(t, w)
  {
    if w > 0 {
      PreMono(s / 2, t / 2, w - 1);
    }
  }

  /** What stays after dropping bits is the quotient. */
  lemma {:induction false} PreRange(s: nat, w: nat, q: nat)
    ensures Pre(s, w) >= q <==> s >= q * Power(w)
  {
    if w > 0 {
      PreRange(s / 2, w - 1, q);
      assert q * Power(w) == 2 * (q * Power(w - 1));
    }
  }

  /** The position of the highest set bit, which `__builtin_clz` finds. */
  function Log2(x: nat): nat
    requires x > 0
  {
    if x == 1 then 0 else 1 + Log2(x / 2)
  }

  lemma {:induction false} Log2Range(x: nat, bound: nat)
    requires 0 < x < Power(bound)
    ensures Log2(x) < bound && Pre(x, Log2(x)) == 1
  {
    if x > 1 {
      Log2Range(x / 2, bound - 1);
    }
  }

  /** `compute_tree_index`; the shifted size is kept in an `unsigned int`. */
  function TreeIndex(s: nat): nat {
    var x := s / 0x100 % 0x1_0000_0000;
    if x == 0 then 0
    else if x > 0xffff then NTREEBINS - 1
    else 2 * Log2(x) + Pre(s, Log2(x) + 7) % 2
  }

  /** `minsize_for_tree_index`. */
  function MinSize(i: nat): nat {
    Power(i / 2 + 8) + i % 2 * Power(i / 2 + 7)
  }

  /** The sizes that belong in bin `i`. */
  predicate InBin(s: nat, i: nat) {
    MinSize(i) <= s && (i < NTREEBINS - 1 ==> s < MinSize(i + 1))
  }

  /** The bits of a size that its bin's tree resolves, and what is above them. */
  function RootWidth(i: nat): nat {
    if i == NTREEBINS - 1 then 64 else i / 2 + 7
  }

  function RootPrefix(i: nat): nat {
    if i == NTREEBINS - 1 then 0 else 2 + i % 2
  }

  lemma PowersOf()
    ensures Power(7) == 0x80 && Power(8) == 0x100 && Power(16) == 0x1_0000
  {
    assert Power(4) == 0x10;
    assert Power(12) == 0x1000;
  }

  lemma MinSizeNext(i: nat)
    ensures MinSize(i) == (2 + i % 2) * Power(i / 2 + 7) && MinSize(i + 1) == (3 + i % 2) * Power(i / 2 + 7)
  {
    if i % 2 == 1 {
      assert (i + 1) / 2 == i / 2 + 1;
      assert Power(i / 2 + 9) == 2 * Power(i / 2 + 8) && Power(i / 2 + 8) == 2 * Power(i / 2 + 7);
    }
  }

  lemma {:induction false} MinSizeMono(i: nat, j: nat)
    requires i <= j
    ensures MinSize(i) <= MinSize(j)
    decreases j
  {
    if i < j {
      MinSizeMono(i, j - 1);
      MinSizeNext(j - 1);
    }
  }

  /** A bin other than the last holds exactly the sizes whose high bits are its own. */
  lemma InBinPrefix(s: nat, i: nat)
    requires i < NTREEBINS - 1
    ensures InBin(s, i) <==> Pre(s, RootWidth(i)) == RootPrefix(i)
  {
    MinSizeNext(i);
    PreRange(s, RootWidth(i), 2 + i % 2);
    PreRange(s, RootWidth(i), 3 + i % 2);
  }

  lemma ShiftByte(s: nat)
    ensures Pre(s, 8) == s / 0x100
  {
    PowersOf();
    PreRange(s, 8, s / 0x100);
    PreRange(s, 8, s / 0x100 + 1);
  }

  /** The two highest set bits of a size below 2^24 are those of its bin. */
  lemma HighBits(s: nat, k: nat)
    requires 0 < s / 0x100 <= 0xffff && k == Log2(s / 0x100)
    ensures k < 16 && Pre(s, k + 7) / 2 == 1
  {
    PowersOf();
    ShiftByte(s);
    Log2Range(s / 0x100, 16);
    PreAdd(s, 8, k);
    PreNext(s, k + 7);
  }

  lemma RangeOfBits(s: nat, i: nat)
    requires Pre(s, i / 2 + 7) == 2 + i % 2
    ensures MinSize(i) <= s < MinSize(i + 1)
  {
    MinSizeNext(i);
    PreRange(s, i / 2 + 7, 2 + i % 2);
    PreRange(s, i / 2 + 7, 3 + i % 2);
  }

  lemma LowIndex(s: nat)
    requires 0 < s / 0x100 <= 0xffff
    ensures TreeIndex(s) < NTREEBINS && InBin(s, TreeIndex(s))
  {
    var k := Log2(s / 0x100);
    HighBits(s, k);
    hide Log2;
    hide Pre;
    var b := Pre(s, k + 7) % 2;
    assert TreeIndex(s) == 2 * k + b;
    assert (2 * k + b) / 2 == k && (2 * k + b) % 2 == b;
    RangeOfBits(s, 2 * k + b);
  }

  lemma LastMin()
    ensures MinSize(NTREEBINS - 1) == 0xc0_0000
  {
    PowersOf();
    assert Power(22) == 0x40_0000 by {
      assert Power(20) == 0x10_0000;
    }
  }

  lemma FirstMin()
    ensures MinSize(0) == 0x100 && MinSize(1) == 0x180
  {
    PowersOf();
  }

  lemma {:induction false} PreShifted(a: nat, b: nat, w: nat)
    ensures Pre(a + Power(w) * b, w) == Pre(a, w) + b
  {
    if w > 0 {
      assert Power(w) * b == 2 * (Power(w - 1) * b);
      assert (a + Power(w) * b) / 2 == a / 2 + Power(w - 1) * b;
      PreShifted(a / 2, b, w - 1);
    }
  }

  lemma Power14()
    ensures Power(14) == 0x4000 && Power(15) == 0x8000
  {
    PowersOf();
    assert Power(16) == 2 * Power(15) && Power(15) == 2 * Power(14);
  }

  /** The last bin is chosen for shifted values from 0xc000 on. */
  lemma TopIndex(s: nat, x: nat)
    requires x == s / 0x100 % 0x1_0000_0000 && 0 < x <= 0xffff
    ensures TreeIndex(s) < NTREEBINS && (TreeIndex(s) == NTREEBINS - 1 <==> x >= 0xc000)
  {
    PowersOf();
    Power14();
    var k := Log2(x);
    Log2Range(x, 16);
    if x < 0x8000 {
      Log2Range(x, 15);
    } else {
      TopBits(s, x);
    }
  }

  lemma Fifteen(x: nat)
    requires 0x8000 <= x <= 0xffff
    ensures Log2(x) == 15 && (Pre(x, 14) == 2 || Pre(x, 14) == 3) && (Pre(x, 14) == 3 <==> x >= 0xc000)
  {
    PowersOf();
    Power14();
    Log2Range(x, 16);
    var k := Log2(x);
    hide Log2;
    PreRange(x, 14, 2);
    PreRange(x, 14, 3);
    PreRange(x, 14, 4);
    PreRange(x, 15, 1);
    if k < 15 {
      PreAdd(x, k, 15 - k);
      OneDropped(15 - k);
    }
  }

  lemma OneDropped(w: nat)
    requires w > 0
    ensures Pre(1, w) == 0
  {
    PreRange(0, w - 1, 1);
  }

  /** Bit 22 of the size is bit 14 of its shifted value, lost bits or not. */
  lemma BitKept(s: nat, x: nat)
    requires x == s / 0x100 % 0x1_0000_0000
    ensures Pre(s, 22) % 2 == Pre(x, 14) % 2
  {
    var m := s / 0x100 / 0x1_0000_0000;
    ShiftByte(s);
    PreAdd(s, 8, 14);
    Shifted14(x, 0x4_0000 * m);
    hide Pre;
    SplitWord(s / 0x100);
    Parity(Pre(x, 14), m);
  }

  lemma Shifted14(x: nat, b: nat)
    ensures Pre(x + 0x4000 * b, 14) == Pre(x, 14) + b
  {
    Power14();
    PreShifted(x, b, 14);
  }

  lemma SplitWord(y: nat)
    ensures y == y % 0x1_0000_0000 + 0x4000 * (0x4_0000 * (y / 0x1_0000_0000))
  {
  }

  lemma Parity(a: nat, m: nat)
    ensures (a + 0x4_0000 * m) % 2 == a % 2
  {
  }

  lemma TopBits(s: nat, x: nat)
    requires x == s / 0x100 % 0x1_0000_0000 && 0x8000 <= x <= 0xffff
    ensures Log2(x) == 15 && (Pre(s, 22) % 2 == 1 <==> x >= 0xc000)
  {
    Fifteen(x);
    BitKept(s, x);
  }

  /** A size whose shifted value loses bits may land in too low a bin. */
  lemma LostBits(s: nat)
    requires s >= LARGEST && s / 0x100 % 0x1_0000_0000 <= 0xffff
    ensures TreeIndex(s) < NTREEBINS && (InBin(s, TreeIndex(s)) <==> s / 0x100 % 0x1_0000_0000 >= 0xc000)
  {
    FirstMin();
    LastMin();
    var x := s / 0x100 % 0x1_0000_0000;
    if x > 0 {
      TopIndex(s, x);
      Saturated31(s, TreeIndex(s));
    }
  }

  /** The first size that is misfiled: its shifted value has no bit among the lowest 32. */
  lemma FirstMisfiled()
    ensures TreeIndex(LARGEST) == 0 && !InBin(LARGEST, TreeIndex(LARGEST))
  {
    TreeIndexExact(LARGEST);
  }

  lemma Saturated31(s: nat, i: nat)
    requires s >= LARGEST
    ensures i < NTREEBINS - 1 ==> !InBin(s, i)
  {
    LastMin();
    if i < NTREEBINS - 1 {
      MinSizeMono(i + 1, NTREEBINS - 1);
    }
  }

  /**
   A large size goes to the bin whose range it is in, if and only if its shifted value fits 32
   bits, or what is left of it is still large enough for the last bin.
   */
  lemma TreeIndexExact(s: nat)
    requires s >= MIN_LARGE_SIZE
    ensures TreeIndex(s) < NTREEBINS
    ensures InBin(s, TreeIndex(s)) <==> s < LARGEST || s / 0x100 % 0x1_0000_0000 >= 0xc000
  {
    LastMin();
    var x := s / 0x100 % 0x1_0000_0000;
    if x > 0xffff {
      assert TreeIndex(s) == NTREEBINS - 1;
      assert s / 0x100 >= x;
    } else if s < LARGEST {
      LowIndex(s);
    } else {
      LostBits(s);
    }
  }

  /** The bins cover every large size once, and larger bins hold larger sizes. */
  lemma BinsOrdered(s: nat, i: nat, t: nat, j: nat)
    requires InBin(s, i) && InBin(t, j) && i < j < NTREEBINS
    ensures s < t
  {
    MinSizeMono(i + 1, j);
  }

  // ----- walking a tree by the bits of a size -----

  /** `leftshift_for_tree_index`. */
  function LeftShift(i: nat): nat {
    if i == NTREEBINS - 1 then 0 else if i / 2 + 6 <= 63 then 63 - (i / 2 + 6) else 0
  }

  /** The search key when `w` bits are still to be resolved: they are at the top of the word. */
  function Key(s: nat, w: nat): nat
    requires w <= 64
  {
    s * Power(64 - w) % WORD
  }

  lemma {:induction false} PowerSum(a: nat, b: nat)
    ensures Power(a + b) == Power(a) * Power(b)
  {
    if a > 0 {
      PowerSum(a - 1, b);
      assert Power(a) * Power(b) == 2 * (Power(a - 1) * Power(b));
    }
  }

  lemma PowerWord()
    ensures Power(64) == WORD && Power(63) == 0x8000_0000_0000_0000
  {
    PowersOf();
    PowerSum(16, 16);
    PowerSum(32, 32);
    assert Power(32) == 0x1_0000 * 0x1_0000;
    assert Power(64) == 2 * Power(63);
  }

  lemma PreQuotient(s: nat, w: nat)
    ensures Pre(s, w) == s / Power(w)
  {
    PreRange(s, w, Pre(s, w));
    PreRange(s, w, Pre(s, w) + 1);
    Remainder(s, Power(w), Pre(s, w), s - Pre(s, w) * Power(w));
  }

  lemma {:induction false} PreTimes(r: nat, a: nat, v: nat)
    ensures Pre(r * Power(a), a + v) == Pre(r, v)
  {
    if a > 0 {
      assert r * Power(a) == 2 * (r * Power(a - 1));
      PreTimes(r, a - 1, v);
    }
  }

  lemma MulDist(q: nat, p: nat, r: nat, a: nat)
    ensures (q * p + r) * a == q * (p * a) + r * a
  {
  }

  lemma MulLess(r: nat, p: nat, a: nat)
    requires r < p && a > 0
    ensures r * a < p * a
  {
  }

  lemma KeyIs(s: nat, w: nat)
    requires w <= 64
    ensures Key(s, w) == s % Power(w) * Power(64 - w) < WORD
  {
    PowerWord();
    PowerSum(w, 64 - w);
    KeySplit(s, Power(w), Power(64 - w));
  }

  lemma KeySplit(s: nat, p: nat, a: nat)
    requires p > 0 && a > 0
    ensures s * a % (p * a) == s % p * a < p * a
  {
    var q, r := s / p, s % p;
    MulLess(r, p, a);
    MulDist(q, p, r, a);
    Divided(s, p);
    Remainder(s * a, p * a, q, r * a);
  }

  lemma Divided(s: nat, p: nat)
    requires p > 0
    ensures s == s / p * p + s % p
  {
  }

  lemma LowBit(s: nat, w: nat)
    requires w > 0
    ensures Pre(s % Power(w), w - 1) == Pre(s, w - 1) % 2
  {
    var h := Power(w - 1);
    assert Power(w) == 2 * h;
    var q, r := s / Power(w), s % Power(w);
    Divided(s, Power(w));
    Twice(q, h);
    PreShifted(r, 2 * q, w - 1);
    PreRange(r, w - 1, 2);
    hide Pre;
    hide Power;
    OddBit(Pre(r, w - 1), q);
  }

  lemma OddBit(b: nat, q: nat)
    requires b < 2
    ensures (b + 2 * q) % 2 == b
  {
  }

  lemma Twice(q: nat, h: nat)
    ensures q * (2 * h) == h * (2 * q)
  {
  }

  /** The top bit of the key is the next bit of the size, and shifting the key moves on. */
  lemma KeyBit(s: nat, w: nat)
    requires 0 < w <= 64
    ensures Key(s, w) / 0x8000_0000_0000_0000 == Pre(s, w - 1) % 2
    ensures Key(s, w) * 2 % WORD == Key(s, w - 1)
  {
    TopBitOfKey(s, w);
    assert Power(65 - w) == 2 * Power(64 - w);
    var p := Power(64 - w);
    hide Power;
    assert s * (2 * p) == s * p * 2;
    DoubleMod(s * p);
  }

  lemma TopBitOfKey(s: nat, w: nat)
    requires 0 < w <= 64
    ensures Key(s, w) / 0x8000_0000_0000_0000 == Pre(s, w - 1) % 2
  {
    PowerWord();
    KeyIs(s, w);
    PreTimes(s % Power(w), 64 - w, w - 1);
    LowBit(s, w);
    PreQuotient(Key(s, w), 63);
    hide Power;
    hide Pre;
    hide Key;
  }

  lemma DoubleMod(x: nat)
    ensures x % WORD * 2 % WORD == x * 2 % WORD
  {
    var q, r := x / WORD, x % WORD;
    assert x * 2 == (2 * q) * WORD + 2 * r;
    if 2 * r < WORD {
      Remainder(x * 2, WORD, 2 * q, 2 * r);
    } else {
      Remainder(x * 2, WORD, 2 * q + 1, 2 * r - WORD);
    }
  }
}
