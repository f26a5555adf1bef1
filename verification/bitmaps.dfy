/**
 The bin maps: one bit a bin, and the word tricks that find the next marked bin.
 */
module Bitmaps {
  import opened PowersOfTwo
  import opened SizeIndex

  const MAPBITS := 32

  predicate Bit(m: nat, i: nat) {
    Pre(m, i) % 2 == 1
  }

  /** `mark_treemap` and `clear_treemap`. */
  function SetBit(m: nat, i: nat, b: bool): nat {
    if i == 0 then m / 2 * 2 + (if b then 1 else 0) else SetBit(m / 2, i - 1, b) * 2 + m % 2
  }

  lemma {:induction false} SetBitAt(m: nat, i: nat, b: bool, j: nat)
    ensures Bit(SetBit(m, i, b), j) <==> if i == j then b else Bit(m, j)
  {
    if i > 0 && j > 0 {
      SetBitAt(m / 2, i - 1, b, j - 1);
    }
  }

  lemma {:induction false} AndBit(a: nat, b: nat, j: nat)
    ensures Bit(And(a, b), j) <==> Bit(a, j) && Bit(b, j)
  {
    if a == 0 || b == 0 {
      ZeroBit(j);
    } else if j > 0 {
      AndBit(a / 2, b / 2, j - 1);
    }
  }

  lemma {:induction false} ZeroBit(j: nat)
    ensures !Bit(0, j)
  {
    if j > 0 {
      ZeroBit(j - 1);
    }
  }

  /** `left_bits(idx2bit(i))`: the bits above `i`, as the union of a shifted bit and its negation. */
  function LeftBits(i: nat): nat
    requires i < MAPBITS
  {
    PowerMono(i + 1, MAPBITS);
    Power(MAPBITS) - Power(i + 1)
  }

  lemma {:induction false} PowerMono(a: nat, b: nat)
    requires a <= b
    ensures Power(a) <= Power(b)
  {
    if a > 0 {
      PowerMono(a - 1, b - 1);
    }
  }

  lemma {:induction false} RangeBit(n: nat, k: nat, j: nat)
    requires k <= n
    ensures Power(n) >= Power(k) && (Bit(Power(n) - Power(k), j) <==> k <= j < n)
  {
    PowerMono(k, n);
    if n == 0 {
      ZeroBit(j);
    } else {
      var m := Power(n) - Power(k);
      if k > 0 {
        assert m / 2 == Power(n - 1) - Power(k - 1) && m % 2 == 0;
        if j > 0 {
          RangeBit(n - 1, k - 1, j - 1);
        }
      } else {
        assert m / 2 == Power(n - 1) - Power(0) && m % 2 == 1;
        if j > 0 {
          RangeBit(n - 1, 0, j - 1);
        }
      }
    }
  }

  /** `compute_bit2idx(least_bit(x))`: the position of the lowest set bit. */
  function LowestBit(x: nat): (i: nat)
    requires x > 0
    ensures Bit(x, i)
  {
    if x % 2 == 1 then 0 else 1 + LowestBit(x / 2)
  }

  lemma {:induction false} LowestBitFirst(x: nat, j: nat)
    requires x > 0 && j < LowestBit(x)
    ensures !Bit(x, j)
  {
    if j > 0 {
      LowestBitFirst(x / 2, j - 1);
    }
  }

  /** Masking with the left bits of `i` and taking the lowest bit finds the next marked bin. */
  lemma NextMarked(m: nat, i: nat)
    requires i < MAPBITS
    ensures var left := And(m, LeftBits(i));
            if left == 0 then forall j :: i < j < MAPBITS ==> !Bit(m, j)
            else i < LowestBit(left) < MAPBITS && Bit(m, LowestBit(left)) && forall j :: i < j < LowestBit(left) ==> !Bit(m, j)
  {
    var left := And(m, LeftBits(i));
    forall j: nat ensures Bit(left, j) <==> i < j < MAPBITS && Bit(m, j) {
      AndBit(m, LeftBits(i), j);
      RangeBit(MAPBITS, i + 1, j);
    }
    if left == 0 {
      forall j | i < j < MAPBITS ensures !Bit(m, j) {
        ZeroBit(j);
      }
    } else {
      forall j | i < j < LowestBit(left) ensures !Bit(m, j) {
        LowestBitFirst(left, j);
      }
    }
  }

  /** `(m >> i) << i` keeps the bits from `i` on. */
  lemma ShiftedBack(m: nat, i: nat, j: nat)
    ensures Bit(Pre(m, i) * Power(i), j) <==> j >= i && Bit(m, j)
  {
    if j >= i {
      PreTimes(Pre(m, i), i, j - i);
      PreAdd(m, i, j - i);
    } else {
      LowZero(Pre(m, i), i, j);
    }
  }

  lemma {:induction false} LowZero(x: nat, i: nat, j: nat)
    requires j < i
    ensures !Bit(x * Power(i), j)
  {
    assert x * Power(i) == 2 * (x * Power(i - 1));
    if j > 0 {
      LowZero(x, i - 1, j - 1);
    }
  }

  /** The small bins a request of index `i` looks at: its own, the next, and then all above. */
  lemma SmallBits(m: nat, i: nat)
    requires i < MAPBITS
    ensures var bits := Pre(m, i);
            && (And(bits, 3) != 0 <==> Bit(m, i) || Bit(m, i + 1))
            && (bits % 2 == 1 <==> Bit(m, i))
            && (bits == 0 ==> forall j :: j >= i ==> !Bit(m, j))
  {
    var bits := Pre(m, i);
    PreNext(m, i);
    AndThree(bits);
    if bits == 0 {
      forall j | j >= i ensures !Bit(m, j) {
        PreAdd(m, i, j - i);
        ZeroBit(j - i);
      }
    }
  }

  lemma AndThree(b: nat)
    ensures And(b, 3) == b % 4
  {
    assert And(b / 2, 1) == b / 2 % 2 by {
      assert And(b / 2 / 2, 0) == 0;
    }
  }

  /** Some bin above the next one is marked, and the lowest of them is found. */
  lemma NextSmall(m: nat, i: nat)
    requires i < MAPBITS && Pre(m, i) != 0 && !Bit(m, i) && forall j :: j >= MAPBITS ==> !Bit(m, j)
    ensures var left := And(Pre(m, i) * Power(i), LeftBits(i));
            left > 0 && i < LowestBit(left) < MAPBITS && Bit(m, LowestBit(left))
    ensures forall j :: i <= j < LowestBit(And(Pre(m, i) * Power(i), LeftBits(i))) ==> !Bit(m, j)
  {
    var back := Pre(m, i) * Power(i);
    var k := SomeBitFrom(m, i);
    ShiftedBack(m, i, k);
    NextMarked(back, i);
    var left := And(back, LeftBits(i));
    assert left != 0;
    ShiftedBack(m, i, LowestBit(left));
    forall j | i < j < LowestBit(left) ensures !Bit(m, j) {
      ShiftedBack(m, i, j);
    }
  }

  lemma SomeBitFrom(m: nat, i: nat) returns (k: nat)
    requires Pre(m, i) != 0
    ensures k >= i && Bit(m, k)
  {
    var j := LowestBit(Pre(m, i));
    PreAdd(m, i, j);
    k := i + j;
  }
}
