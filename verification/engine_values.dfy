/**
 When a compare-and-swap succeeds: exactly when the value read agrees with the expected one in
 every byte of the variable.
 */
module EngineValues {
  import opened Options
  import opened MoGraph
  import opened Actions
  import opened ExecutionState
  import opened Engine
  import opened PowersOfTwo

  /** Byte `j` of a value, counted from the lowest. */
  function Byte(a: nat, j: nat): nat {
    a / Power(8 * j) % 0x100
  }

  ghost predicate BytesAgree(a: nat, b: nat, n: nat) {
    forall j: nat :: j < n ==> Byte(a, j) == Byte(b, j)
  }

  lemma PowerNext(j: nat)
    ensures Power(8 * (j + 1)) == 0x100 * Power(8 * j)
  {
    var k := 8 * j;
    assert Power(k + 2) == 4 * Power(k) && Power(k + 4) == 4 * Power(k + 2);
    assert Power(k + 6) == 4 * Power(k + 4) && Power(k + 8) == 4 * Power(k + 6);
  }

  lemma Digits(q: nat, d: nat, low: nat, p: nat)
    requires d < 0x100 && low < p
    ensures ((q * 0x100 + d) * p + low) % (0x100 * p) == d * p + low
  {
    var high := q * 0x100;
    Distribute(high, d, p);
    Distribute(0xff - d, d, p);
    assert high * p == q * (0x100 * p);
    Remainder((high + d) * p + low, 0x100 * p, q, d * p + low);
  }

  /** Base `p`: the lowest digit above the low part, and the low part. */
  lemma DigitSplit(a: nat, p: nat)
    requires p > 0
    ensures a % (0x100 * p) == a / p % 0x100 * p + a % p
  {
    var high := a / p;
    assert a == high * p + a % p;
    assert high == high / 0x100 * 0x100 + high % 0x100;
    Digits(high / 0x100, high % 0x100, a % p, p);
  }

  lemma Distribute(x: nat, y: nat, p: nat)
    ensures (x + y) * p == x * p + y * p
  {
  }

  /** The low `n + 1` bytes are the low `n` bytes and one byte more. */
  lemma LowBytesNext(a: nat, n: nat)
    ensures a % Power(8 * (n + 1)) == Byte(a, n) * Power(8 * n) + a % Power(8 * n)
  {
    PowerNext(n);
    DigitSplit(a, Power(8 * n));
  }

  /** Two numbers with the same number of low bytes are equal when they agree in the highest and in the rest. */
  lemma SameDigits(d: nat, e: nat, p: nat, x: nat, y: nat)
    requires x < p && y < p
    ensures d * p + x == e * p + y <==> d == e && x == y
  {
    Remainder(d * p + x, p, d, x);
    Remainder(e * p + y, p, e, y);
  }

  lemma {:induction false} LowBytes(a: nat, b: nat, n: nat)
    ensures a % Power(8 * n) == b % Power(8 * n) <==> BytesAgree(a, b, n)
  {
    if n > 0 {
      LowBytes(a, b, n - 1);
      LowBytesNext(a, n - 1);
      LowBytesNext(b, n - 1);
      SameDigits(Byte(a, n - 1), Byte(b, n - 1), Power(8 * (n - 1)), a % Power(8 * (n - 1)), b % Power(8 * (n - 1)));
    }
  }

  lemma WidthPower(size: Width)
    ensures Power(8 * size) == match size case 1 => 0x100 case 2 => 0x1_0000 case 4 => 0x1_0000_0000 case _ => 0x1_0000_0000_0000_0000
  {
    PowerNext(0);
    if size > 1 {
      PowerNext(1);
    }
    if size > 2 {
      PowerNext(2);
      PowerNext(3);
    }
    if size > 4 {
      PowerNext(4);
      PowerNext(5);
      PowerNext(6);
      PowerNext(7);
    }
  }

  /** The comparison of a compare-and-swap looks at every byte of the variable and at no other. */
  lemma ValEqualsBytes(a: nat, b: nat, size: Width)
    ensures ValEquals(a, b, size) <==> BytesAgree(a, b, size)
  {
    WidthPower(size);
    LowBytes(a, b, size);
  }

  /** For 64-bit values of 8 bytes that is equality. */
  lemma WholeValue(a: nat, b: nat)
    requires a < 0x1_0000_0000_0000_0000 && b < 0x1_0000_0000_0000_0000
    ensures BytesAgree(a, b, 8) <==> a == b
  {
    WidthPower(8);
    LowBytes(a, b, 8);
  }

  /** The read of an RMW is followed by its write: always for a fetch-and-op, on equal bytes for a compare-and-swap. */
  ghost predicate Succeeds(m: Infos, w: Act, p: Purpose)
    requires w in m
  {
    p.FetchOp? || (p.CompareSwap? && BytesAgree(p.expected, m[w].value, p.size))
  }

  lemma SucceedsIff(m: Infos, w: Act, p: Purpose)
    requires w in m
    ensures WouldSucceed(m, w, p) <==> Succeeds(m, w, p)
  {
    if p.CompareSwap? {
      ValEqualsBytes(p.expected, m[w].value, p.size);
    }
  }

  /**
   In every run a compare-and-swap writes if and only if the value it read agrees with the
   expected one in every byte; a fetch-and-op always does.
   */
  lemma RunSwaps(ss: seq<State>, ls: seq<Label>, i: nat)
    requires IsRun(ss, ls) && i < |ls|
    ensures ls[i].Update? ==> ls[i].rf in ss[i].info && Succeeds(ss[i].info, ls[i].rf, ls[i].purpose)
    ensures ls[i].FailedSwap? ==>
              ls[i].purpose.CompareSwap? && ls[i].rf in ss[i].info
              && !BytesAgree(ls[i].purpose.expected, ss[i].info[ls[i].rf].value, ls[i].purpose.size)
  {
    var s, l := ss[i], ls[i];
    RunInv(ss, ls, i);
    if l.Update? || l.FailedSwap? {
      assert Step(s, l, ss[i + 1]);
      CandidateWrites(s, Begin(s, l.tid, l.loc, l.order), l.purpose, l.history, s.threads, l.rf);
      SucceedsIff(s.info, l.rf, l.purpose);
    }
  }
}
