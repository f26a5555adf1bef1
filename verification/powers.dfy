/**
 Powers of two, as the growth rule of the race records and the masks of the hash table use them.
 */
module PowersOfTwo {
  function PopCount(n: nat): nat {
    if n == 0 then 0 else n % 2 + PopCount(n / 2)
  }

  function Power(k: nat): (p: nat)
    ensures p > 0
  {
    if k == 0 then 1 else 2 * Power(k - 1)
  }

  ghost predicate IsPower(n: nat) {
    exists k: nat :: Power(k) == n
  }

  lemma {:induction false} PopCountZero(n: nat)
    ensures PopCount(n) == 0 <==> n == 0
  {
    if n > 0 {
      PopCountZero(n / 2);
    }
  }

  lemma PowerHalf(n: nat)
    requires n > 1
    ensures IsPower(n) <==> n % 2 == 0 && IsPower(n / 2)
  {
    if IsPower(n) {
      var k: nat :| Power(k) == n;
      assert Power(k - 1) == n / 2;
    }
    if n % 2 == 0 && IsPower(n / 2) {
      var k: nat :| Power(k) == n / 2;
      assert Power(k + 1) == n;
    }
  }

  /** At most one bit is set exactly in zero and the powers of two. */
  lemma {:induction false} PopCountPower(n: nat)
    ensures PopCount(n) <= 1 <==> n == 0 || IsPower(n)
  {
    if n > 0 {
      PopCountPower(n / 2);
      PopCountZero(n / 2);
    }
    if n > 1 {
      PowerHalf(n);
    }
    assert Power(0) == 1;
  }

  /** Bitwise and. */
  function And(a: nat, b: nat): nat {
    if a == 0 || b == 0 then 0 else 2 * And(a / 2, b / 2) + (a % 2) * (b % 2)
  }

  lemma HalfMod(a: nat, n: nat)
    requires n > 0
    ensures a % (2 * n) == 2 * (a / 2 % n) + a % 2
  {
    var q := a / 2 / n;
    assert a / 2 == q * n + a / 2 % n;
    Remainder(a, 2 * n, q, 2 * (a / 2 % n) + a % 2);
  }

  lemma Remainder(a: nat, k: nat, q: int, r: nat)
    requires a == q * k + r && r < k
    ensures a / k == q && a % k == r
  {
    var d := q - a / k;
    assert a == k * (a / k) + a % k;
    assert d * k == a % k - r;
    Multiple(d, k);
  }

  lemma Multiple(d: int, k: int)
    requires k > 0
    ensures d >= 1 ==> d * k >= k
    ensures d <= -1 ==> d * k <= -k
  {
    if d >= 1 {
      assert (d - 1) * k >= 0;
    } else if d <= -1 {
      assert (-d - 1) * k >= 0;
    }
  }

  /** Masking with one less than a power of two keeps the remainder. */
  lemma {:induction false} MaskIsRemainder(a: nat, n: nat)
    requires IsPower(n)
    ensures n > 0 && And(a, n - 1) == a % n
  {
    var k: nat :| Power(k) == n;
    if n > 1 && a > 0 {
      assert Power(k - 1) == n / 2;
      MaskIsRemainder(a / 2, n / 2);
      HalfMod(a, n / 2);
      assert (n - 1) / 2 == n / 2 - 1;
    }
  }

  lemma MaskSmall(a: nat, n: nat)
    requires IsPower(n) && a <= n
    ensures And(a, n - 1) == if a == n then 0 else a
  {
    hide And;
    hide IsPower;
    MaskIsRemainder(a, n);
    Remainder(a, n, if a == n then 1 else 0, if a == n then 0 else a);
  }

  lemma PowerTwice(n: nat)
    requires IsPower(n)
    ensures IsPower(n * 2)
  {
    var k: nat :| Power(k) == n;
    assert Power(k + 1) == n * 2;
  }
}
