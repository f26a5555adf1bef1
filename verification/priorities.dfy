/**
 Thread priorities: the high slots a thread is put into when it appears, the low slots it is
 moved to at change points, and what a whole run of both keeps.
 */
module Priorities {
  import opened Sequences
  import P2 = PowersOfTwo

  const EMPTY := -1

  datatype Slots = Slots(high: seq<int>, low: seq<int>)

  /** All slots, highest priority first. */
  function Order(p: Slots): seq<int> {
    p.high + p.low
  }

  /** The first place of `t`, or the length where it has none. */
  function Find(s: seq<int>, t: int): (k: nat)
    ensures k <= |s| && (k < |s| ==> s[k] == t) && forall i :: 0 <= i < k ==> s[i] != t
  {
    if s == [] || s[0] == t then 0 else 1 + Find(s[1..], t)
  }

  lemma {:induction false} FindIs(s: seq<int>, t: int, k: nat)
    requires k <= |s| && (k < |s| ==> s[k] == t) && forall i :: 0 <= i < k ==> s[i] != t
    ensures Find(s, t) == k
  {
    if s != [] && s[0] != t {
      FindIs(s[1..], t, k - 1);
    }
  }

  function Inserted(s: seq<int>, k: nat, t: int): seq<int>
    requires k <= |s|
  {
    s[..k] + [t] + s[k..]
  }

  function Removed(s: seq<int>, t: int): seq<int> {
    var k := Find(s, t);
    if k < |s| then s[k := EMPTY] else s
  }

  /** `t` leaves its slot, a high one first, for low slot `k`. */
  function Moved(p: Slots, k: nat, t: int): Slots
    requires k < |p.low|
  {
    if Find(p.high, t) < |p.high| then Slots(Removed(p.high, t), p.low[k := t])
    else Slots(p.high, Removed(p.low, t)[k := t])
  }

  /** The available thread in the first slot that has one. */
  function FirstOf(order: seq<int>, avail: seq<int>): int {
    if order == [] then EMPTY
    else if order[0] in avail then order[0]
    else FirstOf(order[1..], avail)
  }

  /** No slot before the first available thread holds an available one. */
  lemma {:induction false} FirstIs(order: seq<int>, avail: seq<int>, k: nat)
    requires k < |order| && order[k] in avail && forall i :: 0 <= i < k ==> order[i] !in avail
    ensures FirstOf(order, avail) == order[k]
  {
    if k > 0 {
      FirstIs(order[1..], avail, k - 1);
    }
  }

  lemma {:induction false} NoFirst(order: seq<int>, avail: seq<int>)
    requires forall i :: 0 <= i < |order| ==> order[i] !in avail
    ensures FirstOf(order, avail) == EMPTY
  {
    if order != [] {
      NoFirst(order[1..], avail);
    }
  }

  lemma {:induction false} FirstMeans(order: seq<int>, avail: seq<int>)
    requires exists i :: 0 <= i < |order| && order[i] in avail
    ensures FirstOf(order, avail) in avail && FirstOf(order, avail) in order
    ensures forall i :: 0 <= i < Find(order, FirstOf(order, avail)) ==> order[i] !in avail
  {
    if order[0] in avail {
      FindIs(order, order[0], 0);
    } else {
      var rest := order[1..];
      var i :| 0 <= i < |order| && order[i] in avail;
      assert rest[i - 1] in avail;
      FirstMeans(rest, avail);
      var f := FirstOf(rest, avail);
      assert Find(order, f) == 1 + Find(rest, f);
    }
  }

  /** What `get_highest_thread` answers: it does not look at the slots if only one thread is available. */
  function Highest(p: Slots, avail: seq<int>): int {
    if |avail| == 1 then avail[0] else FirstOf(Order(p), avail)
  }

  // ----- every added thread sits in exactly one slot -----

  ghost predicate OnceEach(s: seq<int>) {
    forall i, j :: 0 <= i < j < |s| && s[i] > 0 ==> s[i] != s[j]
  }

  ghost predicate RankedList(s: seq<int>, live: set<int>) {
    && OnceEach(s)
    && (forall t :: t in live ==> t > 0 && t in s)
    && (forall i :: 0 <= i < |s| && s[i] > 0 ==> s[i] in live)
  }

  ghost predicate Ranked(p: Slots, live: set<int>) {
    RankedList(Order(p), live)
  }

  ghost predicate Available(avail: seq<int>, live: set<int>) {
    avail != [] && forall t :: t in avail ==> t in live
  }

  lemma FindDistinct(s: seq<int>, k: nat)
    requires OnceEach(s) && k < |s| && s[k] > 0
    ensures Find(s, s[k]) == k
  {
    FindIs(s, s[k], k);
  }

  /** Whenever a thread is available the highest one is found, and both searches agree on it. */
  lemma HighestRanks(p: Slots, live: set<int>, avail: seq<int>, u: int)
    requires Ranked(p, live) && Available(avail, live) && u in avail
    ensures Highest(p, avail) == FirstOf(Order(p), avail) && Highest(p, avail) in avail
    ensures Find(Order(p), Highest(p, avail)) <= Find(Order(p), u) < |Order(p)|
  {
    var order := Order(p);
    var i :| 0 <= i < |order| && order[i] == u;
    FirstMeans(order, avail);
    FindDistinct(order, i);
    if |avail| == 1 {
      assert FirstOf(order, avail) == avail[0];
    }
  }

  /** What a list gains and keeps when an entry is put in. */
  lemma InsertedAt(s: seq<int>, k: nat, t: int)
    requires k <= |s|
    ensures |Inserted(s, k, t)| == |s| + 1 && Inserted(s, k, t)[k] == t
    ensures forall i :: 0 <= i < k ==> Inserted(s, k, t)[i] == s[i]
    ensures forall i :: k < i <= |s| ==> Inserted(s, k, t)[i] == s[i - 1]
  {
  }

  lemma InsertedDistinct(s: seq<int>, k: nat, t: int)
    requires k <= |s| && OnceEach(s) && t !in s && t > 0
    ensures OnceEach(Inserted(s, k, t))
  {
    hide Inserted;
    InsertedAt(s, k, t);
  }

  ghost function Shifted(i: nat, k: nat): nat {
    if i < k then i else i + 1
  }

  lemma InsertedFind(s: seq<int>, k: nat, t: int, u: int)
    requires k <= |s| && OnceEach(s) && t !in s && t > 0 && u in s && u > 0
    ensures u in Inserted(s, k, t) && Find(Inserted(s, k, t), u) == Shifted(Find(s, u), k)
  {
    hide Inserted;
    InsertedAt(s, k, t);
    InsertedDistinct(s, k, t);
    var i :| 0 <= i < |s| && s[i] == u;
    FindDistinct(s, i);
    FindDistinct(Inserted(s, k, t), Shifted(i, k));
  }

  lemma InsertedRanked(s: seq<int>, live: set<int>, k: nat, t: int)
    requires RankedList(s, live) && k <= |s| && t > 0 && t !in live
    ensures RankedList(Inserted(s, k, t), live + {t})
  {
    hide Inserted;
    InsertedAt(s, k, t);
    InsertedDistinct(s, k, t);
    forall u | u in live ensures u in Inserted(s, k, t) {
      InsertedFind(s, k, t, u);
    }
  }

  /** A new thread ranks where it is put, and the others keep their order. */
  lemma AddKeeps(p: Slots, live: set<int>, k: nat, t: int)
    requires Ranked(p, live) && t > 0 && t !in live && k <= |p.high|
    ensures Ranked(Slots(Inserted(p.high, k, t), p.low), live + {t})
    ensures Find(Order(Slots(Inserted(p.high, k, t), p.low)), t) == k
    ensures forall u :: u in live ==> Find(Order(Slots(Inserted(p.high, k, t), p.low)), u) == Shifted(Find(Order(p), u), k)
  {
    var order := Order(p);
    assert Order(Slots(Inserted(p.high, k, t), p.low)) == Inserted(order, k, t);
    hide Inserted;
    InsertedAt(order, k, t);
    InsertedRanked(order, live, k, t);
    FindDistinct(Inserted(order, k, t), k);
    hide Order;
    hide OnceEach;
    forall u | u in live ensures Find(Inserted(order, k, t), u) == Shifted(Find(order, u), k) {
      InsertedFind(order, k, t, u);
    }
  }

  lemma FindConcat(a: seq<int>, b: seq<int>, t: int)
    ensures Find(a + b, t) == if Find(a, t) < |a| then Find(a, t) else |a| + Find(b, t)
  {
    var k := if Find(a, t) < |a| then Find(a, t) else |a| + Find(b, t);
    assert forall i :: 0 <= i < |a| ==> (a + b)[i] == a[i];
    assert forall i :: |a| <= i < |a + b| ==> (a + b)[i] == b[i - |a|];
    FindIs(a + b, t, k);
  }

  /** A move empties one slot and fills another. */
  lemma MovedOrder(p: Slots, live: set<int>, k: nat, t: int)
    requires Ranked(p, live) && t in live && k < |p.low| && p.low[k] <= 0
    ensures t > 0 && Find(Order(p), t) < |Order(p)| && |p.high| + k < |Order(p)| && Order(p)[|p.high| + k] <= 0
    ensures Order(Moved(p, k, t)) == Order(p)[Find(Order(p), t) := EMPTY][|p.high| + k := t]
  {
    FindConcat(p.high, p.low, t);
  }

  lemma SwappedDistinct(s: seq<int>, i: nat, j: nat)
    requires OnceEach(s) && i < |s| && j < |s| && s[i] > 0 && s[j] <= 0
    ensures OnceEach(s[i := EMPTY][j := s[i]])
  {
  }

  lemma SwappedFind(s: seq<int>, i: nat, j: nat, u: int)
    requires OnceEach(s) && i < |s| && j < |s| && s[i] > 0 && s[j] <= 0
    requires u in s && u > 0
    ensures u in s[i := EMPTY][j := s[i]]
    ensures Find(s[i := EMPTY][j := s[i]], u) == if u == s[i] then j else Find(s, u)
  {
    var s' := s[i := EMPTY][j := s[i]];
    var k :| 0 <= k < |s| && s[k] == u;
    var k' := if k == i then j else k;
    assert s'[k'] == u;
    SwappedDistinct(s, i, j);
    FindDistinct(s, k);
    FindDistinct(s', k');
  }

  lemma SwappedRanked(s: seq<int>, live: set<int>, i: nat, j: nat)
    requires RankedList(s, live) && i < |s| && j < |s| && s[i] > 0 && s[j] <= 0
    ensures RankedList(s[i := EMPTY][j := s[i]], live)
  {
    var s' := s[i := EMPTY][j := s[i]];
    SwappedDistinct(s, i, j);
    forall u | u in live ensures u in s' {
      SwappedFind(s, i, j, u);
    }
  }

  lemma SwappedPlaces(s: seq<int>, live: set<int>, i: nat, j: nat)
    requires RankedList(s, live) && i < |s| && j < |s| && s[i] > 0 && s[j] <= 0
    ensures forall u :: u in live ==> Find(s[i := EMPTY][j := s[i]], u) == if u == s[i] then j else Find(s, u)
  {
    forall u | u in live ensures Find(s[i := EMPTY][j := s[i]], u) == if u == s[i] then j else Find(s, u) {
      SwappedFind(s, i, j, u);
    }
  }

  /** The moved thread still has exactly one slot, and no other thread lost its own. */
  lemma MoveKeeps(p: Slots, live: set<int>, k: nat, t: int)
    requires Ranked(p, live) && t in live && k < |p.low| && p.low[k] <= 0
    ensures Ranked(Moved(p, k, t), live)
    ensures Find(Order(Moved(p, k, t)), t) == |p.high| + k
    ensures forall u :: u in live && u != t ==> Find(Order(Moved(p, k, t)), u) == Find(Order(p), u)
  {
    hide Moved;
    hide Order;
    hide RankedList;
    hide Find;
    MovedOrder(p, live, k, t);
    SwappedRanked(Order(p), live, Find(Order(p), t), |p.high| + k);
    SwappedPlaces(Order(p), live, Find(Order(p), t), |p.high| + k);
  }

  /** With nothing in the slots after it, the moved thread ranks below every other. */
  lemma MoveDemotes(p: Slots, live: set<int>, k: nat, t: int, u: int)
    requires Ranked(p, live) && t in live && u in live && u != t && k < |p.low|
    requires forall j :: k <= j < |p.low| ==> p.low[j] <= 0
    ensures Find(Order(Moved(p, k, t)), u) < Find(Order(Moved(p, k, t)), t)
  {
    MoveKeeps(p, live, k, t);
    var i :| 0 <= i < |Order(p)| && Order(p)[i] == u;
    FindDistinct(Order(p), i);
  }

  // ----- change points -----

  ghost predicate Increasing(s: seq<int>) {
    forall i, j :: 0 <= i < j < |s| ==> s[i] < s[j]
  }

  /** The last change point equal to `n`, as `find_chgidx` finds it. */
  function ChangeIndex(chg: seq<int>, n: int): (k: int)
    ensures -1 <= k < |chg| && (k >= 0 ==> chg[k] == n) && forall i :: k < i < |chg| ==> chg[i] != n
  {
    if chg == [] then -1
    else if chg[|chg| - 1] == n then |chg| - 1
    else ChangeIndex(chg[..|chg| - 1], n)
  }

  // ----- drawing change points -----

  const RAND_MAX := 0x7fff_ffff

  /** What `rand` returns. */
  type Raw = r: int | 0 <= r <= RAND_MAX

  /** Division and remainder as in C: the quotient is truncated, the remainder has the sign of `a`. */
  function Quotient(a: int, b: int): int
    requires b != 0
  {
    if a >= 0 then a / b else -(-a / b)
  }

  function Rest(a: int, b: int): int
    requires b != 0
  {
    if a >= 0 then a % b else -(-a % b)
  }

  /** One random number, brought down to what `range` allows, and to 1 from below. */
  function Draw(raw: Raw, range: int, seed: int): int
    requires range != 0
  {
    var r := Rest(if seed != 0 then Quotient(raw, seed) else raw, range);
    if r < 1 then 1 else r
  }

  function Least(a: int, b: int): int {
    if a < b then a else b
  }

  function Size(a: int): nat {
    if a < 0 then -a else a
  }

  /** How many different change points there are to draw. */
  function Choices(range: int, seed: int): nat {
    var most := Least(Size(range) - 1, if seed > 0 then RAND_MAX / seed else RAND_MAX);
    if seed < 0 || most < 1 then 1 else most
  }

  lemma DivAtMost(a: nat, b: nat, m: nat)
    requires m > 0 && a <= b
    ensures 0 <= a / m <= b / m
  {
    var d := a / m - b / m;
    assert a == m * (a / m) + a % m;
    assert b == m * (b / m) + b % m;
    assert d * m == (a - a % m) - (b - b % m);
    P2.Multiple(d, m);
  }

  lemma RestBounds(a: int, range: int)
    requires range != 0
    ensures a <= 0 ==> Rest(a, range) <= 0
    ensures a >= 0 ==> 0 <= Rest(a, range) < Size(range) && Rest(a, range) <= a
    ensures 0 <= a < Size(range) ==> Rest(a, range) == a
  {
    if a >= 0 {
      RestNat(a, Size(range));
      RestSize(a, range);
    }
  }

  lemma RestNat(a: nat, m: nat)
    requires m > 0
    ensures 0 <= a % m < m && a % m <= a && (a < m ==> a % m == a)
  {
    if a < m {
      P2.Remainder(a, m, 0, a);
    }
  }

  lemma RestSize(a: nat, range: int)
    requires range != 0
    ensures a % range == a % Size(range)
  {
    var m := Size(range);
    if range < 0 {
      assert a == range * (a / range) + a % range;
      assert range * (a / range) == -(a / range) * m;
      P2.Remainder(a, m, -(a / range), a % range);
    }
  }

  lemma QuotientBounds(raw: Raw, seed: int)
    requires seed != 0
    ensures seed > 0 ==> 0 <= Quotient(raw, seed) <= RAND_MAX / seed
    ensures seed < 0 ==> Quotient(raw, seed) <= 0
  {
    if seed > 0 {
      DivAtMost(raw, RAND_MAX, seed);
    }
  }

  /** A random number that comes out as `d`. */
  function RawFor(d: nat, seed: int): nat {
    if d > 1 && seed > 0 then d * seed else if d > 1 then d else 0
  }

  lemma ScaledRaw(d: nat, seed: nat)
    requires seed > 0 && d <= RAND_MAX / seed
    ensures d * seed <= RAND_MAX && (d * seed) / seed == d
  {
    P2.Remainder(d * seed, seed, d, 0);
    var q := RAND_MAX / seed;
    assert RAND_MAX == seed * q + RAND_MAX % seed;
    assert (q - d) * seed >= 0;
  }

  lemma RawDrawn(d: nat, range: int, seed: int)
    requires range != 0 && 1 <= d <= Choices(range, seed)
    ensures RawFor(d, seed) <= RAND_MAX && Draw(RawFor(d, seed), range, seed) == d
  {
    hide Rest;
    RestBounds(0, range);
    if d > 1 {
      RestBounds(d, range);
      if seed > 0 {
        ScaledRaw(d, seed);
      }
    } else if seed != 0 {
      assert Quotient(0, seed) == 0;
    }
  }

  /** Exactly the numbers from 1 to `Choices` can be drawn. */
  lemma DrawExact(d: int, range: int, seed: int)
    requires range != 0
    ensures (exists raw: Raw :: Draw(raw, range, seed) == d) <==> 1 <= d <= Choices(range, seed)
  {
    if 1 <= d <= Choices(range, seed) {
      RawDrawn(d, range, seed);
      var raw: Raw := RawFor(d, seed);
      assert Draw(raw, range, seed) == d;
    }
    forall raw: Raw ensures 1 <= Draw(raw, range, seed) <= Choices(range, seed) {
      DrawBound(raw, range, seed);
    }
  }

  lemma DrawBound(raw: Raw, range: int, seed: int)
    requires range != 0
    ensures 1 <= Draw(raw, range, seed) <= Choices(range, seed)
  {
    hide Rest;
    hide Quotient;
    if seed != 0 {
      QuotientBounds(raw, seed);
      RestBounds(Quotient(raw, seed), range);
    } else {
      RestBounds(raw, range);
    }
  }

  /** The different numbers among the first `n` drawn, in the order drawn. */
  function Kept(draws: seq<Raw>, range: int, seed: int, n: nat): seq<int>
    requires range != 0 && n <= |draws|
  {
    if n == 0 then []
    else
      var kept, d := Kept(draws, range, seed, n - 1), Draw(draws[n - 1], range, seed);
      if d in kept then kept else kept + [d]
  }

  lemma {:induction false} KeptRange(draws: seq<Raw>, range: int, seed: int, n: nat)
    requires range != 0 && n <= |draws|
    ensures Distinct(Kept(draws, range, seed, n))
    ensures forall x :: x in Kept(draws, range, seed, n) ==> 1 <= x <= Choices(range, seed)
  {
    hide Draw;
    hide Choices;
    if n > 0 {
      KeptRange(draws, range, seed, n - 1);
      DrawBound(draws[n - 1], range, seed);
    }
  }

  lemma {:induction false} KeptGrows(draws: seq<Raw>, range: int, seed: int, m: nat, n: nat)
    requires range != 0 && m <= n <= |draws|
    ensures Kept(draws, range, seed, m) <= Kept(draws, range, seed, n)
  {
    if m < n {
      KeptGrows(draws, range, seed, m, n - 1);
    }
  }

  lemma {:induction false} DistinctBound(s: seq<int>, n: nat)
    requires Distinct(s) && forall i :: 0 <= i < |s| ==> 1 <= s[i] <= n
    ensures |s| <= n
  {
    if n in s {
      var i :| 0 <= i < |s| && s[i] == n;
      DistinctBound(s[..i] + s[i + 1..], n - 1);
    } else if s != [] {
      var first := s[0];
      DistinctBound(s, n - 1);
    }
  }

  /** However much is drawn, it never yields more different numbers than there are. */
  lemma DrawsRunOut(draws: seq<Raw>, range: int, seed: int)
    requires range != 0
    ensures |Kept(draws, range, seed, |draws|)| <= Choices(range, seed)
  {
    hide Choices;
    KeptRange(draws, range, seed, |draws|);
    var kept := Kept(draws, range, seed, |draws|);
    forall i | 0 <= i < |kept| ensures 1 <= kept[i] <= Choices(range, seed) {
      assert kept[i] in kept;
    }
    DistinctBound(kept, Choices(range, seed));
  }

  lemma {:induction false} DrawnKept(draws: seq<Raw>, range: int, seed: int, n: nat, i: nat)
    requires range != 0 && i < n <= |draws|
    ensures Draw(draws[i], range, seed) in Kept(draws, range, seed, n)
  {
    if i < n - 1 {
      DrawnKept(draws, range, seed, n - 1, i);
    }
  }

  lemma {:induction false} ContainsBound(s: seq<int>, n: nat)
    requires forall d :: 1 <= d <= n ==> d in s
    ensures n <= |s|
  {
    if n > 0 {
      assert n in s;
      var i :| 0 <= i < |s| && s[i] == n;
      var rest := s[..i] + s[i + 1..];
      forall d | 1 <= d <= n - 1 ensures d in rest {
        assert d in s;
        var j :| 0 <= j < |s| && s[j] == d;
        assert rest[if j < i then j else j - 1] == d;
      }
      ContainsBound(rest, n - 1);
    }
  }

  lemma {:induction false} RawsFor(n: nat, range: int, seed: int) returns (raws: seq<Raw>)
    requires range != 0 && n <= Choices(range, seed)
    ensures |raws| == n && forall i :: 0 <= i < n ==> Draw(raws[i], range, seed) == i + 1
  {
    hide Draw;
    hide Choices;
    hide RawFor;
    if n == 0 {
      raws := [];
    } else {
      raws := RawsFor(n - 1, range, seed);
      RawDrawn(n, range, seed);
      raws := raws + [RawFor(n, seed)];
    }
  }

  /**
   Whatever was drawn before, drawing on can yield `bugdepth` different change points if and only
   if there are that many: then, and only then, can the loop end.
   */
  lemma DrawsSuffice(draws: seq<Raw>, bugdepth: int, range: int, seed: int)
    requires range != 0
    ensures (exists more: seq<Raw> :: bugdepth <= |Kept(draws + more, range, seed, |draws + more|)|) <==> bugdepth <= Choices(range, seed)
  {
    hide Draw;
    hide Choices;
    var more := RawsFor(Choices(range, seed), range, seed);
    var all := draws + more;
    var kept := Kept(all, range, seed, |all|);
    forall d | 1 <= d <= Choices(range, seed) ensures d in kept {
      assert all[|draws| + d - 1] == more[d - 1];
      DrawnKept(all, range, seed, |all|, |draws| + d - 1);
    }
    ContainsBound(kept, Choices(range, seed));
    forall more: seq<Raw> ensures |Kept(draws + more, range, seed, |draws + more|)| <= Choices(range, seed) {
      DrawsRunOut(draws + more, range, seed);
    }
  }

  /** A large seed leaves one change point to draw, although the range has room for more. */
  lemma LargeSeedStuck(draws: seq<Raw>)
    ensures |Kept(draws, 100, 1234567890, |draws|)| < 2
  {
    DrawsRunOut(draws, 100, 1234567890);
  }

  /** So does a negative one, with any range. */
  lemma NegativeSeedStuck(draws: seq<Raw>, range: int, seed: int)
    requires range != 0 && seed < 0
    ensures |Kept(draws, range, seed, |draws|)| < 2
  {
    DrawsRunOut(draws, range, seed);
  }

  // ----- runs -----

  /** `count` is the number of counted instructions; `live` are the threads added. */
  datatype State = State(slots: Slots, live: set<int>, count: nat)

  datatype Event = Add(t: int, k: nat) | Count(avail: seq<int>)

  function Start(bugdepth: int): Slots {
    Slots([], if bugdepth > 1 then seq(bugdepth, _ => EMPTY) else [0])
  }

  ghost predicate CanHappen(s: State, e: Event) {
    match e
    case Add(t, k) => t > 0 && t !in s.live && k <= |s.slots.high|
    case Count(avail) => Available(avail, s.live)
  }

  /** At a change point the highest available thread moves to the low slot of that point. */
  function Next(chg: seq<int>, s: State, e: Event): State
    requires |chg| <= |s.slots.low|
    requires e.Add? ==> e.k <= |s.slots.high|
  {
    match e
    case Add(t, k) => s.(slots := Slots(Inserted(s.slots.high, k, t), s.slots.low), live := s.live + {t})
    case Count(avail) =>
      var k := ChangeIndex(chg, s.count + 1);
      var s' := s.(count := s.count + 1);
      if k < 0 then s' else s'.(slots := Moved(s.slots, k, Highest(s.slots, avail)))
  }

  /** The low slots of change points still to come are free. */
  ghost predicate StillFree(chg: seq<int>, s: State) {
    && |chg| <= |s.slots.low|
    && forall k :: 0 <= k < |s.slots.low| && (k < |chg| ==> chg[k] > s.count) ==> s.slots.low[k] <= 0
  }

  ghost predicate Inv(chg: seq<int>, s: State) {
    Ranked(s.slots, s.live) && StillFree(chg, s)
  }

  /** A change point finds its low slot free, and so are the slots after it. */
  lemma SlotFree(chg: seq<int>, s: State, j: nat)
    requires Increasing(chg) && StillFree(chg, s)
    requires 0 <= ChangeIndex(chg, s.count + 1) <= j < |s.slots.low|
    ensures s.slots.low[j] <= 0
  {
    var k := ChangeIndex(chg, s.count + 1);
    assert j < |chg| && k < j ==> chg[k] < chg[j];
  }

  lemma StepKeeps(chg: seq<int>, s: State, e: Event)
    requires Increasing(chg) && Inv(chg, s) && CanHappen(s, e)
    ensures Inv(chg, Next(chg, s, e))
  {
    match e
    case Add(t, k) => AddKeeps(s.slots, s.live, k, t);
    case Count(avail) =>
      var k := ChangeIndex(chg, s.count + 1);
      if k >= 0 {
        var t := Highest(s.slots, avail);
        HighestRanks(s.slots, s.live, avail, avail[0]);
        SlotFree(chg, s, k);
        MoveKeeps(s.slots, s.live, k, t);
        MoveFrees(s.slots, k, t);
        forall j | 0 <= j < |s.slots.low| && (j < |chg| ==> chg[j] > s.count + 1)
          ensures Next(chg, s, e).slots.low[j] <= 0
        {
          assert j != k;
        }
      }
  }

  /** Only the slot moved to is filled. */
  lemma MoveFrees(p: Slots, k: nat, t: int)
    requires k < |p.low|
    ensures |Moved(p, k, t).low| == |p.low|
    ensures forall j :: 0 <= j < |p.low| && j != k ==> Moved(p, k, t).low[j] in {p.low[j], EMPTY}
  {
  }

  ghost predicate IsRun(bugdepth: int, chg: seq<int>, ss: seq<State>, es: seq<Event>) {
    && Increasing(chg) && |chg| == (if bugdepth <= 0 then 0 else bugdepth)
    && |ss| == |es| + 1 && ss[0] == State(Start(bugdepth), {}, 0)
    && (forall i :: 0 <= i <= |es| ==> |chg| <= |ss[i].slots.low|)
    && (forall i :: 0 <= i < |es| ==> CanHappen(ss[i], es[i]) && ss[i + 1] == Next(chg, ss[i], es[i]))
  }

  /** In every run each added thread sits in exactly one slot. */
  lemma {:induction false} RunRanked(bugdepth: int, chg: seq<int>, ss: seq<State>, es: seq<Event>, i: nat)
    requires IsRun(bugdepth, chg, ss, es) && i < |ss|
    ensures Inv(chg, ss[i])
  {
    if i > 0 {
      RunRanked(bugdepth, chg, ss, es, i - 1);
      StepKeeps(chg, ss[i - 1], es[i - 1]);
    }
  }

  /** The low slot event `i` fills, or -1. */
  function Fills(chg: seq<int>, s: State, e: Event): int {
    if e.Count? then ChangeIndex(chg, s.count + 1) else -1
  }

  /** In every run the thread just moved ranks below every other, and the others keep their places. */
  lemma RunDemotes(bugdepth: int, chg: seq<int>, ss: seq<State>, es: seq<Event>, i: nat, u: int)
    requires IsRun(bugdepth, chg, ss, es) && i < |es| && Fills(chg, ss[i], es[i]) >= 0
    requires u in ss[i].live && u != Highest(ss[i].slots, es[i].avail)
    ensures var t := Highest(ss[i].slots, es[i].avail);
            && Find(Order(ss[i + 1].slots), u) < Find(Order(ss[i + 1].slots), t)
            && Find(Order(ss[i + 1].slots), u) == Find(Order(ss[i].slots), u)
  {
    RunRanked(bugdepth, chg, ss, es, i);
    var s, avail := ss[i], es[i].avail;
    var k, t := ChangeIndex(chg, s.count + 1), Highest(s.slots, avail);
    HighestRanks(s.slots, s.live, avail, avail[0]);
    forall j | k <= j < |s.slots.low| ensures s.slots.low[j] <= 0 {
      SlotFree(chg, s, j);
    }
    MoveDemotes(s.slots, s.live, k, t, u);
    MoveKeeps(s.slots, s.live, k, t);
  }

  lemma {:induction false} CountGrows(bugdepth: int, chg: seq<int>, ss: seq<State>, es: seq<Event>, i: nat, j: nat)
    requires IsRun(bugdepth, chg, ss, es) && i < j <= |es|
    ensures ss[j].count >= ss[i].count + (if es[i].Count? then 1 else 0)
  {
    assert ss[j] == Next(chg, ss[j - 1], es[j - 1]);
    if i < j - 1 {
      CountGrows(bugdepth, chg, ss, es, i, j - 1);
    }
  }

  /** In every run the low slots are filled in ascending order, so each at most once, and each found free. */
  lemma RunFillsOnce(bugdepth: int, chg: seq<int>, ss: seq<State>, es: seq<Event>, i: nat, j: nat)
    requires IsRun(bugdepth, chg, ss, es) && i < j < |es|
    requires Fills(chg, ss[i], es[i]) >= 0 && Fills(chg, ss[j], es[j]) >= 0
    ensures Fills(chg, ss[i], es[i]) < Fills(chg, ss[j], es[j])
    ensures ss[j].slots.low[Fills(chg, ss[j], es[j])] <= 0
  {
    CountGrows(bugdepth, chg, ss, es, i, j);
    RunRanked(bugdepth, chg, ss, es, j);
    SlotFree(chg, ss[j], Fills(chg, ss[j], es[j]));
  }
}
