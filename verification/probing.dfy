/**
 Linear probing on a cyclic table, as values: what keeps every key reachable from its home
 slot, through insertion and through removal by shifting entries back.
 */
module Probing {
  /** A slot without a key is free; key 0 is kept elsewhere. */
  datatype Slot = Slot(key: nat, val: nat)

  const FREE := Slot(0, 0)

  type Home = nat -> nat

  /** How many steps forward from `a` to `b` in a cyclic table of `n` slots. */
  function Dist(n: nat, a: nat, b: nat): (d: nat)
    requires a < n && b < n
    ensures d < n && (d == 0 <==> a == b)
  {
    if a <= b then b - a else b - a + n
  }

  function Next(n: nat, a: nat): (b: nat)
    requires a < n
    ensures b < n
  {
    if a + 1 == n then 0 else a + 1
  }

  ghost predicate Shaped(t: seq<Slot>, home: Home) {
    && (forall k :: home(k) < |t|)
    && (forall i :: 0 <= i < |t| && t[i].key == 0 ==> t[i] == FREE)
  }

  /** No key twice, and each key's entry as the map has it. */
  ghost predicate Holds(t: seq<Slot>, m: map<nat, nat>) {
    && 0 !in m
    && (forall i, j :: 0 <= i < j < |t| && t[i].key != 0 ==> t[i].key != t[j].key)
    && (forall i :: 0 <= i < |t| && t[i].key != 0 ==> t[i].key in m && m[t[i].key] == t[i].val)
    && (forall k {:trigger Stored(t, k)} :: k in m ==> Stored(t, k))
  }

  ghost predicate Stored(t: seq<Slot>, k: nat) {
    exists i :: 0 <= i < |t| && t[i].key == k
  }

  /** Slot `j` is on the way from the home of slot `i`'s key to slot `i`. */
  predicate OnPath(t: seq<Slot>, home: Home, i: nat, j: nat)
    requires i < |t| && j < |t| && home(t[i].key) < |t|
  {
    Dist(|t|, home(t[i].key), j) < Dist(|t|, home(t[i].key), i)
  }

  /** No way from a home to its key passes a free slot, except possibly the slot `hole`. */
  ghost predicate NoGap(t: seq<Slot>, home: Home, hole: nat)
    requires Shaped(t, home)
  {
    forall i, j :: 0 <= i < |t| && 0 <= j < |t| && t[i].key != 0 && OnPath(t, home, i, j) ==> t[j].key != 0 || j == hole
  }

  ghost predicate Table(t: seq<Slot>, home: Home, m: map<nat, nat>) {
    Shaped(t, home) && Holds(t, m) && NoGap(t, home, |t|)
  }

  // ----- searching -----

  /** A search along the way from a key's home that meets a free slot first proves it absent. */
  lemma FreeMeansAbsent(t: seq<Slot>, home: Home, m: map<nat, nat>, key: nat, p: nat)
    requires Table(t, home, m) && p < |t| && t[p].key == 0
    requires forall j :: 0 <= j < |t| && Dist(|t|, home(key), j) < Dist(|t|, home(key), p) ==> t[j].key != key
    ensures key !in m
  {
    if key in m {
      assert Stored(t, key);
      var i :| 0 <= i < |t| && t[i].key == key;
      assert OnPath(t, home, i, p);
      assert false;
    }
  }

  /** Every slot on the way from the key's home to `index` is taken by another key. */
  ghost predicate Searched(t: seq<Slot>, home: Home, key: nat, index: nat) {
    && home(key) < |t| && index < |t|
    && forall j :: 0 <= j < |t| && Dist(|t|, home(key), j) < Dist(|t|, home(key), index) ==> t[j].key != 0 && t[j].key != key
  }

  lemma SearchStart(t: seq<Slot>, home: Home, key: nat)
    requires home(key) < |t|
    ensures Searched(t, home, key, home(key))
  {
  }

  /** The search goes on: it never comes back to where it started. */
  lemma SearchOn(t: seq<Slot>, home: Home, m: map<nat, nat>, key: nat, index: nat)
    requires Table(t, home, m) && |m| < |t| && Searched(t, home, key, index)
    requires t[index].key != 0 && t[index].key != key
    ensures Searched(t, home, key, Next(|t|, index)) && Next(|t|, index) != home(key)
    ensures Dist(|t|, home(key), Next(|t|, index)) == Dist(|t|, home(key), index) + 1
  {
    var z := SomeFree(t, m);
    assert Dist(|t|, home(key), z) > Dist(|t|, home(key), index);
  }

  /** The slot where a search stops tells whether the key is stored. */
  lemma SearchEnds(t: seq<Slot>, home: Home, m: map<nat, nat>, key: nat, index: nat)
    requires Table(t, home, m) && Searched(t, home, key, index) && key != 0
    requires t[index].key == 0 || t[index].key == key
    ensures if key in m then t[index] == Slot(key, m[key]) else t[index].key == 0
  {
    if t[index].key == 0 {
      FreeMeansAbsent(t, home, m, key, index);
    }
  }

  ghost predicate StoredBefore(t: seq<Slot>, b: nat, k: nat)
    requires b <= |t|
  {
    exists i :: 0 <= i < b && t[i].key == k
  }

  function KeysTo(t: seq<Slot>, n: nat): set<nat>
    requires n <= |t|
  {
    if n == 0 then {} else KeysTo(t, n - 1) + {t[n - 1].key}
  }

  lemma {:induction false} KeysToSize(t: seq<Slot>, m: map<nat, nat>, n: nat)
    requires Holds(t, m) && n <= |t| && forall i :: 0 <= i < n ==> t[i].key != 0
    ensures |KeysTo(t, n)| == n && KeysTo(t, n) <= m.Keys
    ensures forall k {:trigger StoredBefore(t, n, k)} :: k in KeysTo(t, n) ==> StoredBefore(t, n, k)
  {
    if n > 0 {
      KeysToSize(t, m, n - 1);
      assert !StoredBefore(t, n - 1, t[n - 1].key);
      assert t[n - 1].key !in KeysTo(t, n - 1);
      forall k | k in KeysTo(t, n) ensures StoredBefore(t, n, k) {
        assert k == t[n - 1].key || StoredBefore(t, n - 1, k);
      }
    }
  }

  lemma {:induction false} SubsetSize(a: set<nat>, b: set<nat>)
    requires a <= b
    ensures |a| <= |b|
  {
    if a != {} {
      var x :| x in a;
      SubsetSize(a - {x}, b - {x});
    }
  }

  /** With fewer keys than slots, some slot is free, so every search ends. */
  lemma SomeFree(t: seq<Slot>, m: map<nat, nat>) returns (z: nat)
    requires Holds(t, m) && |m| < |t|
    ensures z < |t| && t[z].key == 0
  {
    if forall i :: 0 <= i < |t| ==> t[i].key != 0 {
      KeysToSize(t, m, |t|);
      SubsetSize(KeysTo(t, |t|), m.Keys);
      assert false;
    }
    z :| 0 <= z < |t| && t[z].key == 0;
  }

  // ----- inserting -----

  /** Taking the first free slot on the way from a new key's home keeps the table in order. */
  lemma Inserted(t: seq<Slot>, home: Home, m: map<nat, nat>, p: nat, key: nat, val: nat)
    requires Table(t, home, m) && p < |t| && key != 0 && key !in m && t[p].key == 0
    requires forall j :: 0 <= j < |t| && Dist(|t|, home(key), j) < Dist(|t|, home(key), p) ==> t[j].key != 0
    ensures Table(t[p := Slot(key, val)], home, m[key := val])
  {
    var u, m' := t[p := Slot(key, val)], m[key := val];
    assert Stored(u, key) by {
      assert u[p].key == key;
    }
    forall k | k in m ensures Stored(u, k) {
      assert Stored(t, k);
      var i :| 0 <= i < |t| && t[i].key == k;
      assert u[i].key == k;
    }
    forall i, j | 0 <= i < |u| && 0 <= j < |u| && u[i].key != 0 && OnPath(u, home, i, j) ensures u[j].key != 0 || j == |u| {
      assert i != p ==> OnPath(t, home, i, j);
    }
  }

  lemma InsertedAt(t: seq<Slot>, home: Home, m: map<nat, nat>, p: nat, key: nat, val: nat)
    requires Table(t, home, m) && Searched(t, home, key, p) && key != 0 && key !in m && t[p].key == 0
    ensures Table(t[p := Slot(key, val)], home, m[key := val])
  {
    Inserted(t, home, m, p, key, val);
  }

  /** Replacing the value of a stored key. */
  lemma Replaced(t: seq<Slot>, home: Home, m: map<nat, nat>, p: nat, val: nat)
    requires Table(t, home, m) && p < |t| && t[p].key != 0
    ensures Table(t[p := Slot(t[p].key, val)], home, m[t[p].key := val])
  {
    var u := t[p := Slot(t[p].key, val)];
    forall k | k in m ensures Stored(u, k) {
      assert Stored(t, k);
      var i :| 0 <= i < |t| && t[i].key == k;
      assert u[i].key == k;
    }
    forall i, j | 0 <= i < |u| && 0 <= j < |u| && u[i].key != 0 && OnPath(u, home, i, j) ensures u[j].key != 0 || j == |u| {
      assert OnPath(t, home, i, j);
    }
  }

  // ----- copying into a larger table -----

  /** `u` with map `m'` holds exactly the entries of the first `b` slots of `t`, whose map is `m`. */
  ghost predicate Copied(t: seq<Slot>, m: map<nat, nat>, b: nat, m': map<nat, nat>) {
    && b <= |t| && Holds(t, m)
    && (forall k :: k in m' ==> k in m && m'[k] == m[k])
    && (forall i :: 0 <= i < b && t[i].key != 0 ==> t[i].key in m')
    && (forall k :: k in m' ==> StoredBefore(t, b, k))
  }

  lemma CopiedNone(t: seq<Slot>, home: Home, m: map<nat, nat>)
    requires Table(t, home, m)
    ensures Copied(t, m, 0, map[])
  {
  }

  lemma CopiedNext(t: seq<Slot>, m: map<nat, nat>, b: nat, m': map<nat, nat>)
    requires Copied(t, m, b, m') && b < |t|
    ensures t[b].key == 0 ==> Copied(t, m, b + 1, m')
    ensures t[b].key != 0 ==> t[b].key !in m' && Copied(t, m, b + 1, m'[t[b].key := t[b].val])
  {
    forall k | k in m' ensures StoredBefore(t, b + 1, k) && (k == t[b].key ==> k == 0) {
      assert StoredBefore(t, b, k);
    }
    assert StoredBefore(t, b + 1, t[b].key);
  }

  lemma CopiedSize(t: seq<Slot>, m: map<nat, nat>, b: nat, m': map<nat, nat>)
    requires Copied(t, m, b, m')
    ensures |m'| <= |m|
    ensures b == |t| ==> m' == m
  {
    SubsetSize(m'.Keys, m.Keys);
    assert |m'| == |m'.Keys| && |m| == |m.Keys|;
    if b == |t| {
      forall k | k in m ensures k in m' {
        assert Stored(t, k);
      }
    }
  }

  // ----- removing -----

  /** An entry at `j` may stay although `hole` is free: its home lies after the hole, up to `j`. */
  predicate MayStay(n: nat, hole: nat, h: nat, j: nat)
    requires hole < n && h < n && j < n
  {
    0 < Dist(n, hole, h) <= Dist(n, hole, j)
  }

  /** The entries after the hole up to `j` have been looked at, and all may stay. */
  ghost predicate Shifting(t: seq<Slot>, home: Home, m: map<nat, nat>, hole: nat, j: nat) {
    && Shaped(t, home) && Holds(t, m) && NoGap(t, home, hole)
    && hole < |t| && j < |t| && t[hole] == FREE
    && forall i :: 0 <= i < |t| && 0 < Dist(|t|, hole, i) <= Dist(|t|, hole, j) ==>
         t[i].key != 0 && MayStay(|t|, hole, home(t[i].key), i)
  }

  lemma ShiftStart(t: seq<Slot>, home: Home, m: map<nat, nat>, p: nat)
    requires Table(t, home, m) && p < |t| && t[p].key != 0
    ensures Shifting(t[p := FREE], home, m - {t[p].key}, p, p)
  {
    var u, m' := t[p := FREE], m - {t[p].key};
    forall k | k in m' ensures Stored(u, k) {
      assert Stored(t, k);
      var i :| 0 <= i < |t| && t[i].key == k;
      assert u[i].key == k;
    }
    forall i, j | 0 <= i < |u| && 0 <= j < |u| && u[i].key != 0 && OnPath(u, home, i, j) ensures u[j].key != 0 || j == p {
      assert OnPath(t, home, i, j);
    }
  }

  lemma ShiftPast(t: seq<Slot>, home: Home, m: map<nat, nat>, hole: nat, j: nat)
    requires Shifting(t, home, m, hole, j)
    requires t[Next(|t|, j)].key != 0 && MayStay(|t|, hole, home(t[Next(|t|, j)].key), Next(|t|, j))
    ensures Shifting(t, home, m, hole, Next(|t|, j))
  {
    var n, j' := |t|, Next(|t|, j);
    forall i | 0 <= i < n && 0 < Dist(n, hole, i) <= Dist(n, hole, j')
      ensures t[i].key != 0 && MayStay(n, hole, home(t[i].key), i)
    {
      assert i == j' || Dist(n, hole, i) <= Dist(n, hole, j);
    }
  }

  function Moved(t: seq<Slot>, hole: nat, j: nat): seq<Slot>
    requires hole < |t| && j < |t|
  {
    t[hole := t[j]][j := FREE]
  }

  lemma MovedHolds(t: seq<Slot>, m: map<nat, nat>, hole: nat, j: nat)
    requires Holds(t, m) && hole < |t| && j < |t| && hole != j && t[hole] == FREE && t[j].key != 0
    ensures Holds(Moved(t, hole, j), m)
  {
    var u := Moved(t, hole, j);
    forall k | k in m ensures Stored(u, k) {
      assert Stored(t, k);
      var i :| 0 <= i < |t| && t[i].key == k;
      assert u[if i == j then hole else i].key == k;
    }
  }

  lemma MovedNoGap(t: seq<Slot>, home: Home, hole: nat, j: nat)
    requires Shaped(t, home) && NoGap(t, home, hole) && hole < |t| && j < |t| && hole != j
    requires t[hole] == FREE && t[j].key != 0 && !MayStay(|t|, hole, home(t[j].key), j)
    ensures Shaped(Moved(t, hole, j), home) && NoGap(Moved(t, hole, j), home, j)
  {
    var u := Moved(t, hole, j);
    forall i, q | 0 <= i < |u| && 0 <= q < |u| && u[i].key != 0 && OnPath(u, home, i, q) ensures u[q].key != 0 || q == j {
      var i' := if i == hole then j else i;
      assert t[i'].key == u[i].key;
      assert OnPath(t, home, i', q);
    }
  }

  /** An entry that may not stay fills the hole and leaves one behind. */
  lemma ShiftBack(t: seq<Slot>, home: Home, m: map<nat, nat>, hole: nat, j: nat)
    requires Shifting(t, home, m, hole, j)
    requires t[Next(|t|, j)].key != 0 && !MayStay(|t|, hole, home(t[Next(|t|, j)].key), Next(|t|, j))
    ensures Shifting(Moved(t, hole, Next(|t|, j)), home, m, Next(|t|, j), Next(|t|, j))
  {
    MovedHolds(t, m, hole, Next(|t|, j));
    MovedNoGap(t, home, hole, Next(|t|, j));
  }

  /** At the first free slot nothing is left whose way passes the hole. */
  lemma ShiftDone(t: seq<Slot>, home: Home, m: map<nat, nat>, hole: nat, j: nat)
    requires Shifting(t, home, m, hole, j) && t[Next(|t|, j)].key == 0
    ensures Table(t, home, m)
  {
    var n, j' := |t|, Next(|t|, j);
    forall i | 0 <= i < n && t[i].key != 0 && OnPath(t, home, i, hole) ensures false {
      if Dist(n, hole, i) > Dist(n, hole, j) {
        assert j' != hole && OnPath(t, home, i, j');
      }
      assert false;
    }
  }

  lemma ShiftingInside(t: seq<Slot>, home: Home, m: map<nat, nat>, hole: nat, j: nat)
    requires Shifting(t, home, m, hole, j)
    ensures hole < |t| && j < |t|
  {
  }

  lemma FreeIsEmpty(t: seq<Slot>, home: Home, m: map<nat, nat>, hole: nat, j: nat, i: nat)
    requires Shifting(t, home, m, hole, j) && i < |t|
    ensures hole < |t| && t[hole] == FREE && (t[i].key == 0 ==> t[i].val == 0)
  {
  }

  lemma TableFree(t: seq<Slot>, home: Home, m: map<nat, nat>) returns (z: nat)
    requires Table(t, home, m) && |m| < |t|
    ensures z < |t| && t[z].key == 0
  {
    z := SomeFree(t, m);
  }

  /** The two comparisons of the source, for a hole before and after the entry, are one cyclic test. */
  lemma StayTest(n: nat, index: nat, h: nat, j: nat)
    requires index < n && h < n && j < n && index != j
    ensures (index <= j && index < h && h <= j) || (index > j && (index < h || h <= j)) <==> MayStay(n, index, h, j)
  {
  }
}
