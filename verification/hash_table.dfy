/**
 The hash table: linear probing with a slot array that grows, a separate slot for key 0, and
 removal that shifts entries back. It refines a finite map for every hash function.
 */
module HashTables {
  import opened Options
  import opened PowersOfTwo
  import opened Probing

  /** The home slot of every key: its hash under the capacity mask. */
  function Masked(hash: nat -> nat, n: nat): Home
    requires n > 0
  {
    k => And(hash(k), n - 1)
  }

  lemma MaskedInside(hash: nat -> nat, n: nat)
    requires IsPower(n)
    ensures n > 0 && forall k :: Masked(hash, n)(k) < n
  {
    forall k ensures Masked(hash, n)(k) < n {
      MaskIsRemainder(hash(k), n);
    }
  }

  lemma HomeOf(hash: nat -> nat, n: nat, key: nat)
    requires IsPower(n)
    ensures n > 0 && And(hash(key), n - 1) == Masked(hash, n)(key) < n
  {
    MaskIsRemainder(hash(key), n);
  }

  /** A masked index that was just incremented is the next slot. */
  lemma NextSlot(index: nat, n: nat)
    requires IsPower(n) && index < n
    ensures And(index + 1, n - 1) == Next(n, index)
  {
    MaskSmall(index + 1, n);
  }

  lemma EmptyTable(t: seq<Slot>, hash: nat -> nat)
    requires IsPower(|t|) && forall i :: 0 <= i < |t| ==> t[i] == FREE
    ensures Table(t, Masked(hash, |t|), map[])
  {
    MaskedInside(hash, |t|);
  }

  /** The map that the entries and the separate slot for key 0 make together. */
  function Whole(m: map<nat, nat>, zero: Option<nat>): map<nat, nat> {
    if zero.Some? then m[0 := zero.value] else m
  }

  lemma WholeLess(m: map<nat, nat>, zero: Option<nat>, k: nat)
    requires 0 !in m
    ensures k != 0 ==> Whole(m - {k}, zero) == Whole(m, zero) - {k}
    ensures Whole(m, None) == Whole(m, zero) - {0}
    ensures k !in m ==> m - {k} == m
  {
  }

  lemma OneLess(m: map<nat, nat>, k: nat)
    requires k in m
    ensures |m - {k}| == |m| - 1
  {
    assert (m - {k}).Keys == m.Keys - {k};
    assert |(m - {k}).Keys| == |m - {k}| && |m.Keys| == |m|;
  }

  class HashTable {
    const hash: nat -> nat
    var table: array<Slot>
    var zero: Option<nat>
    var capacity: nat
    var size: nat
    var capacitymask: nat
    var threshold: nat
    ghost var contents: map<nat, nat>  // the entries with a key other than 0

    ghost predicate Valid()
      reads this, table
    {
      && capacity == table.Length >= 4 && IsPower(capacity) && capacitymask == capacity - 1 && threshold == capacity / 2
      && size == |contents| + (if zero.Some? then 1 else 0) && |contents| <= threshold + 1
      && 0 !in contents && Table(table[..], Masked(hash, capacity), contents)
    }

    ghost function Map(): map<nat, nat>
      reads this
    {
      Whole(contents, zero)
    }

    /** An empty table with the default load factor of one half. */
    constructor (initialcapacity: nat, hash: nat -> nat)
      requires IsPower(initialcapacity) && initialcapacity >= 4
      ensures Valid() && fresh(table) && Map() == map[] && this.hash == hash
    {
      this.hash := hash;
      table := new Slot[initialcapacity](_ => FREE);
      zero, capacity, capacitymask := None, initialcapacity, initialcapacity - 1;
      threshold, size, contents := initialcapacity / 2, 0, map[];
      new;
      EmptyTable(table[..], hash);
    }

    /** Where the key is, or else the free slot that ends the search for it. */
    method Search(key: nat) returns (index: nat)
      requires Valid() && key != 0
      ensures index < table.Length && Searched(table[..], Masked(hash, capacity), key, index)
      ensures if key in contents then table[index] == Slot(key, contents[key]) else table[index].key == 0
    {
      hide Searched;
      hide Table;
      hide And;
      hide IsPower;
      hide Masked;
      hide Dist;
      hide Next;
      ghost var t, home := table[..], Masked(hash, capacity);
      HomeOf(hash, capacity, key);
      SearchStart(t, home, key);
      index := And(hash(key), capacitymask);
      while table[index].key != 0 && table[index].key != key
        invariant index < table.Length && Searched(t, home, key, index)
        decreases capacity - Dist(capacity, home(key), index)
      {
        SearchOn(t, home, contents, key, index);
        NextSlot(index, capacity);
        index := And(index + 1, capacitymask);
      }
      SearchEnds(t, home, contents, key, index);
    }

    /** `get`: the stored value, or 0. */
    method Get(key: nat) returns (val: nat)
      requires Valid()
      ensures val == if key in Map() then Map()[key] else 0
    {
      hide Searched;
      hide Table;
      hide Masked;
      hide IsPower;
      if key == 0 {
        return if zero.Some? then zero.value else 0;
      }
      var index := Search(key);
      val := if table[index].key == 0 then 0 else table[index].val;
    }

    method Contains(key: nat) returns (found: bool)
      requires Valid()
      ensures found <==> key in Map()
    {
      if key == 0 {
        return zero.Some?;
      }
      var index := Search(key);
      found := table[index].key != 0;
    }

    /** `put`: the table grows first when it is more than half full. */
    method Put(key: nat, val: nat)
      requires Valid()
      modifies this, table
      ensures Valid() && Map() == old(Map())[key := val]
      ensures table == old(table) || fresh(table)
    {
      hide Searched;
      hide Table;
      hide Masked;
      hide IsPower;
      if key == 0 {
        if zero.None? {
          size := size + 1;
        }
        zero := Some(val);
        return;
      }
      if size > threshold {
        PowerTwice(capacity);
        Resize(capacity * 2);
      }
      var index := Search(key);
      PutAt(index, key, val);
    }

    method PutAt(index: nat, key: nat, val: nat)
      requires Valid() && key != 0 && index < table.Length && Searched(table[..], Masked(hash, capacity), key, index)
      requires if key in contents then table[index].key == key else table[index].key == 0 && |contents| <= threshold
      modifies this, table
      ensures Valid() && table == old(table) && Map() == old(Map())[key := val]
    {
      hide Searched;
      hide Table;
      hide Masked;
      hide IsPower;
      ghost var t, home := table[..], Masked(hash, capacity);
      if table[index].key == key {
        Replaced(t, home, contents, index, val);
      } else {
        InsertedAt(t, home, contents, index, key, val);
        size := size + 1;
      }
      table[index] := Slot(key, val);
      contents := contents[key := val];
      assert table[..] == t[index := Slot(key, val)];
    }

    /** The first free slot on the way from a key's home in a table under construction. */
    method FreeSlot(made: array<Slot>, key: nat, ghost m: map<nat, nat>) returns (index: nat)
      requires IsPower(made.Length) && |m| < made.Length && Table(made[..], Masked(hash, made.Length), m) && key !in m
      ensures index < made.Length && made[index].key == 0
      ensures Searched(made[..], Masked(hash, made.Length), key, index)
    {
      hide Searched;
      hide And;
      hide IsPower;
      hide Masked;
      hide Dist;
      hide Next;
      ghost var t, home := made[..], Masked(hash, made.Length);
      HomeOf(hash, made.Length, key);
      SearchStart(t, home, key);
      index := And(hash(key), made.Length - 1);
      while made[index].key != 0
        invariant index < made.Length && Searched(t, home, key, index)
        decreases made.Length - Dist(made.Length, home(key), index)
      {
        SearchOn(t, home, m, key, index);
        NextSlot(index, made.Length);
        index := And(index + 1, made.Length - 1);
      }
    }

    /** `resize`: every entry moves to its place in a new table. */
    method Resize(newsize: nat)
      requires Valid() && IsPower(newsize) && newsize >= 4 && |contents| <= newsize / 2 + 1
      modifies this
      ensures Valid() && Map() == old(Map()) && contents == old(contents) && zero == old(zero)
      ensures capacity == newsize && fresh(table)
    {
      hide Table;
      hide Masked;
      hide IsPower;
      var made := new Slot[newsize](_ => FREE);
      EmptyTable(made[..], hash);
      CopyAll(made);
      table, capacity, capacitymask, threshold := made, newsize, newsize - 1, newsize / 2;
    }

    method CopyAll(made: array<Slot>)
      requires Valid() && made != table && IsPower(made.Length) && |contents| < made.Length
      requires Table(made[..], Masked(hash, made.Length), map[])
      modifies made
      ensures Table(made[..], Masked(hash, made.Length), contents)
    {
      hide Searched;
      hide Table;
      hide Masked;
      hide IsPower;
      hide Copied;
      ghost var t, home := table[..], Masked(hash, made.Length);
      ghost var m: map<nat, nat> := map[];
      CopiedNone(t, Masked(hash, capacity), contents);
      var b := 0;
      while b < table.Length
        invariant b <= table.Length && table[..] == t
        invariant Copied(t, contents, b, m) && Table(made[..], home, m)
      {
        CopiedNext(t, contents, b, m);
        CopiedSize(t, contents, b, m);
        if table[b].key != 0 {
          var index := FreeSlot(made, table[b].key, m);
          ghost var u := made[..];
          InsertedAt(u, home, m, index, table[b].key, table[b].val);
          made[index] := table[b];
          assert made[..] == u[index := t[b]];
          m := m[t[b].key := t[b].val];
        }
        b := b + 1;
      }
      CopiedSize(t, contents, b, m);
    }

    /** `remove`: returns the value, or 0, and keeps the entries after the removed one reachable. */
    method Remove(key: nat) returns (val: nat)
      requires Valid()
      modifies this, table
      ensures Valid() && table == old(table)
      ensures val == if key in old(Map()) then old(Map())[key] else 0
      ensures Map() == old(Map()) - {key}
    {
      hide Table;
      hide Masked;
      hide IsPower;
      hide Searched;
      hide Shifting;
      WholeLess(contents, zero, key);
      hide Whole;
      if key == 0 {
        if zero.None? {
          return 0;
        }
        val := zero.value;
        zero := None;
        size := size - 1;
        return;
      }
      var index := Search(key);
      if table[index].key == 0 {
        return 0;
      }
      val := table[index].val;
      RemoveAt(index);
    }

    method RemoveAt(index: nat)
      requires Valid() && index < table.Length && table[index].key != 0 && table[index].key in contents
      modifies this, table
      ensures Valid() && table == old(table) && zero == old(zero) && contents == old(contents) - {old(table[index].key)}
    {
      hide Table;
      hide Masked;
      hide IsPower;
      hide Shifting;
      ghost var t, home := table[..], Masked(hash, capacity);
      ghost var z := TableFree(t, home, contents);
      ShiftStart(t, home, contents, index);
      OneLess(contents, table[index].key);
      size := size - 1;
      contents := contents - {table[index].key};
      table[index] := FREE;
      assert table[..] == t[index := FREE];
      CloseGap(index, z);
    }

    /** Shifts entries back over the hole at `start` until no search can miss an entry. */
    method CloseGap(start: nat, ghost z: nat)
      requires capacity == table.Length && IsPower(capacity) && capacitymask == capacity - 1
      requires z < capacity && z != start && table[z].key == 0
      requires Shifting(table[..], Masked(hash, capacity), contents, start, start)
      modifies table
      ensures Table(table[..], Masked(hash, capacity), contents)
    {
      hide Table;
      hide Masked;
      hide IsPower;
      hide And;
      hide Shifting;
      hide MayStay;
      ghost var home := Masked(hash, capacity);
      var index: nat, j: nat := start, start;
      ShiftingInside(table[..], home, contents, index, j);
      while true
        invariant index < capacity && j < capacity && z != index && table[z].key == 0 && z != j
        invariant Shifting(table[..], home, contents, index, j)
        decreases Dist(capacity, j, z)
      {
        ghost var t, was: nat := table[..], j;
        NextSlot(j, capacity);
        j := And(j + 1, capacitymask);
        if table[j].key == 0 && table[j].val == 0 {
          ShiftDone(t, home, contents, index, was);
          return;
        }
        FreeIsEmpty(t, home, contents, index, was, j);
        HomeOf(hash, capacity, table[j].key);
        var h := And(hash(table[j].key), capacitymask);
        StayTest(capacity, index, h, j);
        if (index <= j && index < h && h <= j) || (index > j && (index < h || h <= j)) {
          ShiftPast(t, home, contents, index, was);
        } else {
          ShiftBack(t, home, contents, index, was);
          table[index] := table[j];
          table[j] := FREE;
          assert table[..] == Moved(t, index, j);
          index := j;
        }
      }
    }

    /** `reset`. */
    method Reset()
      requires Valid()
      modifies this, table
      ensures Valid() && table == old(table) && Map() == map[]
    {
      hide Table;
      hide Masked;
      hide IsPower;
      Clear();
      EmptyTable(table[..], hash);
      zero, size, contents := None, 0, map[];
    }

    method Clear()
      modifies table
      ensures forall i :: 0 <= i < table.Length ==> table[i] == FREE
    {
      for i := 0 to table.Length
        invariant forall j :: 0 <= j < i ==> table[j] == FREE
      {
        table[i] := FREE;
      }
    }
  }
}
