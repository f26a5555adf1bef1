/**
 Shadow memory: one entry per byte of the program's memory, in tables of 65536 entries made on
 demand, and the checks on 1, 2, 4 and 8 bytes with their fast path. The fast path is proved
 to leave the same entries as checking byte by byte, and to report a race whenever that would.
 */
module ShadowMemories {
  import opened Options
  import opened Clocks
  import opened RaceRecords
  import opened RaceHistory

  /** The tables made so far; a missing one reads as all zero. */
  type Shadow = map<nat, seq<Cell>>

  const TABLESIZE := 0x1_0000

  /** One more than the largest address: addresses have 48 bits. */
  const ADDRESSES := 0x1_0000_0000_0000

  /** The upper 32 bits of an address choose the table. */
  function TableOf(a: nat): nat {
    a / TABLESIZE % 0x1_0000_0000
  }

  function PlaceOf(a: nat): (o: nat)
    ensures o < TABLESIZE
  {
    a % TABLESIZE
  }

  /** `CHECKBOUNDARY`: the entries for `a` to `a + n` lie side by side in one table. */
  lemma SameTable(a: nat, n: nat)
    requires PlaceOf(a) + n < TABLESIZE
    ensures TableOf(a + n) == TableOf(a) && PlaceOf(a + n) == PlaceOf(a) + n
  {
    assert (a + n) / TABLESIZE == a / TABLESIZE;
  }

  ghost predicate WfShadow(m: Shadow) {
    && (forall k :: k in m ==> |m[k]| == TABLESIZE)
    && (forall k, o :: k in m && 0 <= o < |m[k]| ==> WfCell(m[k][o]))
  }

  function Entry(m: Shadow, a: nat): Cell {
    if TableOf(a) in m && PlaceOf(a) < |m[TableOf(a)]| then m[TableOf(a)][PlaceOf(a)] else Word(0)
  }

  /** `lookupAddressEntry` makes the table on demand. */
  function Made(m: Shadow, a: nat): (m': Shadow)
    ensures TableOf(a) in m'
  {
    if TableOf(a) in m then m else m[TableOf(a) := seq(TABLESIZE, _ => Word(0))]
  }

  function Put(m: Shadow, a: nat, c: Cell): Shadow {
    var m' := Made(m, a);
    if PlaceOf(a) < |m'[TableOf(a)]| then m'[TableOf(a) := m'[TableOf(a)][PlaceOf(a) := c]] else m'
  }

  /** An access by thread `tid`, whose clock is missing until it has acted. */
  datatype Check = Check(tid: nat, cv: Option<Clock>, write: bool)

  function Checked(c: Cell, k: Check): Cell {
    if k.cv.None? then c else RaceHistory.Check(c, Access(k.tid, k.cv.value, k.write)).0
  }

  function Reported(c: Cell, k: Check): Report {
    if k.cv.None? then NoRace else RaceHistory.Check(c, Access(k.tid, k.cv.value, k.write)).1
  }

  /** Shadow memory after the first `n` bytes from `a` have been checked one by one. */
  function Bytewise(m: Shadow, a: nat, n: nat, k: Check): Shadow {
    if n == 0 then m
    else
      var before := Bytewise(m, a, n - 1, k);
      Put(before, a + n - 1, Checked(Entry(before, a + n - 1), k))
  }

  function Listed(r: Report): seq<Report> {
    if r == NoRace then [] else [r]
  }

  function BytewiseReports(m: Shadow, a: nat, n: nat, k: Check): seq<Report> {
    if n == 0 then []
    else BytewiseReports(m, a, n - 1, k) + Listed(Reported(Entry(Bytewise(m, a, n - 1, k), a + n - 1), k))
  }

  lemma CheckedWf(c: Cell, k: Check)
    requires WfCell(c)
    ensures WfCell(Checked(c, k))
  {
    if k.cv.Some? {
      if k.write {
        WriteCellWf(c, k.tid, k.cv.value);
      } else {
        ReadCellWf(c, k.tid, k.cv.value);
      }
    }
  }

  lemma PutWf(m: Shadow, a: nat, c: Cell)
    requires WfShadow(m) && WfCell(c)
    ensures WfShadow(Put(m, a, c))
  {
  }

  lemma MadeWf(m: Shadow, a: nat)
    requires WfShadow(m)
    ensures WfShadow(Made(m, a)) && Entry(Made(m, a), a) == Entry(m, a)
    ensures Put(m, a, Entry(m, a)) == Made(m, a)
  {
    var m' := Made(m, a);
    assert m'[TableOf(a)][PlaceOf(a) := Entry(m, a)] == m'[TableOf(a)];
  }

  lemma PutMade(m: Shadow, a: nat, c: Cell)
    requires WfShadow(m)
    ensures Put(Made(m, a), a, c) == Put(m, a, c)
  {
  }

  /** `races` are reports of the first `n` bytes, and there are some if the bytes report any. */
  ghost predicate Tally(m: Shadow, a: nat, n: nat, k: Check, races: seq<Report>) {
    && (races != [] <==> BytewiseReports(m, a, n, k) != [])
    && (forall r :: r in races ==> r in BytewiseReports(m, a, n, k))
  }

  lemma TallyFirst(m: Shadow, a: nat, k: Check)
    ensures Tally(m, a, 1, k, Listed(Reported(Entry(m, a), k)))
  {
    assert Bytewise(m, a, 0, k) == m && BytewiseReports(m, a, 0, k) == [];
  }

  lemma TallyNext(m: Shadow, a: nat, n: nat, k: Check, races: seq<Report>)
    requires Tally(m, a, n, k, races)
    ensures Tally(m, a, n + 1, k, races + Listed(Reported(Entry(Bytewise(m, a, n, k), a + n), k)))
  {
  }

  /** A byte whose entry equals the first one's has the first one's report, which is already in. */
  lemma TallySame(m: Shadow, a: nat, n: nat, k: Check, races: seq<Report>)
    requires Tally(m, a, n, k, races) && Entry(Bytewise(m, a, n, k), a + n) == Entry(m, a)
    requires Reported(Entry(m, a), k) == NoRace || races != []
    ensures Tally(m, a, n + 1, k, races)
  {
  }

  lemma BytewiseNext(m: Shadow, a: nat, n: nat, k: Check)
    ensures Bytewise(Bytewise(m, a, n, k), a + n, 1, k) == Bytewise(m, a, n + 1, k)
  {
    assert Bytewise(Bytewise(m, a, n, k), a + n, 0, k) == Bytewise(m, a, n, k);
  }

  predicate SameSpot(b: nat, c: nat) {
    TableOf(b) == TableOf(c) && PlaceOf(b) == PlaceOf(c)
  }

  /** Different bytes have different entries. */
  lemma OwnSpot(a: nat, b: nat)
    requires a < ADDRESSES && b < ADDRESSES
    ensures SameSpot(a, b) <==> a == b
  {
    assert a / TABLESIZE < 0x1_0000_0000 && b / TABLESIZE < 0x1_0000_0000;
    assert a == TableOf(a) * TABLESIZE + PlaceOf(a) && b == TableOf(b) * TABLESIZE + PlaceOf(b);
  }

  lemma EntryWf(m: Shadow, a: nat)
    requires WfShadow(m)
    ensures WfCell(Entry(m, a))
  {
  }

  lemma {:induction false} BytewiseWf(m: Shadow, a: nat, n: nat, k: Check)
    requires WfShadow(m)
    ensures WfShadow(Bytewise(m, a, n, k))
  {
    hide Checked;
    hide Put;
    if n > 0 {
      BytewiseWf(m, a, n - 1, k);
      var before := Bytewise(m, a, n - 1, k);
      EntryWf(before, a + n - 1);
      hide WfShadow;
      hide WfCell;
      CheckedWf(Entry(before, a + n - 1), k);
      PutWf(before, a + n - 1, Checked(Entry(before, a + n - 1), k));
    }
  }

  /** Storing the entry of a byte changes the entry of that byte and of no other. */
  lemma PutEntry(m: Shadow, a: nat, c: Cell, b: nat)
    requires WfShadow(m) && a < ADDRESSES && b < ADDRESSES
    ensures Entry(Put(m, a, c), b) == if a == b then c else Entry(m, b)
  {
    OwnSpot(a, b);
    hide TableOf;
    hide PlaceOf;
  }

  /** Each byte checked takes one step from its own entry, and no other entry changes. */
  lemma {:induction false} BytewiseEntry(m: Shadow, a: nat, n: nat, k: Check, b: nat)
    requires WfShadow(m) && a + n <= ADDRESSES && b < ADDRESSES
    ensures Entry(Bytewise(m, a, n, k), b) == if a <= b < a + n then Checked(Entry(m, b), k) else Entry(m, b)
  {
    hide Checked;
    hide Put;
    hide Entry;
    hide WfShadow;
    if n > 0 {
      var last := a + n - 1;
      var before := Bytewise(m, a, n - 1, k);
      BytewiseWf(m, a, n - 1, k);
      BytewiseEntry(m, a, n - 1, k, b);
      PutEntry(before, last, Checked(Entry(before, last), k), b);
    }
  }

  /** Checking one of the bytes from its own entry reports the race `r`. */
  ghost predicate ByteReports(m: Shadow, a: nat, n: nat, k: Check, r: Report) {
    r != NoRace && exists b :: a <= b < a + n && Reported(Entry(m, b), k) == r
  }

  /** The reports of a bytewise check are those of the bytes' own entries. */
  lemma {:induction false} BytewiseReported(m: Shadow, a: nat, n: nat, k: Check, r: Report)
    requires WfShadow(m) && a + n <= ADDRESSES
    ensures r in BytewiseReports(m, a, n, k) <==> ByteReports(m, a, n, k, r)
  {
    hide Checked;
    hide Reported;
    hide Put;
    hide Entry;
    hide WfShadow;
    if n > 0 {
      BytewiseReported(m, a, n - 1, k, r);
      BytewiseEntry(m, a, n - 1, k, a + n - 1);
    }
  }

  /** The pair of words the first byte's check hands to the bytes that follow. */
  predicate Handed(m: Shadow, a: nat, k: Check, from: Cell, to: Cell) {
    from == to == Word(INVALIDSHADOWVAL) || (from == Entry(m, a) && to == Checked(from, k))
  }

  /** Taking the handed word is the same step as checking the byte. */
  lemma SameStep(m: Shadow, a: nat, n: nat, k: Check, from: Cell, to: Cell, races: seq<Report>)
    requires Handed(m, a, k, from, to) && WfShadow(Bytewise(m, a, n, k))
    requires TableOf(a + n) in Bytewise(m, a, n, k)
    requires Entry(Bytewise(m, a, n, k), a + n) == from
    requires Tally(m, a, n, k, races) && (Reported(Entry(m, a), k) == NoRace || races != [])
    ensures WfCell(to) && Put(Bytewise(m, a, n, k), a + n, to) == Bytewise(m, a, n + 1, k)
    ensures Tally(m, a, n + 1, k, races)
  {
    var cur := Bytewise(m, a, n, k);
    assert WfCell(cur[TableOf(a + n)][PlaceOf(a + n)]);
    CheckedWf(from, k);
    TallySame(m, a, n, k, races);
  }

  /**
   The bytes from `a` to `a + n` each take one step from their own entry and no other entry changes;
   `races` reports some of the races of these steps, and one at least if there are any.
   */
  ghost predicate StepsEach(m: Shadow, m': Shadow, a: nat, n: nat, k: Check, races: seq<Report>) {
    && (forall b {:trigger Entry(m', b)} :: 0 <= b < ADDRESSES ==>
          Entry(m', b) == if a <= b < a + n then Checked(Entry(m, b), k) else Entry(m, b))
    && (races != [] <==> exists r :: ByteReports(m, a, n, k, r))
    && (forall r :: r in races ==> ByteReports(m, a, n, k, r))
  }

  lemma TallySteps(m: Shadow, a: nat, n: nat, k: Check, races: seq<Report>)
    requires WfShadow(m) && a + n <= ADDRESSES && Tally(m, a, n, k, races)
    ensures StepsEach(m, Bytewise(m, a, n, k), a, n, k, races)
  {
    hide Bytewise;
    hide Entry;
    hide Checked;
    hide Reported;
    hide WfShadow;
    hide ByteReports;
    var all := BytewiseReports(m, a, n, k);
    forall b: nat | b < ADDRESSES
      ensures Entry(Bytewise(m, a, n, k), b) == if a <= b < a + n then Checked(Entry(m, b), k) else Entry(m, b)
    {
      BytewiseEntry(m, a, n, k, b);
    }
    hide BytewiseReports;
    forall r ensures r in all <==> ByteReports(m, a, n, k, r) {
      BytewiseReported(m, a, n, k, r);
    }
    if all != [] {
      assert all[0] in all;
    }
  }

  class ShadowMemory {
    var tables: map<nat, array<Cell>>

    ghost function Contents(): Shadow
      reads this, tables.Values
    {
      map k | k in tables :: tables[k][..]
    }

    ghost predicate Valid()
      reads this, tables.Values
    {
      (forall j, k :: j in tables && k in tables && j != k ==> tables[j] != tables[k]) && WfShadow(Contents())
    }

    constructor ()
      ensures Valid() && Contents() == map[]
    {
      tables := map[];
    }

    /** `lookupAddressEntry`. */
    method Lookup(a: nat) returns (table: array<Cell>, off: nat)
      requires Valid()
      modifies this
      ensures Valid() && Contents() == Made(old(Contents()), a)
      ensures TableOf(a) in tables && table == tables[TableOf(a)] && table.Length == TABLESIZE && off == PlaceOf(a)
      ensures fresh(tables.Values - old(tables.Values))
      ensures forall b: nat :: b < ADDRESSES && a < ADDRESSES && b != a ==> TableOf(b) !in tables || tables[TableOf(b)] != table || PlaceOf(b) != off
    {
      var key := TableOf(a);
      if key !in tables {
        var made := new Cell[TABLESIZE](_ => Word(0));
        assert made[..] == seq(TABLESIZE, _ => Word(0));
        tables := tables[key := made];
      }
      assert Contents() == Made(old(Contents()), a);
      MadeWf(old(Contents()), a);
      assert Contents()[key] == tables[key][..];
      table, off := tables[key], PlaceOf(a);
      forall b: nat | b < ADDRESSES && a < ADDRESSES && b != a
        ensures TableOf(b) !in tables || tables[TableOf(b)] != table || PlaceOf(b) != off
      {
        OwnSpot(a, b);
      }
    }

    /** Stores an entry through a pointer into a table. */
    method Store(a: nat, table: array<Cell>, off: nat, c: Cell)
      requires Valid() && WfCell(c) && TableOf(a) in tables && table == tables[TableOf(a)] && off == PlaceOf(a)
      modifies table
      ensures Valid() && Contents() == Put(old(Contents()), a, c)
    {
      PutWf(Contents(), a, c);
      table[off] := c;
    }

    /** `raceCheckRead_otherIt` and `raceCheckWrite_otherIt`: check one byte. */
    method Other(a: nat, k: Check) returns (race: Report)
      requires Valid()
      modifies this, tables.Values
      ensures Valid() && fresh(tables.Values - old(tables.Values))
      ensures Contents() == Bytewise(old(Contents()), a, 1, k)
      ensures race == Reported(Entry(old(Contents()), a), k)
    {
      var table, off := Lookup(a);
      MadeWf(old(Contents()), a);
      PutMade(old(Contents()), a, Checked(table[off], k));
      assert table[off] == Entry(old(Contents()), a);
      if k.cv.None? {
        return NoRace;
      }
      CheckedWf(table[off], k);
      race := Reported(table[off], k);
      Store(a, table, off, Checked(table[off], k));
    }

    /**
     `raceCheckRead_firstIt` and `raceCheckWrite_firstIt`: check the first byte, and when that
     was a step from one packed word to another, give both words for the bytes that follow.
     */
    method First(a: nat, k: Check) returns (table: array<Cell>, off: nat, from: Cell, to: Cell, race: Report)
      requires Valid()
      modifies this, tables.Values
      ensures Valid() && fresh(tables.Values - old(tables.Values))
      ensures Contents() == Bytewise(old(Contents()), a, 1, k)
      ensures TableOf(a) in tables && table == tables[TableOf(a)] && table.Length == TABLESIZE && off == PlaceOf(a)
      ensures race == Reported(Entry(old(Contents()), a), k)
      ensures Handed(old(Contents()), a, k, from, to)
    {
      table, off := Lookup(a);
      from, to, race := Word(INVALIDSHADOWVAL), Word(INVALIDSHADOWVAL), NoRace;
      MadeWf(old(Contents()), a);
      PutMade(old(Contents()), a, Checked(table[off], k));
      assert table[off] == Entry(old(Contents()), a);
      if k.cv.None? {
        return;
      }
      var before := table[off];
      CheckedWf(before, k);
      race := Reported(before, k);
      Store(a, table, off, Checked(before, k));
      if before.Word? && Checked(before, k).Word? {
        from, to := before, Checked(before, k);
      }
    }

    /** One byte of the fast path: it takes the handed word. */
    method TakeWord(a: nat, j: nat, k: Check, table: array<Cell>, off: nat, from: Cell, to: Cell,
                    ghost m: Shadow, ghost races: seq<Report>)
      requires Valid() && Contents() == Bytewise(m, a, j, k) && off + j < TABLESIZE
      requires TableOf(a) in tables && table == tables[TableOf(a)] && table.Length == TABLESIZE && off == PlaceOf(a)
      requires table[off + j] == from && Handed(m, a, k, from, to)
      requires Tally(m, a, j, k, races) && (Reported(Entry(m, a), k) == NoRace || races != [])
      modifies table
      ensures Valid() && Contents() == Bytewise(m, a, j + 1, k) && Tally(m, a, j + 1, k, races)
    {
      hide Tally;
      hide Handed;
      hide Bytewise;
      hide Put;
      hide Reported;
      hide Checked;
      SameTable(a, j);
      assert Entry(Contents(), a + j) == from;
      SameStep(m, a, j, k, from, to, races);
      Store(a + j, table, off + j, to);
    }

    /** The fast path: bytes whose entry equals the first one's old word take its new word. */
    method Same(a: nat, n: nat, k: Check, table: array<Cell>, off: nat, from: Cell, to: Cell,
                ghost m: Shadow, ghost races: seq<Report>) returns (j: nat)
      requires Valid() && n >= 1 && off + n <= TABLESIZE && Contents() == Bytewise(m, a, 1, k)
      requires TableOf(a) in tables && table == tables[TableOf(a)] && table.Length == TABLESIZE && off == PlaceOf(a)
      requires Handed(m, a, k, from, to)
      requires Tally(m, a, 1, k, races) && (Reported(Entry(m, a), k) == NoRace || races != [])
      modifies table
      ensures 1 <= j <= n && Valid() && Contents() == Bytewise(m, a, j, k) && Tally(m, a, j, k, races)
    {
      hide Tally;
      hide Handed;
      hide Bytewise;
      hide Reported;
      hide TableOf;
      hide PlaceOf;
      hide Entry;
      hide WfShadow;
      j := 1;
      while j < n && table[off + j] == from
        invariant 1 <= j <= n && Valid()
        invariant Contents() == Bytewise(m, a, j, k)
        invariant Tally(m, a, j, k, races)
      {
        TakeWord(a, j, k, table, off, from, to, m, races);
        j := j + 1;
      }
    }

    /** `raceCheckRead16` to `raceCheckWrite64`: the checks on `n` bytes from `a`. */
    method CheckBytes(a: nat, n: nat, k: Check) returns (races: seq<Report>)
      requires Valid() && n in {2, 4, 8}
      modifies this, tables.Values
      ensures Valid() && fresh(tables.Values - old(tables.Values))
      ensures Contents() == Bytewise(old(Contents()), a, n, k)
      ensures Tally(old(Contents()), a, n, k, races)
      ensures a + n <= ADDRESSES ==> StepsEach(old(Contents()), Contents(), a, n, k, races)
    {
      hide Tally;
      hide Handed;
      hide Bytewise;
      hide Entry;
      hide Reported;
      hide WfShadow;
      ghost var m := Contents();
      var table, off, from, to, race := First(a, k);
      races := Listed(race);
      TallyFirst(m, a, k);
      var j := 1;
      if off + (n - 1) < TABLESIZE {
        j := Same(a, n, k, table, off, from, to, m, races);
      }
      while j < n
        invariant 1 <= j <= n && Valid() && fresh(tables.Values - old(tables.Values))
        invariant Contents() == Bytewise(m, a, j, k)
        invariant Tally(m, a, j, k, races)
      {
        TallyNext(m, a, j, k, races);
        BytewiseNext(m, a, j, k);
        race := Other(a + j, k);
        races := races + Listed(race);
        j := j + 1;
      }
      if a + n <= ADDRESSES {
        TallySteps(m, a, n, k, races);
      }
    }
  }
}
