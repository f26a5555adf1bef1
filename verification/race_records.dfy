/**
 The shadow word of one byte: the packed short record, the full record it expands to, and the
 read and write checks on either form.
 */
module RaceRecords {
  import opened Clocks
  import opened PowersOfTwo

  /** A thread and the value of its own clock entry. */
  datatype Epoch = Epoch(tid: nat, clock: nat)

  /** What either form of record says about a byte. Write clock 0 means "no write yet". */
  datatype Record = Record(readers: seq<Epoch>, write: Epoch, atomic: bool)

  /** A shadow entry: a 64-bit word, or a pointer to an expanded record. */
  datatype Cell = Word(bits: nat) | Full(rec: Record)

  /** A reported race: the earlier access it is with. */
  datatype Report = NoRace | RaceWith(earlier: Epoch, isWrite: bool)

  // ----- the bit fields, low to high: tag, read thread, read clock, write thread, write clock, atomic -----

  const MAXTHREADID := 0x3e
  const MAXWRITEVECTOR := 0x1fffffe
  const ATOMICBIT := 0x8000_0000_0000_0000
  const INVALIDSHADOWVAL := 2

  predicate IsShort(w: nat) { w % 2 == 1 }

  function RdThreadId(w: nat): (r: nat)
    ensures r < 0x40
  {
    w / 0x2 % 0x40
  }

  function ReadVector(w: nat): (r: nat)
    ensures r < 0x200_0000
  {
    w / 0x80 % 0x200_0000
  }

  function WrThreadId(w: nat): (r: nat)
    ensures r < 0x40
  {
    w / 0x1_0000_0000 % 0x40
  }

  function WriteVector(w: nat): (r: nat)
    ensures r < 0x200_0000
  {
    w / 0x40_0000_0000 % 0x200_0000
  }

  predicate AtomicFlag(w: nat) { w / 0x8000_0000_0000_0000 % 2 == 1 }

  /** `ENCODEOP` on fields that fit, where the alternatives of the bitwise or are disjoint. */
  function EncodeOp(rt: nat, rc: nat, wt: nat, wc: nat): nat {
    1 + rt * 0x2 + rc * 0x80 + wt * 0x1_0000_0000 + wc * 0x40_0000_0000
  }

  /** Every field that fits its bits is read back as it was written. */
  lemma EncodeDecode(rt: nat, rc: nat, wt: nat, wc: nat, atomic: bool)
    requires rt < 0x40 && wt < 0x40 && rc < 0x200_0000 && wc < 0x200_0000
    ensures var w := EncodeOp(rt, rc, wt, wc) + if atomic then ATOMICBIT else 0;
            && w < 0x1_0000_0000_0000_0000 && IsShort(w)
            && RdThreadId(w) == rt && ReadVector(w) == rc && WrThreadId(w) == wt && WriteVector(w) == wc
            && AtomicFlag(w) == atomic
  {
    var w := EncodeOp(rt, rc, wt, wc) + if atomic then ATOMICBIT else 0;
    var bit := if atomic then 1 else 0;
    var d := wc + bit * 0x200_0000;
    var c := wt + d * 0x40;
    var b := rc + c * 0x200_0000;
    var a := rt + b * 0x40;
    Remainder(w, 0x2, a, 1);
    Remainder(a, 0x40, b, rt);
    Remainder(w, 0x80, b, 1 + rt * 0x2);
    Remainder(b, 0x200_0000, c, rc);
    Remainder(w, 0x1_0000_0000, c, 1 + rt * 0x2 + rc * 0x80);
    Remainder(c, 0x40, d, wt);
    Remainder(w, 0x40_0000_0000, d, 1 + rt * 0x2 + rc * 0x80 + wt * 0x1_0000_0000);
    Remainder(d, 0x200_0000, bit, wc);
    Remainder(w, 0x8000_0000_0000_0000, bit, 1 + rt * 0x2 + rc * 0x80 + wt * 0x1_0000_0000 + wc * 0x40_0000_0000);
  }

  /** What a word stands for; the zero word and every short record. */
  function Decode(w: nat): Record {
    Record(if ReadVector(w) != 0 then [Epoch(RdThreadId(w), ReadVector(w))] else [],
           Epoch(WrThreadId(w), WriteVector(w)), AtomicFlag(w))
  }

  /** `expandRecord` allocates exactly the record the word stands for. */
  function Meaning(c: Cell): Record {
    match c
    case Word(w) => Decode(w)
    case Full(r) => r
  }

  ghost predicate WfCell(c: Cell) {
    c.Word? ==> c.bits < 0x1_0000_0000_0000_0000 && (c.bits == 0 || IsShort(c.bits))
  }

  // ----- the checks -----

  /** `clock_may_race`: `e` is by another thread and not before the current clock. */
  predicate MayRace(cv: Clock, tid: nat, e: Epoch) {
    tid != e.tid && e.clock != 0 && Get(cv, e.tid) <= e.clock
  }

  /** The recorded reads a new read does not subsume. */
  function Unsubsumed(cv: Clock, tid: nat, readers: seq<Epoch>): (kept: seq<Epoch>)
    ensures |kept| <= |readers|
  {
    if readers == [] then []
    else Unsubsumed(cv, tid, readers[..|readers| - 1])
         + if MayRace(cv, tid, readers[|readers| - 1]) then [readers[|readers| - 1]] else []
  }

  /** The first recorded read that a write races with. */
  function FirstRacingRead(cv: Clock, tid: nat, readers: seq<Epoch>): Report {
    if readers == [] then NoRace
    else if MayRace(cv, tid, readers[0]) then RaceWith(readers[0], false)
    else FirstRacingRead(cv, tid, readers[1..])
  }

  function WriteReport(cv: Clock, tid: nat, r: Record): Report {
    if MayRace(cv, tid, r.write) then RaceWith(r.write, true) else NoRace
  }

  /** `fullRaceCheckRead`. */
  function FullRead(r: Record, tid: nat, cv: Clock): (Record, Report) {
    (r.(readers := Unsubsumed(cv, tid, r.readers) + [Epoch(tid, Get(cv, tid))]), WriteReport(cv, tid, r))
  }

  /** `fullRaceCheckWrite`. */
  function FullWrite(r: Record, tid: nat, cv: Clock): (Record, Report) {
    (Record([], Epoch(tid, Get(cv, tid)), false),
     if FirstRacingRead(cv, tid, r.readers).RaceWith? then FirstRacingRead(cv, tid, r.readers) else WriteReport(cv, tid, r))
  }

  predicate FitsShort(tid: nat, cv: Clock) {
    tid <= MAXTHREADID && Get(cv, tid) <= MAXWRITEVECTOR
  }

  /** `raceCheckRead_otherIt` on one shadow entry. */
  function ReadCell(c: Cell, tid: nat, cv: Clock): (Cell, Report) {
    match c
    case Full(r) => (Full(FullRead(r, tid, cv).0), FullRead(r, tid, cv).1)
    case Word(w) =>
      if !FitsShort(tid, cv) then
        (Full(FullRead(Decode(w), tid, cv).0), FullRead(Decode(w), tid, cv).1)
      else
        var race := WriteReport(cv, tid, Decode(w));
        if MayRace(cv, tid, Epoch(RdThreadId(w), ReadVector(w))) then
          // not subsumed: expand and put the new read second
          (Full(Decode(w).(readers := Decode(w).readers + [Epoch(tid, Get(cv, tid))])), race)
        else
          (Word(EncodeOp(tid, Get(cv, tid), WrThreadId(w), WriteVector(w)) + if AtomicFlag(w) then ATOMICBIT else 0), race)
  }

  /** `raceCheckWrite_otherIt` on one shadow entry. */
  function WriteCell(c: Cell, tid: nat, cv: Clock): (Cell, Report) {
    match c
    case Full(r) => (Full(FullWrite(r, tid, cv).0), FullWrite(r, tid, cv).1)
    case Word(w) =>
      if !FitsShort(tid, cv) then
        (Full(FullWrite(Decode(w), tid, cv).0), FullWrite(Decode(w), tid, cv).1)
      else
        var re := Epoch(RdThreadId(w), ReadVector(w));
        (Word(EncodeOp(0, 0, tid, Get(cv, tid))),
         if MayRace(cv, tid, re) then RaceWith(re, false) else WriteReport(cv, tid, Decode(w)))
  }

  lemma ReadCellWf(c: Cell, tid: nat, cv: Clock)
    requires WfCell(c)
    ensures WfCell(ReadCell(c, tid, cv).0)
  {
    hide EncodeOp;
    hide RdThreadId;
    hide ReadVector;
    hide WrThreadId;
    hide WriteVector;
    hide AtomicFlag;
    hide IsShort;
    if c.Word? && FitsShort(tid, cv) {
      EncodeDecode(tid, Get(cv, tid), WrThreadId(c.bits), WriteVector(c.bits), AtomicFlag(c.bits));
    }
  }

  lemma WriteCellWf(c: Cell, tid: nat, cv: Clock)
    requires WfCell(c)
    ensures WfCell(WriteCell(c, tid, cv).0)
  {
    hide EncodeOp;
    hide RdThreadId;
    hide ReadVector;
    hide WrThreadId;
    hide WriteVector;
    hide AtomicFlag;
    hide IsShort;
    if c.Word? && FitsShort(tid, cv) {
      EncodeDecode(0, 0, tid, Get(cv, tid), false);
    }
  }

  // ----- short and expanded records are bisimilar -----

  /**
   A read leaves a short record and its expansion in related states and gives the same
   verdict. The reader's own entry is positive, as it is for every thread that has acted.
   */
  lemma ReadCellMeaning(c: Cell, tid: nat, cv: Clock)
    requires WfCell(c) && Get(cv, tid) > 0
    ensures WfCell(ReadCell(c, tid, cv).0)
    ensures Meaning(ReadCell(c, tid, cv).0) == FullRead(Meaning(c), tid, cv).0
    ensures ReadCell(c, tid, cv).1 == FullRead(Meaning(c), tid, cv).1
  {
    hide EncodeOp;
    hide RdThreadId;
    hide ReadVector;
    hide WrThreadId;
    hide WriteVector;
    hide AtomicFlag;
    hide IsShort;
    if c.Word? && FitsShort(tid, cv) {
      var w := c.bits;
      var readers := Decode(w).readers;
      if readers != [] {
        assert readers[..0] == [];
        assert Unsubsumed(cv, tid, readers) == if MayRace(cv, tid, readers[0]) then readers else [];
      }
      EncodeDecode(tid, Get(cv, tid), WrThreadId(w), WriteVector(w), AtomicFlag(w));
    }
  }

  /** A write leaves a short record and its expansion in the same state and gives the same verdict. */
  lemma WriteCellMeaning(c: Cell, tid: nat, cv: Clock)
    requires WfCell(c)
    ensures WfCell(WriteCell(c, tid, cv).0)
    ensures Meaning(WriteCell(c, tid, cv).0) == FullWrite(Meaning(c), tid, cv).0
    ensures WriteCell(c, tid, cv).1 == FullWrite(Meaning(c), tid, cv).1
  {
    hide EncodeOp;
    hide RdThreadId;
    hide ReadVector;
    hide WrThreadId;
    hide WriteVector;
    hide AtomicFlag;
    hide IsShort;
    if c.Word? && FitsShort(tid, cv) {
      var w := c.bits;
      var readers := Decode(w).readers;
      if readers != [] {
        assert readers[1..] == [];
        assert FirstRacingRead(cv, tid, readers) == if MayRace(cv, tid, readers[0]) then RaceWith(readers[0], false) else NoRace;
      }
      EncodeDecode(0, 0, tid, Get(cv, tid), false);
    }
  }
}
