/**
 The race detector's data: the expanded record, whose two read arrays are compacted and grown
 in place, and the shadow memory with its multi-byte fast path.
 */
module RaceDetector {
  import opened Clocks
  import opened PowersOfTwo
  import opened RaceRecords
  import opened RaceHistory

  const INITCAPACITY := 4

  function Epochs(threads: seq<nat>, clocks: seq<nat>): (es: seq<Epoch>)
    requires |threads| == |clocks|
    ensures |es| == |threads| && forall i :: 0 <= i < |es| ==> es[i] == Epoch(threads[i], clocks[i])
  {
    seq(|threads|, i requires 0 <= i < |threads| => Epoch(threads[i], clocks[i]))
  }

  /** The first `copied` places hold `kept`; the places from `i` on hold what they held. */
  ghost predicate Compacting(ts: seq<nat>, cs: seq<nat>, rs: seq<Epoch>, kept: seq<Epoch>, i: nat, copied: nat) {
    && |ts| == |cs| && copied <= i <= |rs| <= |ts| && |kept| == copied
    && (forall j :: i <= j < |rs| ==> Epoch(ts[j], cs[j]) == rs[j])
    && (forall j :: 0 <= j < copied ==> Epoch(ts[j], cs[j]) == kept[j])
  }

  lemma CompactStart(ts: seq<nat>, cs: seq<nat>, n: nat, kept: seq<Epoch>)
    requires |ts| == |cs| && n <= |ts| && kept == []
    ensures Compacting(ts, cs, Epochs(ts[..n], cs[..n]), kept, 0, 0)
  {
  }

  lemma CompactNext(ts: seq<nat>, cs: seq<nat>, rs: seq<Epoch>, kept: seq<Epoch>, i: nat, copied: nat)
    requires Compacting(ts, cs, rs, kept, i, copied) && i < |rs|
    ensures Epoch(ts[i], cs[i]) == rs[i]
    ensures Compacting(ts, cs, rs, kept, i + 1, copied)
    ensures Compacting(ts[copied := ts[i]], cs[copied := cs[i]], rs, kept + [rs[i]], i + 1, copied + 1)
  {
  }

  lemma CompactDone(ts: seq<nat>, cs: seq<nat>, rs: seq<Epoch>, kept: seq<Epoch>, i: nat, copied: nat)
    requires Compacting(ts, cs, rs, kept, i, copied)
    ensures Epochs(ts[..copied], cs[..copied]) == kept
  {
  }

  lemma UnsubsumedStep(cv: Clock, tid: nat, rs: seq<Epoch>, i: nat)
    requires i < |rs|
    ensures Unsubsumed(cv, tid, rs[..i + 1]) == Unsubsumed(cv, tid, rs[..i]) + if MayRace(cv, tid, rs[i]) then [rs[i]] else []
  {
    assert rs[..i + 1][..i] == rs[..i];
  }

  lemma {:induction false} FirstRacingReadStep(cv: Clock, tid: nat, rs: seq<Epoch>, i: nat)
    requires i < |rs| && MayRace(cv, tid, rs[i]) && forall j :: 0 <= j < i ==> !MayRace(cv, tid, rs[j])
    ensures FirstRacingRead(cv, tid, rs) == RaceWith(rs[i], false)
  {
    if i > 0 {
      FirstRacingReadStep(cv, tid, rs[1..], i - 1);
    }
  }

  /** A copy of the first `n` elements in an array of `capacity` places. */
  method CopyOf(a: array<nat>, n: nat, capacity: nat) returns (b: array<nat>)
    requires n <= a.Length && n <= capacity
    ensures fresh(b) && b.Length == capacity && b[..n] == a[..n]
  {
    b := new nat[capacity](_ => 0);
    for i := 0 to n
      invariant b[..i] == a[..i]
    {
      b[i] := a[i];
    }
  }

  class RaceRecord {
    var readClock: array?<nat>
    var thread: array?<nat>
    var numReads: nat
    var isAtomic: bool
    var writeThread: nat
    var writeClock: nat

    /** The arrays have a power of two of at least four places, so a full one has one bit set. */
    ghost predicate Shape()
      reads this
    {
      if thread == null then readClock == null
      else
        && readClock != null && readClock != thread && readClock.Length == thread.Length
        && INITCAPACITY <= thread.Length && IsPower(thread.Length)
    }

    ghost predicate Valid()
      reads this
    {
      Shape() && numReads <= if thread == null then 0 else thread.Length
    }

    ghost function Arrays(): set<object>
      reads this
    {
      if thread == null || readClock == null then {} else {thread, readClock}
    }

    ghost function Readers(): seq<Epoch>
      requires Valid()
      reads this, readClock, thread
    {
      if thread == null then [] else Epochs(thread[..numReads], readClock[..numReads])
    }

    ghost function Value(): Record
      requires Valid()
      reads this, readClock, thread
    {
      Record(Readers(), Epoch(writeThread, writeClock), isAtomic)
    }

    /** `expandRecord`: the record a packed word stands for. */
    constructor (w: nat)
      ensures Valid() && Value() == Decode(w)
      ensures fresh(Arrays())
    {
      writeThread, writeClock := WrThreadId(w), WriteVector(w);
      isAtomic := AtomicFlag(w);
      readClock, thread, numReads := null, null, 0;
      new;
      if ReadVector(w) != 0 {
        var t, c := new nat[INITCAPACITY](_ => 0), new nat[INITCAPACITY](_ => 0);
        t[0], c[0] := RdThreadId(w), ReadVector(w);
        thread, readClock, numReads := t, c, 1;
        assert Power(2) == 4;
      }
    }

    /** Copies the read at `i` down to place `to`. */
    method MoveRead(i: nat, to: nat)
      requires Shape() && thread != null && to <= i < thread.Length
      modifies readClock, thread
      ensures thread[..] == old(thread[..])[to := old(thread[i])]
      ensures readClock[..] == old(readClock[..])[to := old(readClock[i])]
    {
      if to != i {
        readClock[to] := readClock[i];
        thread[to] := thread[i];
      }
    }

    /**
     Keeps, at the front of the arrays and in order, the reads that may still race with the
     current one.
     */
    method Compact(tid: nat, cv: Clock) returns (copied: nat)
      requires Valid()
      modifies readClock, thread
      ensures Valid() && copied <= numReads
      ensures thread == null ==> copied == 0
      ensures thread != null ==> Epochs(thread[..copied], readClock[..copied]) == Unsubsumed(cv, tid, old(Readers()))
    {
      copied := 0;
      if thread == null {
        return;
      }
      ghost var rs := Readers();
      ghost var kept := Unsubsumed(cv, tid, rs[..0]);
      hide IsPower;
      hide MayRace;
      hide Unsubsumed;
      hide Compacting;
      CompactStart(thread[..], readClock[..], numReads, kept);
      var i := 0;
      while i < numReads
        invariant 0 <= i <= numReads && copied <= i
        invariant kept == Unsubsumed(cv, tid, rs[..i])
        invariant Compacting(thread[..], readClock[..], rs, kept, i, copied)
      {
        UnsubsumedStep(cv, tid, rs, i);
        CompactNext(thread[..], readClock[..], rs, kept, i, copied);
        if MayRace(cv, tid, Epoch(thread[i], readClock[i])) {
          MoveRead(i, copied);
          copied := copied + 1;
          kept := kept + [rs[i]];
        }
        i := i + 1;
      }
      CompactDone(thread[..], readClock[..], rs, kept, i, copied);
      assert rs[..i] == rs && thread[..][..copied] == thread[..copied] && readClock[..][..copied] == readClock[..copied];
    }

    /** The growth rule: whatever is kept, there is room for one more. */
    method MakeRoom(copied: nat)
      requires Valid() && copied <= numReads
      modifies this`thread, this`readClock
      ensures Shape() && thread != null && copied < thread.Length
      ensures old(thread) != null ==> thread[..copied] == old(thread[..copied]) && readClock[..copied] == old(readClock[..copied])
      ensures fresh(Arrays() - old(Arrays()))
    {
      PopCountPower(copied);
      if PopCount(copied) <= 1 {
        if copied == 0 && thread == null {
          assert Power(2) == 4;
          thread := new nat[INITCAPACITY](_ => 0);
          readClock := new nat[INITCAPACITY](_ => 0);
        } else if copied >= INITCAPACITY {
          PowerHalf(copied * 2);
          var newThread := CopyOf(thread, copied, copied * 2);
          var newReadClock := CopyOf(readClock, copied, copied * 2);
          thread, readClock := newThread, newReadClock;
        }
      }
    }

    /** `fullRaceCheckRead`. */
    method CheckRead(tid: nat, cv: Clock) returns (race: Report)
      requires Valid()
      modifies this, readClock, thread
      ensures Valid()
      ensures race == FullRead(old(Value()), tid, cv).1
      ensures Value() == FullRead(old(Value()), tid, cv).0
      ensures fresh(Arrays() - old(Arrays()))
    {
      race := NoRace;
      if MayRace(cv, tid, Epoch(writeThread, writeClock)) {
        race := RaceWith(Epoch(writeThread, writeClock), true);
      }
      ghost var rs := Readers();
      var copied := Compact(tid, cv);
      MakeRoom(copied);
      assert Epochs(thread[..copied], readClock[..copied]) == Unsubsumed(cv, tid, rs);
      thread[copied] := tid;
      readClock[copied] := Get(cv, tid);
      numReads := copied + 1;
      assert Readers() == Unsubsumed(cv, tid, rs) + [Epoch(tid, Get(cv, tid))];
    }

    /** The first recorded read that a write races with. */
    method RacingRead(tid: nat, cv: Clock) returns (race: Report)
      requires Valid()
      ensures race == FirstRacingRead(cv, tid, Readers())
    {
      ghost var rs := Readers();
      FirstRacingReadIn(cv, tid, rs);
      race := NoRace;
      for i := 0 to numReads
        invariant forall j :: 0 <= j < i ==> !MayRace(cv, tid, rs[j])
      {
        if MayRace(cv, tid, Epoch(thread[i], readClock[i])) {
          FirstRacingReadStep(cv, tid, rs, i);
          return RaceWith(Epoch(thread[i], readClock[i]), false);
        }
      }
    }

    /** `fullRaceCheckWrite`. */
    method CheckWrite(tid: nat, cv: Clock) returns (race: Report)
      requires Valid()
      modifies this
      ensures Valid() && thread == old(thread) && readClock == old(readClock)
      ensures race == FullWrite(old(Value()), tid, cv).1
      ensures Value() == FullWrite(old(Value()), tid, cv).0
    {
      race := RacingRead(tid, cv);
      if race.NoRace? && MayRace(cv, tid, Epoch(writeThread, writeClock)) {
        race := RaceWith(Epoch(writeThread, writeClock), true);
      }
      numReads := 0;
      writeThread, writeClock := tid, Get(cv, tid);
      isAtomic := false;
    }
  }
}
