/**
 Vector clocks: the value a clock vector denotes, and the mutable `ClockVector`
 whose methods are proved against it.

 A clock vector of length n stands for the total function that is 0 from thread n on, so
 two vectors that differ only in trailing zeros denote the same clock. All order reasoning
 goes through `Get` and `Leq`, never through sequence equality.
 */
module Clocks {
  type Clock = seq<nat>

  function Get(c: Clock, t: nat): nat {
    if t < |c| then c[t] else 0
  }

  function Max(a: nat, b: nat): nat {
    if a < b then b else a
  }

  /** The pointwise order on clocks. */
  ghost predicate Leq(a: Clock, b: Clock) {
    forall t: nat :: Get(a, t) <= Get(b, t)
  }

  /** The least upper bound of two clocks. */
  function Join(a: Clock, b: Clock): (c: Clock)
    ensures |c| == Max(|a|, |b|)
    ensures forall t: nat :: Get(c, t) == Max(Get(a, t), Get(b, t))
  {
    seq(Max(|a|, |b|), t requires 0 <= t => Max(Get(a, t), Get(b, t)))
  }

  /** The clock of a new action: its parent's clock with the action's own entry set. */
  function Stamp(parent: Clock, tid: nat, seqno: nat): (c: Clock)
    ensures |c| == Max(|parent|, tid + 1)
    ensures forall t: nat :: Get(c, t) == if t == tid then seqno else Get(parent, t)
  {
    seq(Max(|parent|, tid + 1), t requires 0 <= t => if t == tid then seqno else Get(parent, t))
  }

  /** The one-entry happens-before test; false when the vector does not cover the thread. */
  predicate Since(c: Clock, tid: nat, seqno: nat) {
    tid < |c| && seqno <= c[tid]
  }

  lemma LeqTrans(a: Clock, b: Clock, c: Clock)
    requires Leq(a, b) && Leq(b, c)
    ensures Leq(a, c)
  {
    forall t: nat ensures Get(a, t) <= Get(c, t) {
      assert Get(a, t) <= Get(b, t);
    }
  }

  class ClockVector {
    var clock: array<nat>

    ghost function Value(): Clock
      reads this, clock
    {
      clock[..]
    }

    /** Builds the clock of an action, inheriting from `parent` when there is one. */
    constructor (parent: ClockVector?, tid: nat, seqno: nat)
      ensures fresh(clock)
      ensures Value() == Stamp(if parent == null then [] else parent.Value(), tid, seqno)
    {
      var inherited := if parent == null then [] else parent.clock[..];
      var n := if |inherited| > tid + 1 then |inherited| else tid + 1;
      var a := new nat[n](_ => 0);
      var i := 0;
      while i < |inherited|
        invariant 0 <= i <= |inherited|
        invariant forall j :: 0 <= j < n ==> a[j] == if j < i then inherited[j] else 0
      {
        a[i] := inherited[i];
        i := i + 1;
      }
      a[tid] := seqno;
      clock := a;
      new;
      var target := Stamp(inherited, tid, seqno);
      forall j | 0 <= j < n
        ensures clock[j] == target[j]
      {
        assert Get(target, j) == if j == tid then seqno else Get(inherited, j);
      }
    }

    /** Pointwise maximum in place; reports whether any entry grew. */
    method Merge(cv: ClockVector) returns (changed: bool)
      modifies this, clock
      ensures Value() == Join(old(Value()), old(cv.Value()))
      ensures changed <==> !Leq(old(cv.Value()), old(Value()))
      ensures clock == old(clock) || fresh(clock)
    {
      changed := false;
      ghost var mine, theirs := Value(), cv.Value();
      var other := cv.clock[..];
      Grow(|other|);
      assert forall j :: 0 <= j < clock.Length ==> clock[j] == Get(mine, j);
      var i := 0;
      ghost var target := Join(mine, theirs);
      while i < |other|
        invariant 0 <= i <= |other| <= clock.Length == |target|
        invariant clock == old(clock) || fresh(clock)
        invariant forall j :: 0 <= j < i ==> clock[j] == Get(target, j)
        invariant forall j :: i <= j < clock.Length ==> clock[j] == Get(mine, j)
        invariant changed <==> exists j :: 0 <= j < i && Get(theirs, j) > Get(mine, j)
      {
        assert Get(target, i) == Max(Get(mine, i), Get(theirs, i));
        if other[i] > clock[i] {
          clock[i] := other[i];
          changed := true;
        }
        i := i + 1;
      }
      forall j | 0 <= j < clock.Length
        ensures clock[j] == target[j]
      {
        assert Get(target, j) == Max(Get(mine, j), Get(theirs, j));
      }
      if !changed {
        forall t: nat ensures Get(theirs, t) <= Get(mine, t) {}
      }
    }

    /** Pads the array with zeros up to `n` entries. */
    method Grow(n: nat)
      modifies this
      ensures clock.Length == Max(old(clock.Length), n)
      ensures forall j :: 0 <= j < clock.Length ==> clock[j] == Get(old(Value()), j)
      ensures clock == old(clock) || fresh(clock)
    {
      if n > clock.Length {
        var bigger := new nat[n](_ => 0);
        var i := 0;
        while i < clock.Length
          invariant 0 <= i <= clock.Length < n
          invariant clock == old(clock) && bigger != clock
          invariant forall j :: 0 <= j < n ==> bigger[j] == if j < i then clock[j] else 0
        {
          bigger[i] := clock[i];
          i := i + 1;
        }
        clock := bigger;
      }
    }

    /** The in-place minimum of the collector; entries past the argument's length are kept. */
    method MinMerge(cv: ClockVector) returns (changed: bool)
      modifies this, clock
      ensures Value() == MinMerged(old(Value()), old(cv.Value()))
      ensures changed <==> Shrinks(old(Value()), old(cv.Value()))
    {
      changed := false;
      ghost var mine := Value();
      var other := cv.clock[..];
      Grow(|other|);
      var i := 0;
      while i < |other|
        invariant 0 <= i <= |other| <= clock.Length == Max(|mine|, |other|)
        invariant clock == old(clock) || fresh(clock)
        invariant forall j :: 0 <= j < i ==> clock[j] == if other[j] < Get(mine, j) then other[j] else Get(mine, j)
        invariant forall j :: i <= j < clock.Length ==> clock[j] == Get(mine, j)
        invariant changed <==> exists t: nat :: t < i && other[t] < Get(mine, t)
      {
        if other[i] < clock[i] {
          clock[i] := other[i];
          changed := true;
        }
        i := i + 1;
      }
      assert |clock[..]| == |MinMerged(mine, other)|;
    }

    method SynchronizedSince(tid: nat, seqno: nat) returns (r: bool)
      ensures r <==> Since(Value(), tid, seqno)
      ensures seqno > 0 ==> (r <==> seqno <= Get(Value(), tid))
    {
      r := if tid < clock.Length then seqno <= clock[tid] else false;
    }

    method GetClock(tid: nat) returns (r: nat)
      ensures r == Get(Value(), tid)
    {
      r := if tid < clock.Length then clock[tid] else 0;
    }
  }

  /** Some entry of `b`, within its length, is below that of `a`. */
  ghost predicate Shrinks(a: Clock, b: Clock) {
    exists t: nat :: t < |b| && b[t] < Get(a, t)
  }

  /** The value `ClockVector.MinMerge` leaves behind. */
  function MinMerged(a: Clock, b: Clock): Clock {
    seq(Max(|a|, |b|), t requires 0 <= t => if t < |b| && b[t] < Get(a, t) then b[t] else Get(a, t))
  }

  /**
   The collector's minimum is the pointwise minimum exactly when the receiver has no live
   entry past the end of the argument.
   */
  lemma MinMergeExact(a: Clock, b: Clock)
    ensures (forall t: nat :: Get(MinMerged(a, b), t) == if Get(b, t) < Get(a, t) then Get(b, t) else Get(a, t))
            <==> (forall t: nat :: |b| <= t < |a| ==> Get(a, t) == 0)
  {
    var m := MinMerged(a, b);
    if t: nat :| |b| <= t < |a| && Get(a, t) != 0 {
      assert Get(m, t) == Get(a, t);
    }
    if forall t: nat :: |b| <= t < |a| ==> Get(a, t) == 0 {
      forall t: nat ensures Get(m, t) == if Get(b, t) < Get(a, t) then Get(b, t) else Get(a, t) {}
    }
  }

  /** An argument that is shorter than the receiver leaves the entry past its end, where the minimum is 0. */
  lemma MinMergeKeepsTail()
    ensures MinMerged([0, 5], [0]) == [0, 5] && Get([0], 1) < Get(MinMerged([0, 5], [0]), 1)
  {
    assert MinMerged([0, 5], [0])[1] == 5;
  }
}
