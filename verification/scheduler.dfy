/**
 The scheduler: random change points sorted in place, priority slots updated in place, and the
 two searches for the highest available thread.
 */
module Schedulers {
  import opened Sequences
  import opened Priorities

  datatype Status = Disabled | Enabled | Sleeping

  /** The enabled threads among the first `n`, in ascending order. */
  function Ready(enabled: seq<Status>, n: nat): seq<int>
    requires n <= |enabled|
  {
    if n == 0 then []
    else Ready(enabled, n - 1) + if enabled[n - 1].Enabled? then [n - 1] else []
  }

  lemma {:induction false} ReadyIs(enabled: seq<Status>, n: nat, t: int)
    requires n <= |enabled|
    ensures t in Ready(enabled, n) <==> 0 <= t < n && enabled[t].Enabled?
  {
    if n > 0 {
      ReadyIs(enabled, n - 1, t);
    }
  }

  /** Everything from place `n` on is in order and at least as large as what comes before. */
  ghost predicate TailDone(s: seq<int>, n: int) {
    forall i, j :: 0 <= i < j < |s| && n <= j ==> s[i] <= s[j]
  }

  function Swapped(s: seq<int>, j: nat): seq<int>
    requires 0 < j < |s|
  {
    if s[j - 1] > s[j] then s[j - 1 := s[j]][j := s[j - 1]] else s
  }

  /** Place `m` gets its number when the pass comes by, and keeps it after. */
  ghost predicate InPass(s: seq<int>, j: nat, m: int) {
    && 0 < j <= |s| && TailDone(s, m + 1)
    && (forall k :: 0 <= k < j <= m + 1 ==> s[k] <= s[j - 1])
    && (j >= m + 1 ==> TailDone(s, m))
  }

  lemma PassStep(s: seq<int>, j: nat, m: int)
    requires j < |s| && InPass(s, j, m)
    ensures InPass(Swapped(s, j), j + 1, m) && multiset(Swapped(s, j)) == multiset(s)
  {
  }

  /** Permuting keeps numbers different. */
  lemma DistinctCount(s: seq<int>, x: int)
    requires Distinct(s)
    ensures multiset(s)[x] <= 1
  {
    if s != [] {
      var last := s[|s| - 1];
      DistinctCount(s[..|s| - 1], x);
      assert s == s[..|s| - 1] + [last];
      assert x == last ==> x !in s[..|s| - 1];
    }
  }

  lemma DistinctPermuted(s: seq<int>, s': seq<int>)
    requires Distinct(s) && multiset(s) == multiset(s')
    ensures Distinct(s')
  {
    forall i, j | 0 <= i < j < |s'| ensures s'[i] != s'[j] {
      DistinctCount(s, s'[j]);
      assert s' == s'[..j] + [s'[j]] + s'[j + 1..];
      assert s'[i] == s'[..j][i];
    }
  }

  class Scheduler {
    var highvec: seq<int>
    var highsize: nat
    var lowvec: seq<int>
    var chgPts: seq<int>
    var enabled: seq<Status>

    ghost predicate Valid()
      reads this
    {
      highsize == |highvec|
    }

    ghost function Now(): Slots
      reads this
    {
      Slots(highvec, lowvec)
    }

    /** `setlowvec`: with `bugdepth` at most 1 the one slot holds 0, the number of the model's own thread. */
    constructor (bugdepth: int)
      ensures Valid() && Now() == Start(bugdepth) && chgPts == [] && enabled == []
    {
      highvec, highsize, chgPts, enabled := [], 0, [], [];
      lowvec := if bugdepth > 1 then seq(bugdepth, _ => EMPTY) else [0];
    }

    /**
     `set_chg_pts_byread`, with the random numbers as an argument: it fails when they run out,
     where the source draws on.
     */
    method SetChangePoints(bugdepth: int, range: int, seed: int, draws: seq<Raw>) returns (done: bool)
      requires bugdepth > 0 ==> range != 0
      modifies this`chgPts
      ensures if bugdepth <= 0 then done && chgPts == [] else done <==> bugdepth <= |Kept(draws, range, seed, |draws|)|
      ensures bugdepth > 0 && done ==> |chgPts| == bugdepth && Increasing(chgPts)
      ensures bugdepth > 0 && done ==> multiset(chgPts) == multiset(Kept(draws, range, seed, |draws|)[..bugdepth])
    {
      if bugdepth <= 0 {
        chgPts := [];
        return true;
      }
      done := DrawPoints(bugdepth, range, seed, draws);
      if done {
        ghost var kept := Kept(draws, range, seed, |draws|);
        KeptRange(draws, range, seed, |draws|);
        assert Distinct(kept[..bugdepth]);
        SortPoints();
      }
    }

    method DrawPoints(bugdepth: nat, range: int, seed: int, draws: seq<Raw>) returns (done: bool)
      requires range != 0
      modifies this`chgPts
      ensures done <==> bugdepth <= |Kept(draws, range, seed, |draws|)|
      ensures done ==> chgPts == Kept(draws, range, seed, |draws|)[..bugdepth]
    {
      chgPts := seq(bugdepth, _ => 0);
      var i, used := 0, 0;
      while i < bugdepth
        invariant i <= bugdepth == |chgPts| && used <= |draws|
        invariant chgPts[..i] == Kept(draws, range, seed, used)
        invariant forall k :: i <= k < bugdepth ==> chgPts[k] == 0
      {
        if used == |draws| {
          return false;
        }
        var tmp := Draw(draws[used], range, seed);
        used := used + 1;
        while tmp in chgPts
          invariant 0 < used <= |draws| && tmp == Draw(draws[used - 1], range, seed)
          invariant chgPts[..i] == Kept(draws, range, seed, used - 1)
          decreases |draws| - used
        {
          assert tmp in chgPts[..i];
          if used == |draws| {
            return false;
          }
          tmp := Draw(draws[used], range, seed);
          used := used + 1;
        }
        chgPts := chgPts[i := tmp];
        assert chgPts[..i + 1] == chgPts[..i] + [tmp];
        i := i + 1;
      }
      KeptGrows(draws, range, seed, used, |draws|);
      assert chgPts[..bugdepth] == chgPts;
      done := true;
    }

    /** Bubble sort with full passes. */
    method SortPoints()
      requires Distinct(chgPts)
      modifies this`chgPts
      ensures |chgPts| == |old(chgPts)| && Increasing(chgPts) && multiset(chgPts) == multiset(old(chgPts))
    {
      var n := |chgPts|;
      for i := 0 to n
        invariant |chgPts| == n && multiset(chgPts) == multiset(old(chgPts))
        invariant TailDone(chgPts, n - i)
      {
        for j := 1 to n
          invariant |chgPts| == n && multiset(chgPts) == multiset(old(chgPts))
          invariant InPass(chgPts, j, n - i - 1)
        {
          PassStep(chgPts, j, n - i - 1);
          hide InPass;
          chgPts := Swapped(chgPts, j);
        }
      }
      DistinctPermuted(old(chgPts), chgPts);
    }

    method SetEnabled(t: nat, status: Status)
      modifies this`enabled
      ensures |enabled| == (if t < |old(enabled)| then |old(enabled)| else t + 1) && enabled[t] == status
      ensures forall u :: 0 <= u < |enabled| && u != t ==> enabled[u] == if u < |old(enabled)| then old(enabled)[u] else Disabled
    {
      if t >= |enabled| {
        enabled := enabled + seq(t + 1 - |enabled|, _ => Disabled);
      }
      enabled := enabled[t := status];
    }

    /** `highvec_addthread`; `pick` is the random number that chooses the slot. */
    method InsertHigh(t: int, pick: nat)
      requires Valid()
      modifies this`highvec, this`highsize
      ensures Valid() && highvec == Inserted(old(highvec), pick % (|old(highvec)| + 1), t)
    {
      var oldhigh := highvec;
      highsize := highsize + 1;
      highvec := highvec + [0];
      var tmp := pick % highsize;
      if tmp >= highsize - 1 {
        highvec := highvec[highsize - 1 := t];
      } else {
        highvec := highvec[tmp := t];
        for i := tmp + 1 to highsize
          invariant |highvec| == highsize == |oldhigh| + 1
          invariant highvec[..i] == Inserted(oldhigh, tmp, t)[..i]
        {
          highvec := highvec[i := oldhigh[i - 1]];
          assert highvec[..i + 1] == highvec[..i] + [oldhigh[i - 1]];
        }
      }
      assert highvec == Inserted(oldhigh, tmp, t);
    }

    method AddThread(t: nat, pick: nat)
      requires Valid() && t > 0
      modifies this`highvec, this`highsize, this`enabled
      ensures Valid() && highvec == Inserted(old(highvec), pick % (|old(highvec)| + 1), t)
      ensures forall u :: u in Ready(enabled, |enabled|) <==> u == t || u in Ready(old(enabled), |old(enabled)|)
    {
      SetEnabled(t, Enabled);
      forall u ensures u in Ready(enabled, |enabled|) <==> u == t || u in Ready(old(enabled), |old(enabled)|) {
        ReadyIs(enabled, |enabled|, u);
        ReadyIs(old(enabled), |old(enabled)|, u);
      }
      InsertHigh(t, pick);
    }

    /** Empties the first slot that holds `t`. */
    method MoveThread(k: nat, t: int)
      requires Valid() && k < |lowvec|
      modifies this`highvec, this`lowvec
      ensures Valid() && Now() == Moved(old(Now()), k, t)
    {
      var inhigh := false;
      var i := 0;
      while i < highsize && !inhigh
        invariant i <= highsize && Valid() && lowvec == old(lowvec)
        invariant inhigh ==> highvec == Removed(old(highvec), t) && Find(old(highvec), t) < |old(highvec)|
        invariant !inhigh ==> highvec == old(highvec) && forall j :: 0 <= j < i ==> highvec[j] != t
        decreases highsize - i, !inhigh
      {
        if highvec[i] == t {
          FindIs(highvec, t, i);
          highvec := highvec[i := EMPTY];
          inhigh := true;
        } else {
          i := i + 1;
        }
      }
      if !inhigh {
        FindIs(highvec, t, highsize);
        var j := 0;
        while j < |lowvec| && lowvec[j] != t
          invariant j <= |lowvec|
          invariant lowvec == old(lowvec) && forall m :: 0 <= m < j ==> lowvec[m] != t
        {
          j := j + 1;
        }
        FindIs(lowvec, t, j);
        if j < |lowvec| {
          lowvec := lowvec[j := EMPTY];
        }
      }
      lowvec := lowvec[k := t];
    }

    method FindChangeIndex(n: int) returns (k: int)
      ensures k == ChangeIndex(chgPts, n)
    {
      k := -1;
      for i := 0 to |chgPts|
        invariant k == ChangeIndex(chgPts[..i], n)
      {
        assert chgPts[..i + 1][..i] == chgPts[..i];
        if chgPts[i] == n {
          k := i;
        }
      }
      assert chgPts[..|chgPts|] == chgPts;
    }

    /** `find_highest` answers 0 when no slot holds an available thread. */
    method FindHighest(avail: seq<int>) returns (t: int)
      requires Valid() && EMPTY !in avail
      ensures t == if FirstOf(Order(Now()), avail) == EMPTY then 0 else FirstOf(Order(Now()), avail)
    {
      t := 0;
      var found, k := false, 0;
      while k < highsize && !found
        invariant k <= highsize
        invariant !found ==> t == 0 && forall i :: 0 <= i < k ==> highvec[i] !in avail
        invariant found ==> t == FirstOf(Order(Now()), avail) && t in avail
      {
        if highvec[k] in avail {
          found := true;
          t := highvec[k];
          FirstIs(Order(Now()), avail, k);
        }
        k := k + 1;
      }
      if !found {
        k := 0;
        while k < |lowvec| && !found
          invariant k <= |lowvec|
          invariant !found ==> t == 0 && forall i :: 0 <= i < k ==> lowvec[i] !in avail
          invariant found ==> t == FirstOf(Order(Now()), avail) && t in avail
        {
          if lowvec[k] in avail {
            found := true;
            t := lowvec[k];
            FirstIs(Order(Now()), avail, |highvec| + k);
          }
          k := k + 1;
        }
      }
      if !found {
        NoFirst(Order(Now()), avail);
      }
    }

    /** The list of enabled threads both callers build. */
    method AvailableThreads() returns (avail: seq<int>)
      ensures avail == Ready(enabled, |enabled|)
    {
      avail := [];
      for i := 0 to |enabled|
        invariant avail == Ready(enabled, i)
      {
        if enabled[i] == Enabled {
          avail := avail + [i];
        }
      }
    }

    method GetHighestThread() returns (t: int)
      requires Valid()
      ensures t == Highest(Now(), Ready(enabled, |enabled|))
    {
      var avail := AvailableThreads();
      if |avail| == 1 {
        return avail[0];
      }
      for k := 0 to |highvec|
        invariant forall i :: 0 <= i < k ==> highvec[i] !in avail
      {
        if highvec[k] in avail {
          FirstIs(Order(Now()), avail, k);
          return highvec[k];
        }
      }
      for k := 0 to |lowvec|
        invariant forall i :: 0 <= i < k ==> lowvec[i] !in avail
      {
        if lowvec[k] in avail {
          FirstIs(Order(Now()), avail, |highvec| + k);
          return lowvec[k];
        }
      }
      NoFirst(Order(Now()), avail);
      t := EMPTY;
    }

    /** The change-point block of `check_current_action`. */
    method CountInstruction(n: int) returns (reached: bool)
      requires Valid() && |chgPts| <= |lowvec|
      modifies this`highvec, this`lowvec
      ensures Valid() && reached == (ChangeIndex(chgPts, n) >= 0)
      ensures Now() == if !reached then old(Now()) else Moved(old(Now()), ChangeIndex(chgPts, n), Highest(old(Now()), Ready(enabled, |enabled|)))
    {
      var k := FindChangeIndex(n);
      reached := k != -1;
      if reached {
        var t := GetHighestThread();
        MoveThread(k, t);
      }
    }
  }

  /** With every enabled thread in a slot, both searches find the highest of them. */
  method BothAgree(s: Scheduler, live: set<int>) returns (a: int, b: int)
    requires s.Valid() && Ranked(s.Now(), live) && Available(Ready(s.enabled, |s.enabled|), live)
    ensures a == b && 0 <= a < |s.enabled| && s.enabled[a].Enabled?
    ensures forall u: int :: 0 <= u < |s.enabled| && s.enabled[u].Enabled? ==> Find(Order(s.Now()), a) <= Find(Order(s.Now()), u)
  {
    var avail := s.AvailableThreads();
    a := s.FindHighest(avail);
    b := s.GetHighestThread();
    HighestRanks(s.Now(), live, avail, avail[0]);
    ReadyIs(s.enabled, |s.enabled|, a);
    forall u: int | 0 <= u < |s.enabled| && s.enabled[u].Enabled?
      ensures Find(Order(s.Now()), a) <= Find(Order(s.Now()), u)
    {
      ReadyIs(s.enabled, |s.enabled|, u);
      HighestRanks(s.Now(), live, avail, u);
    }
  }
}
