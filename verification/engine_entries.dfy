/**
 Clock entries in every run: an entry of a thread is the number of one of its actions.
 */
module EngineEntries {
  import opened Options
  import opened Clocks
  import opened MoGraph
  import opened Actions
  import opened Coherence
  import opened ExecutionState
  import opened Engine
  import opened EngineClocks
  import opened EngineSync

  /** A clock entry of a thread is the number of one of its actions. */
  ghost predicate EntryActs(m: Infos, cv: Clock, t: nat) {
    Get(cv, t) > 0 ==> exists x :: x in m && x.tid == t && x.seqno == Get(cv, t)
  }

  ghost predicate Entries(m: Infos, cv: Clock) {
    forall t: nat {:trigger EntryActs(m, cv, t)} :: EntryActs(m, cv, t)
  }

  ghost predicate ActEntries(m: Infos, a: Act) {
    a in m ==> Entries(m, m[a].cv)
  }

  ghost predicate EntriesInv(s: State) {
    && (forall a {:trigger ActEntries(s.info, a)} :: ActEntries(s.info, a))
    && (forall t {:trigger AcqOf(s, t)} :: Entries(s.info, AcqOf(s, t)))
  }

  lemma EntryGrows(m: Infos, n: Infos, cv: Clock, t: nat)
    requires GrowsTo(m, n) && EntryActs(m, cv, t)
    ensures EntryActs(n, cv, t)
  {
    if Get(cv, t) > 0 {
      var x :| x in m && x.tid == t && x.seqno == Get(cv, t);
      assert x in n;
    }
  }

  lemma {:induction false} RelEntries(s: State, w: Act, t: nat)
    requires EntriesInv(s)
    ensures EntryActs(s.info, RelClock(s.info, w), t)
    decreases w.seqno
  {
    HeadEntries(s, w, t);
    if w in s.info && s.info[w].kind.Rmw? && s.info[w].rf.Some? && s.info[w].rf.value.seqno < w.seqno {
      RelEntries(s, s.info[w].rf.value, t);
    }
  }

  lemma HeadEntries(s: State, w: Act, t: nat)
    requires EntriesInv(s)
    ensures EntryActs(s.info, HeadClock(s.info, w), t)
  {
    assert ActEntries(s.info, w);
    if w in s.info && s.info[w].fence.Some? {
      assert ActEntries(s.info, s.info[w].fence.value);
    }
    assert EntryActs(s.info, HeadClock(s.info, w), t);
  }

  /** Where an entry of a new action's clock comes from. */
  lemma NewEntry(s: State, l: Label, t: State, i: Info, k: nat)
    requires Inv(s) && EntriesInv(s) && Recorded(s, l, t, i) && ClockOf(s, l, i.cv) && GrowsTo(s.info, t.info)
    ensures EntryActs(t.info, i.cv, k)
  {
    var c := Begun(s, l);
    if k == l.tid {
      OwnEntry(s, l, t, i);
      assert ActOf(s, l) in t.info;
    } else {
      ParentEntry(s, l.tid, k);
      assert Get(c.cv, k) == Get(ParentCv(s, l.tid), k);
      if l.FenceOp? {
        assert EntryActs(s.info, AcqOf(s, l.tid), k);
        SameGet(i.cv, if l.order.IsAcquire() then Join(c.cv, AcqOf(s, l.tid)) else c.cv, k);
      } else if l.Sync? {
        if l.first.Some? {
          assert ActEntries(s.info, l.first.value) && EntryActs(s.info, CvOf(s.info, l.first.value), k);
        }
        SameGet(i.cv, if l.first.Some? then Join(c.cv, CvOf(s.info, l.first.value)) else c.cv, k);
      } else if Reads(l) {
        RelEntries(s, l.rf, k);
        SameGet(i.cv, if c.order.IsAcquire() then Join(c.cv, RelClock(s.info, l.rf)) else c.cv, k);
      }
      assert EntryActs(s.info, i.cv, k);
      EntryGrows(s.info, t.info, i.cv, k);
    }
  }

  lemma SameGet(a: Clock, b: Clock, k: nat)
    requires SameClock(a, b)
    ensures Get(a, k) == Get(b, k)
  {
    assert Get(a, k) <= Get(b, k) <= Get(a, k);
  }

  lemma OwnEntry(s: State, l: Label, t: State, i: Info)
    requires Inv(s) && Recorded(s, l, t, i) && ClockOf(s, l, i.cv)
    ensures Get(i.cv, l.tid) == s.used + 1
  {
    var c := Begun(s, l);
    BeginOk(s, l.tid, c.act.loc, c.order);
    ClockGrows(s, l, i.cv);
    assert Get(c.cv, l.tid) <= Get(i.cv, l.tid);
    if l.FenceOp? {
      FenceClockOk(s, c, i.cv);
    } else if l.Sync? {
      if l.first.Some? {
        assert WfAct(s.info, s.used, l.first.value);
        JoinOk(c, CvOf(s.info, l.first.value), i.cv);
      } else {
        SameOk(c, i.cv);
      }
    } else if Reads(l) {
      assert WfAct(s.info, s.used, l.rf);
      RelClockBound(s.info, s.used, l.rf, l.tid);
      SameGet(i.cv, if c.order.IsAcquire() then Join(c.cv, RelClock(s.info, l.rf)) else c.cv, l.tid);
    }
  }

  lemma ParentEntry(s: State, tid: nat, k: nat)
    requires EntriesInv(s)
    ensures EntryActs(s.info, ParentCv(s, tid), k)
  {
    if tid in s.last {
      assert ActEntries(s.info, s.last[tid]);
    } else if tid in s.creation {
      assert ActEntries(s.info, s.creation[tid]);
    }
    assert EntryActs(s.info, ParentCv(s, tid), k);
  }

  lemma StepEntries(s: State, l: Label, t: State)
    requires Inv(s) && SaturatedInv(s) && EntriesInv(s) && Step(s, l, t)
    ensures EntriesInv(t)
  {
    StepGrows(s, l, t);
    if l.Defer? {
      forall k ensures Entries(t.info, AcqOf(t, k)) {
        assert Entries(s.info, AcqOf(s, k));
      }
    } else {
      hide Inv;
      hide Step;
      var i := StepRecorded(s, l, t);
      forall a ensures ActEntries(t.info, a) {
        assert ActEntries(s.info, a);
        if a in t.info {
          forall k: nat ensures EntryActs(t.info, t.info[a].cv, k) {
            if a == ActOf(s, l) {
              NewEntry(s, l, t, i, k);
            } else {
              assert EntryActs(s.info, s.info[a].cv, k);
              EntryGrows(s.info, t.info, s.info[a].cv, k);
            }
          }
        }
      }
      forall h ensures Entries(t.info, AcqOf(t, h)) {
        forall k: nat ensures EntryActs(t.info, AcqOf(t, h), k) {
          AcqEntry(s, l, t, i, h, k);
        }
      }
    }
  }

  lemma AcqEntry(s: State, l: Label, t: State, i: Info, h: nat, k: nat)
    requires EntriesInv(s) && Recorded(s, l, t, i) && GrowsTo(s.info, t.info)
    ensures EntryActs(t.info, AcqOf(t, h), k)
  {
    AcqGrows(s, l, t, i, h, k);
    assert EntryActs(s.info, AcqOf(s, h), k);
    if Reads(l) {
      RelEntries(s, l.rf, k);
    }
    assert EntryActs(s.info, AcqOf(t, h), k);
    EntryGrows(s.info, t.info, AcqOf(t, h), k);
  }

  lemma {:induction false} RunEntries(ss: seq<State>, ls: seq<Label>, i: nat)
    requires IsRun(ss, ls) && i < |ss|
    ensures EntriesInv(ss[i])
  {
    hide Inv;
    hide Step;
    hide SaturatedInv;
    hide EntriesInv;
    if i == 0 {
      InitEntries();
    } else {
      RunEntries(ss, ls, i - 1);
      RunInv(ss, ls, i - 1);
      RunSaturated(ss, ls, i - 1);
      StepEntries(ss[i - 1], ls[i - 1], ss[i]);
    }
  }

  lemma InitEntries()
    ensures EntriesInv(Init())
  {
    forall t ensures Entries(Init().info, AcqOf(Init(), t)) {}
  }

  lemma EntryOf(s: State, b: Act, k: nat) returns (x: Act)
    requires EntriesInv(s) && b in s.info && Get(s.info[b].cv, k) > 0
    ensures x in s.info && x.tid == k && x.seqno == Get(s.info[b].cv, k) && HappensBefore(s.info, x, b)
  {
    assert ActEntries(s.info, b) && EntryActs(s.info, s.info[b].cv, k);
    x :| x in s.info && x.tid == k && x.seqno == Get(s.info[b].cv, k);
  }
}
