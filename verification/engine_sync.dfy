/**
 What synchronizes in every run: happens-before, which the engine keeps in clock vectors, is
 exactly what program order, thread creation, joins, locks, and release sequences read by
 acquiring reads and fences make of it.
 */
module EngineSync {
  import opened Options
  import opened Clocks
  import opened MoGraph
  import opened Actions
  import opened Coherence
  import opened ExecutionState
  import opened Engine
  import opened EngineClocks

  // ----- release sequences, without clocks -----

  /** `ch` leads to `w`: every action after the first is an RMW that reads from the one before. */
  ghost predicate RmwChain(m: Infos, ch: seq<Act>, w: Act) {
    && ch != [] && ch[|ch| - 1] == w && ch[0] in m
    && forall k :: 0 < k < |ch| ==> ch[k] in m && m[ch[k]].kind.Rmw? && m[ch[k]].rf == Some(ch[k - 1])
  }

  /** `x` is what a release sequence headed by `h` releases: a releasing `h`, or a release fence before it in its thread. */
  ghost predicate Releases(m: Infos, x: Act, h: Act) {
    && x in m && h in m && m[x].order in {Release, AcqRel, SeqCst}
    && (x == h || (m[x].kind.Fence? && x.tid == h.tid && x.seqno < h.seqno))
  }

  /** `a` acquires from the read `r`: itself, or a read before the fence `a` in its thread. */
  ghost predicate Acquires(m: Infos, a: Act, r: Act) {
    && a in m && r in m && m[r].IsRead() && m[a].order in {Acquire, AcqRel, SeqCst}
    && (a == r || (m[a].kind.Fence? && r.tid == a.tid && r.seqno < a.seqno))
  }

  /** `x` synchronizes with `a` through the release sequence `ch`, which `r` reads. */
  ghost predicate SyncsVia(m: Infos, x: Act, a: Act, r: Act, ch: seq<Act>) {
    Acquires(m, a, r) && m[r].rf.Some? && RmwChain(m, ch, m[r].rf.value) && Releases(m, x, ch[0])
  }

  ghost predicate Syncs(m: Infos, x: Act, a: Act) {
    exists r, ch :: SyncsVia(m, x, a, r, ch)
  }

  // ----- what a step records -----

  function ActOf(s: State, l: Label): Act {
    Act(l.tid, s.used + 1, if l.FenceOp? then FENCE_LOCATION else if l.Defer? then 0 else l.loc)
  }

  predicate Reads(l: Label) {
    l.Load? || l.Update? || l.FailedSwap?
  }

  function OrderOf(l: Label): Order {
    if l.Sync? || l.Spawn? || l.Defer? then SeqCst else l.order
  }

  function KindOf(l: Label): Kind {
    match l
    case Load(_, _, _, _, _, _) => Read
    case FailedSwap(_, _, _, _, _, _) => Read
    case Store(_, _, _, _) => Write
    case Update(_, _, _, _, _, _, _) => Rmw
    case FenceOp(_, _) => Kind.Fence
    case _ => Other
  }

  /** The value an action carries: what a write stores; a failed compare-and-swap keeps what it expected. */
  function ValueOf(l: Label): nat {
    if l.Store? || l.Update? then l.value
    else if l.FailedSwap? && l.purpose.CompareSwap? then l.purpose.expected
    else 0
  }

  function Begun(s: State, l: Label): Cur {
    Begin(s, l.tid, ActOf(s, l).loc, OrderOf(l))
  }

  /** The record that step `l` makes, and what becomes of the threads' fences and clocks. */
  ghost predicate Recorded(s: State, l: Label, t: State, i: Info) {
    && t.info == s.info[ActOf(s, l) := i] && t.used == s.used + 1
    && i.order == OrderOf(l) && i.fence == MapGet(s.relFence, l.tid)
    && t.last == s.last[l.tid := ActOf(s, l)]
    && t.relFence == (if l.FenceOp? && OrderOf(l).IsRelease() then s.relFence[l.tid := ActOf(s, l)] else s.relFence)
    && (l.Spawn? ==> t.creation == s.creation[s.threads := ActOf(s, l)] && t.threads == s.threads + 1)
    && (!l.Spawn? ==> t.creation == s.creation && t.threads == s.threads)
    && (if Reads(l) then i.IsRead() && i.rf == Some(l.rf) && AcqUpdated(s, l.tid, l.rf, t.acqCv) && l.rf in s.info
        else !i.IsRead() && i.rf.None? && t.acqCv == s.acqCv)
    && i.kind == KindOf(l) && i.value == ValueOf(l)
  }

  /** The clock of that record. */
  ghost predicate ClockOf(s: State, l: Label, cv: Clock) {
    var c := Begun(s, l);
    match l
    case FenceOp(tid, order) => SameClock(cv, if order.IsAcquire() then Join(c.cv, AcqOf(s, tid)) else c.cv)
    case Sync(_, _, first) =>
      && (first.Some? ==> first.value in s.info)
      && SameClock(cv, if first.Some? then Join(c.cv, CvOf(s.info, first.value)) else c.cv)
    case _ => if Reads(l) then ReadClock(s, c, l.rf, cv) else cv == c.cv
  }

  lemma StepRecorded(s: State, l: Label, t: State) returns (i: Info)
    requires Inv(s) && Step(s, l, t) && !l.Defer?
    ensures Recorded(s, l, t, i) && ClockOf(s, l, i.cv)
  {
    hide Recorded;
    hide ClockOf;
    if Reads(l) {
      i := ReadsRecorded(s, l, t);
    } else {
      hide Inv;
      if l.FenceOp? {
        FenceRecorded(s, l.tid, l.order, t);
      } else if l.Sync? {
        SyncRecorded(s, l.tid, l.loc, l.first, t);
      } else if l.Store? {
        StoreRecorded(s, l, t);
      } else {
        SpawnRecorded(s, l, t);
      }
      i := t.info[ActOf(s, l)];
    }
  }

  lemma StoreRecorded(s: State, l: Label, t: State)
    requires Step(s, l, t) && l.Store?
    ensures ActOf(s, l) in t.info && Recorded(s, l, t, t.info[ActOf(s, l)]) && ClockOf(s, l, t.info[ActOf(s, l)].cv)
  {
  }

  lemma SpawnRecorded(s: State, l: Label, t: State)
    requires Step(s, l, t) && l.Spawn?
    ensures ActOf(s, l) in t.info && Recorded(s, l, t, t.info[ActOf(s, l)]) && ClockOf(s, l, t.info[ActOf(s, l)].cv)
  {
  }

  lemma FenceRecorded(s: State, tid: nat, order: Order, t: State)
    requires FenceStep(s, tid, order, t)
    ensures var l := FenceOp(tid, order); ActOf(s, l) in t.info && Recorded(s, l, t, t.info[ActOf(s, l)]) && ClockOf(s, l, t.info[ActOf(s, l)].cv)
  {
  }

  lemma SyncRecorded(s: State, tid: nat, loc: nat, first: Option<Act>, t: State)
    requires SyncStep(s, tid, loc, first, t)
    ensures var l := Sync(tid, loc, first); ActOf(s, l) in t.info && Recorded(s, l, t, t.info[ActOf(s, l)]) && ClockOf(s, l, t.info[ActOf(s, l)].cv)
  {
  }

  lemma ReadsRecorded(s: State, l: Label, t: State) returns (i: Info)
    requires Inv(s) && Step(s, l, t) && Reads(l)
    ensures Recorded(s, l, t, i) && ClockOf(s, l, i.cv)
  {
    ReadKnown(s, l, t);
    hide Inv;
    i := t.info[ActOf(s, l)];
    match l
    case Load(_, _, _, _, _, _) => LoadRecorded(s, l, t, i);
    case Update(_, _, _, _, _, _, _) => UpdateRecorded(s, l, t, i);
    case FailedSwap(_, _, _, _, _, _) => FailedSwapRecorded(s, l, t, i);
  }

  lemma ReadKnown(s: State, l: Label, t: State)
    requires Inv(s) && Step(s, l, t) && Reads(l)
    ensures l.rf in s.info && ActOf(s, l) in t.info
  {
    var p := if l.Load? then PlainRead else l.purpose;
    assert l.rf in MayReadFrom(s, Begun(s, l), p, l.history, s.threads);
    CandidateWrites(s, Begun(s, l), p, l.history, s.threads, l.rf);
  }

  lemma LoadRecorded(s: State, l: Label, t: State, i: Info)
    requires Step(s, l, t) && l.Load? && l.rf in s.info && ActOf(s, l) in t.info && i == t.info[ActOf(s, l)]
    ensures Recorded(s, l, t, i) && ClockOf(s, l, i.cv)
  {
  }

  lemma UpdateRecorded(s: State, l: Label, t: State, i: Info)
    requires Step(s, l, t) && l.Update? && l.rf in s.info && ActOf(s, l) in t.info && i == t.info[ActOf(s, l)]
    ensures Recorded(s, l, t, i) && ClockOf(s, l, i.cv)
  {
    hide ReadPart;
    hide AddedRmw;
    hide AddedPruned;
    hide EdgeSet;
    hide RelClock;
    hide WouldSucceed;
    var j: Info, g1, g2 :| j.value == l.value
      && RmwStepVia(s, Begin(s, l.tid, l.loc, l.order), l.purpose, l.rf, l.history, j, g1, g2, t);
    assert i == j;
  }

  lemma FailedSwapRecorded(s: State, l: Label, t: State, i: Info)
    requires Step(s, l, t) && l.FailedSwap? && l.rf in s.info && ActOf(s, l) in t.info && i == t.info[ActOf(s, l)]
    ensures Recorded(s, l, t, i) && ClockOf(s, l, i.cv)
  {
  }

  // ----- invariants -----

  ghost predicate ReleaseFence(m: Infos, f: Act) {
    f in m && m[f].kind.Fence? && m[f].order in {Release, AcqRel, SeqCst}
  }

  /** The fence a thread would release with is its youngest. */
  ghost predicate FenceKnown(s: State, f: Act) {
    ReleaseFence(s.info, f) ==> f.tid in s.relFence && f.seqno <= s.relFence[f.tid].seqno
  }

  /** The fence recorded with an action is the youngest before it in its thread. */
  ghost predicate FenceNoted(m: Infos, a: Act, f: Act) {
    a in m && ReleaseFence(m, f) && f.tid == a.tid && f.seqno < a.seqno
    ==> m[a].fence.Some? && f.seqno <= m[a].fence.value.seqno
  }

  ghost predicate FenceIsOne(m: Infos, a: Act) {
    a in m && m[a].fence.Some? ==> ReleaseFence(m, m[a].fence.value)
  }

  /** What a thread's reads could acquire is what its next acquire fence merges. */
  ghost predicate AcqKnown(s: State, r: Act) {
    r in s.info && s.info[r].rf.Some? ==> Leq(RelClock(s.info, s.info[r].rf.value), AcqOf(s, r.tid))
  }

  ghost predicate AcqFrom(s: State, t: nat, x: Act) {
    x in s.info && x.seqno <= Get(AcqOf(s, t), x.tid) ==> exists r :: AcqRead(s, t, x, r)
  }

  ghost predicate AcqRead(s: State, t: nat, x: Act, r: Act) {
    r in s.info && r.tid == t && s.info[r].rf.Some? && x.seqno <= Get(RelClock(s.info, s.info[r].rf.value), x.tid)
  }

  /** Every action of a thread knows what the action that created the thread knew. */
  ghost predicate ParentKnown(s: State, a: Act) {
    a in s.info && a.tid in s.creation ==> Leq(CvOf(s.info, s.creation[a.tid]), s.info[a].cv)
  }

  /** An action that acquires from a read holds what the release sequence read carries. */
  ghost predicate AcqHolds(m: Infos, a: Act, r: Act) {
    Acquires(m, a, r) && m[r].rf.Some? ==> Leq(RelClock(m, m[r].rf.value), m[a].cv)
  }

  /** `x` happens before an earlier action of `a`'s thread, or before the one that created it. */
  ghost predicate Inherited(s: State, x: Act, a: Act) {
    || (exists b :: b in s.info && b.tid == a.tid && b.seqno < a.seqno && HappensBefore(s.info, x, b))
    || (a.tid in s.creation && s.creation[a.tid] in s.info && HappensBefore(s.info, x, s.creation[a.tid]))
  }

  ghost predicate AcquiredFrom(m: Infos, x: Act, a: Act, r: Act) {
    Acquires(m, a, r) && m[r].rf.Some? && x.seqno <= Get(RelClock(m, m[r].rf.value), x.tid)
  }

  /** What an action knows of other threads it inherited or acquired; joins and locks aside. */
  ghost predicate Learned(s: State, x: Act, a: Act) {
    x in s.info && a in s.info && x.tid != a.tid && HappensBefore(s.info, x, a) && !s.info[a].kind.Other?
    ==> Inherited(s, x, a) || exists r :: AcquiredFrom(s.info, x, a, r)
  }

  ghost predicate SyncInv(s: State) {
    && (forall f {:trigger FenceKnown(s, f)} :: FenceKnown(s, f))
    && (forall t :: t in s.relFence ==> ReleaseFence(s.info, s.relFence[t]))
    && (forall a, f {:trigger FenceNoted(s.info, a, f)} :: FenceNoted(s.info, a, f))
    && (forall a {:trigger FenceIsOne(s.info, a)} :: FenceIsOne(s.info, a))
    && (forall r {:trigger AcqKnown(s, r)} :: AcqKnown(s, r))
    && (forall t, x {:trigger AcqFrom(s, t, x)} :: AcqFrom(s, t, x))
    && (forall a {:trigger ParentKnown(s, a)} :: ParentKnown(s, a))
    && (forall a, r {:trigger AcqHolds(s.info, a, r)} :: AcqHolds(s.info, a, r))
    && (forall x, a {:trigger Learned(s, x, a)} :: Learned(s, x, a))
    && (forall t :: t in s.creation ==> t < s.threads)
  }

  lemma InitSync()
    ensures SyncInv(Init())
  {
    var s := Init();
    forall f ensures FenceKnown(s, f) {}
    forall a, f ensures FenceNoted(s.info, a, f) {}
    forall r ensures AcqKnown(s, r) {}
    forall t, x ensures AcqFrom(s, t, x) {}
    forall a ensures ParentKnown(s, a) {}
    forall a, r ensures AcqHolds(s.info, a, r) {}
    forall x, a ensures Learned(s, x, a) {}
  }

  /** Recording an action changes no older record and no release-sequence clock. */
  lemma RecordedGrows(s: State, l: Label, t: State, i: Info)
    requires Inv(s) && Recorded(s, l, t, i)
    ensures ActOf(s, l) !in s.info && Extends(s.info, t.info, s.used)
  {
    assert WfAct(s.info, s.used, ActOf(s, l));
  }

  lemma FenceKnownStep(s: State, l: Label, t: State, i: Info, f: Act)
    requires Inv(s) && SyncInv(s) && Recorded(s, l, t, i)
    ensures FenceKnown(t, f)
  {
    assert FenceKnown(s, f);
    assert WfAct(s.info, s.used, f);
  }

  lemma FenceNotedStep(s: State, l: Label, t: State, i: Info, a: Act, f: Act)
    requires Inv(s) && SyncInv(s) && Recorded(s, l, t, i)
    ensures FenceNoted(t.info, a, f)
  {
    assert FenceNoted(s.info, a, f) && FenceKnown(s, f);
    assert WfAct(s.info, s.used, a);
  }

  lemma FenceIsOneStep(s: State, l: Label, t: State, i: Info, a: Act)
    requires Inv(s) && SyncInv(s) && Recorded(s, l, t, i)
    ensures FenceIsOne(t.info, a)
  {
    RecordedGrows(s, l, t, i);
    assert FenceIsOne(s.info, a);
  }

  lemma ReleaseFencesStep(s: State, l: Label, t: State, i: Info)
    requires Inv(s) && SyncInv(s) && Recorded(s, l, t, i)
    ensures forall k :: k in t.relFence ==> ReleaseFence(t.info, t.relFence[k])
  {
    RecordedGrows(s, l, t, i);
  }

  lemma FencesStep(s: State, l: Label, t: State, i: Info)
    requires Inv(s) && SyncInv(s) && Recorded(s, l, t, i)
    ensures forall f {:trigger FenceKnown(t, f)} :: FenceKnown(t, f)
    ensures forall k :: k in t.relFence ==> ReleaseFence(t.info, t.relFence[k])
    ensures forall a, f {:trigger FenceNoted(t.info, a, f)} :: FenceNoted(t.info, a, f)
    ensures forall a {:trigger FenceIsOne(t.info, a)} :: FenceIsOne(t.info, a)
  {
    ReleaseFencesStep(s, l, t, i);
    hide Inv;
    hide SyncInv;
    hide Recorded;
    forall f ensures FenceKnown(t, f) {
      FenceKnownStep(s, l, t, i, f);
    }
    forall a, f ensures FenceNoted(t.info, a, f) {
      FenceNotedStep(s, l, t, i, a, f);
    }
    forall a ensures FenceIsOne(t.info, a) {
      FenceIsOneStep(s, l, t, i, a);
    }
  }

  lemma AcqStep(s: State, l: Label, t: State, i: Info)
    requires Inv(s) && SyncInv(s) && Recorded(s, l, t, i)
    ensures forall r {:trigger AcqKnown(t, r)} :: AcqKnown(t, r)
    ensures forall k, x {:trigger AcqFrom(t, k, x)} :: AcqFrom(t, k, x)
  {
    forall r ensures AcqKnown(t, r) {
      AcqKnownStep(s, l, t, i, r);
    }
    forall k, x ensures AcqFrom(t, k, x) {
      AcqFromStep(s, l, t, i, k, x);
    }
  }

  /** The thread's clock only grows, and by what the new read could acquire. */
  lemma AcqGrows(s: State, l: Label, t: State, i: Info, k: nat, j: nat)
    requires Recorded(s, l, t, i)
    ensures Get(AcqOf(t, k), j) == if Reads(l) && k == l.tid then Max(Get(AcqOf(s, k), j), Get(RelClock(s.info, l.rf), j))
                                   else Get(AcqOf(s, k), j)
  {
    if Reads(l) {
      var v :| t.acqCv == s.acqCv[l.tid := v] && SameClock(v, Join(AcqOf(s, l.tid), RelClock(s.info, l.rf)));
      assert Get(v, j) <= Get(Join(AcqOf(s, l.tid), RelClock(s.info, l.rf)), j) <= Get(v, j);
    }
  }

  lemma AcqKnownStep(s: State, l: Label, t: State, i: Info, r: Act)
    requires Inv(s) && SyncInv(s) && Recorded(s, l, t, i)
    ensures AcqKnown(t, r)
  {
    RecordedGrows(s, l, t, i);
    if r in t.info && t.info[r].rf.Some? {
      var w := t.info[r].rf.value;
      assert AcqKnown(s, r) && WfAct(s.info, s.used, r);
      RelClockStable(s.info, t.info, s.used, w);
      forall j: nat ensures Get(RelClock(t.info, w), j) <= Get(AcqOf(t, r.tid), j) {
        AcqGrows(s, l, t, i, r.tid, j);
        assert r in s.info ==> Get(RelClock(s.info, w), j) <= Get(AcqOf(s, r.tid), j);
      }
    }
  }

  lemma AcqFromStep(s: State, l: Label, t: State, i: Info, k: nat, x: Act)
    requires Inv(s) && SyncInv(s) && Recorded(s, l, t, i)
    ensures AcqFrom(t, k, x)
  {
    RecordedGrows(s, l, t, i);
    if x in t.info && x.seqno <= Get(AcqOf(t, k), x.tid) {
      AcqGrows(s, l, t, i, k, x.tid);
      if x.seqno <= Get(AcqOf(s, k), x.tid) {
        assert x.seqno <= s.used && x in s.info;
        assert AcqFrom(s, k, x);
        var r :| AcqRead(s, k, x, r);
        assert WfAct(s.info, s.used, r);
        RelClockStable(s.info, t.info, s.used, s.info[r].rf.value);
        assert AcqRead(t, k, x, r);
      } else {
        RelClockStable(s.info, t.info, s.used, l.rf);
        assert AcqRead(t, k, x, ActOf(s, l));
      }
    }
  }

  /** A new action knows what its parent knew: the thread's last action, or the one that created the thread. */
  lemma ParentOfNew(s: State, c: Cur)
    requires Inv(s) && SyncInv(s) && c == Begin(s, c.act.tid, c.act.loc, c.order)
    ensures Leq(ParentCv(s, c.act.tid), c.cv)
    ensures c.act.tid in s.creation ==> Leq(CvOf(s.info, s.creation[c.act.tid]), c.cv)
  {
    var tid := c.act.tid;
    var p := ParentCv(s, tid);
    forall t: nat ensures Get(p, t) <= Get(c.cv, t) {
      ParentBound(s, tid, t);
    }
    if tid in s.creation {
      if tid in s.last {
        assert ParentKnown(s, s.last[tid]);
      }
      LeqTrans(CvOf(s.info, s.creation[tid]), p, c.cv);
    }
  }

  /** Merging only adds to a new action's clock. */
  lemma ClockGrows(s: State, l: Label, cv: Clock)
    requires ClockOf(s, l, cv)
    ensures Leq(Begun(s, l).cv, cv)
  {
    var c := Begun(s, l);
    forall t: nat ensures Get(c.cv, t) <= Get(cv, t) {
      if l.FenceOp? {
        assert Get(if l.order.IsAcquire() then Join(c.cv, AcqOf(s, l.tid)) else c.cv, t) <= Get(cv, t);
      } else if l.Sync? {
        assert Get(if l.first.Some? then Join(c.cv, CvOf(s.info, l.first.value)) else c.cv, t) <= Get(cv, t);
      } else if Reads(l) {
        assert Get(if c.order.IsAcquire() then Join(c.cv, RelClock(s.info, l.rf)) else c.cv, t) <= Get(cv, t);
      }
    }
  }

  lemma ParentStep(s: State, l: Label, t: State, i: Info, a: Act)
    requires Inv(s) && SyncInv(s) && Recorded(s, l, t, i) && Leq(Begun(s, l).cv, i.cv) && l.tid < s.threads
    ensures ParentKnown(t, a)
  {
    RecordedGrows(s, l, t, i);
    var b := ActOf(s, l);
    assert ParentKnown(s, a);
    if a in t.info && a.tid in t.creation {
      if a in s.info {
        assert LastCovers(s, a);
      } else {
        ParentOfNew(s, Begun(s, l));
        LeqTrans(CvOf(s.info, s.creation[l.tid]), Begun(s, l).cv, i.cv);
      }
    }
  }

  lemma StepSync(s: State, l: Label, t: State)
    requires Inv(s) && SyncInv(s) && Step(s, l, t)
    ensures SyncInv(t)
  {
    assert l.tid < s.threads;
    hide Inv;
    hide Step;
    if l.Defer? {
      DeferSync(s, l, t);
    } else {
      var i := StepRecorded(s, l, t);
      hide Recorded;
      hide ClockOf;
      ClockGrows(s, l, i.cv);
      FencesStep(s, l, t, i);
      AcqStep(s, l, t, i);
      forall a ensures ParentKnown(t, a) {
        ParentStep(s, l, t, i, a);
      }
      forall a, r ensures AcqHolds(t.info, a, r) {
        HoldsStep(s, l, t, i, a, r);
      }
      forall x, a ensures Learned(t, x, a) {
        LearnedStep(s, l, t, i, x, a);
      }
      CreationStep(s, l, t, i);
    }
  }

  lemma HoldsStep(s: State, l: Label, t: State, i: Info, a: Act, r: Act)
    requires Inv(s) && SyncInv(s) && Recorded(s, l, t, i) && ClockOf(s, l, i.cv)
    ensures AcqHolds(t.info, a, r)
  {
    RecordedGrows(s, l, t, i);
    if Acquires(t.info, a, r) && t.info[r].rf.Some? {
      assert WfAct(s.info, s.used, a) && WfAct(s.info, s.used, r);
      RelClockStable(s.info, t.info, s.used, t.info[r].rf.value);
      if a == ActOf(s, l) {
        HoldsNew(s, l, t, i, r);
      } else {
        assert AcqHolds(s.info, a, r);
      }
    }
  }

  lemma HoldsNew(s: State, l: Label, t: State, i: Info, r: Act)
    requires SyncInv(s) && Recorded(s, l, t, i) && ClockOf(s, l, i.cv)
    requires Acquires(t.info, ActOf(s, l), r) && t.info[r].rf.Some?
    ensures Leq(RelClock(s.info, t.info[r].rf.value), i.cv)
  {
    var c, w := Begun(s, l), t.info[r].rf.value;
    assert AcqKnown(s, r) && c.order.IsAcquire();
    forall k: nat ensures Get(RelClock(s.info, w), k) <= Get(i.cv, k) {
      if ActOf(s, l) == r {
        assert Get(Join(c.cv, RelClock(s.info, w)), k) <= Get(i.cv, k);
      } else {
        assert Get(RelClock(s.info, w), k) <= Get(AcqOf(s, l.tid), k) <= Get(Join(c.cv, AcqOf(s, l.tid)), k) <= Get(i.cv, k);
      }
    }
  }

  lemma LearnedStep(s: State, l: Label, t: State, i: Info, x: Act, a: Act)
    requires Inv(s) && SyncInv(s) && Recorded(s, l, t, i) && ClockOf(s, l, i.cv) && l.tid < s.threads
    ensures Learned(t, x, a)
  {
    RecordedGrows(s, l, t, i);
    assert WfAct(s.info, s.used, a) && WfAct(s.info, s.used, x);
    if x in t.info && a in t.info && x.tid != a.tid && HappensBefore(t.info, x, a) && !t.info[a].kind.Other? {
      if a == ActOf(s, l) {
        LearnedNew(s, l, t, i, x);
      } else {
        assert Get(s.info[a].cv, x.tid) <= a.seqno;
        assert Learned(s, x, a);
        LearnedOld(s, l, t, i, x, a);
      }
    }
  }

  lemma LearnedOld(s: State, l: Label, t: State, i: Info, x: Act, a: Act)
    requires Inv(s) && SyncInv(s) && Recorded(s, l, t, i) && l.tid < s.threads
    requires a in s.info && x in s.info
    requires Inherited(s, x, a) || exists r :: AcquiredFrom(s.info, x, a, r)
    ensures Inherited(t, x, a) || exists r :: AcquiredFrom(t.info, x, a, r)
  {
    if Inherited(s, x, a) {
      InheritedOld(s, l, t, i, x, a);
    } else {
      hide SyncInv;
      var r :| AcquiredFrom(s.info, x, a, r);
      AcquiredOld(s, l, t, i, x, a, r);
    }
  }

  lemma InheritedOld(s: State, l: Label, t: State, i: Info, x: Act, a: Act)
    requires Inv(s) && Recorded(s, l, t, i) && l.tid < s.threads && a in s.info && Inherited(s, x, a)
    ensures Inherited(t, x, a)
  {
    RecordedGrows(s, l, t, i);
    assert LastCovers(s, a);
    if b :| b in s.info && b.tid == a.tid && b.seqno < a.seqno && HappensBefore(s.info, x, b) {
      assert HappensBefore(t.info, x, b);
    }
  }

  lemma AcquiredOld(s: State, l: Label, t: State, i: Info, x: Act, a: Act, r: Act)
    requires Inv(s) && Recorded(s, l, t, i) && AcquiredFrom(s.info, x, a, r)
    ensures AcquiredFrom(t.info, x, a, r)
  {
    RecordedGrows(s, l, t, i);
    assert WfAct(s.info, s.used, r);
    RelClockStable(s.info, t.info, s.used, s.info[r].rf.value);
  }

  lemma LearnedNew(s: State, l: Label, t: State, i: Info, x: Act)
    requires Inv(s) && SyncInv(s) && Recorded(s, l, t, i) && ClockOf(s, l, i.cv) && l.tid < s.threads
    requires x in s.info && x.tid != l.tid && x.seqno <= Get(i.cv, x.tid) && !i.kind.Other?
    ensures Inherited(t, x, ActOf(s, l)) || exists r :: AcquiredFrom(t.info, x, ActOf(s, l), r)
  {
    if x.seqno <= Get(Begun(s, l).cv, x.tid) {
      InheritedNew(s, l, t, i, x);
    } else if l.FenceOp? {
      var r := FenceLearns(s, l, t, i, x);
    } else if Reads(l) {
      ReadLearns(s, l, t, i, x);
    }
  }

  lemma FenceLearns(s: State, l: Label, t: State, i: Info, x: Act) returns (r: Act)
    requires Inv(s) && SyncInv(s) && Recorded(s, l, t, i) && ClockOf(s, l, i.cv) && l.FenceOp?
    requires x in s.info && Get(Begun(s, l).cv, x.tid) < x.seqno <= Get(i.cv, x.tid)
    ensures AcquiredFrom(t.info, x, ActOf(s, l), r)
  {
    RecordedGrows(s, l, t, i);
    assert Get(i.cv, x.tid) <= Get(if l.order.IsAcquire() then Join(Begun(s, l).cv, AcqOf(s, l.tid)) else Begun(s, l).cv, x.tid);
    assert AcqFrom(s, l.tid, x);
    r :| AcqRead(s, l.tid, x, r);
    assert WfAct(s.info, s.used, r);
    RelClockStable(s.info, t.info, s.used, s.info[r].rf.value);
  }

  lemma ReadLearns(s: State, l: Label, t: State, i: Info, x: Act)
    requires Inv(s) && Recorded(s, l, t, i) && ClockOf(s, l, i.cv) && Reads(l)
    requires x in s.info && Get(Begun(s, l).cv, x.tid) < x.seqno <= Get(i.cv, x.tid)
    ensures AcquiredFrom(t.info, x, ActOf(s, l), ActOf(s, l))
  {
    RecordedGrows(s, l, t, i);
    var c := Begun(s, l);
    assert Get(i.cv, x.tid) <= Get(if c.order.IsAcquire() then Join(c.cv, RelClock(s.info, l.rf)) else c.cv, x.tid);
    RelClockStable(s.info, t.info, s.used, l.rf);
  }

  lemma InheritedNew(s: State, l: Label, t: State, i: Info, x: Act)
    requires Inv(s) && SyncInv(s) && Recorded(s, l, t, i) && l.tid < s.threads
    requires x in s.info && x.tid != l.tid && x.seqno <= Get(Begun(s, l).cv, x.tid)
    ensures Inherited(t, x, ActOf(s, l))
  {
    RecordedGrows(s, l, t, i);
    assert WfAct(s.info, s.used, x);
    assert x.seqno <= Get(ParentCv(s, l.tid), x.tid);
    if l.tid in s.last {
      var b := s.last[l.tid];
      assert WfAct(s.info, s.used, b);
      assert b in t.info && b.tid == l.tid && b.seqno < ActOf(s, l).seqno && HappensBefore(t.info, x, b);
    }
  }

  lemma CreationStep(s: State, l: Label, t: State, i: Info)
    requires SyncInv(s) && Recorded(s, l, t, i)
    ensures forall k :: k in t.creation ==> k < t.threads
  {
  }

  lemma DeferSync(s: State, l: Label, t: State)
    requires SyncInv(s) && Step(s, l, t) && l.Defer?
    ensures SyncInv(t)
  {
    forall f ensures FenceKnown(t, f) { assert FenceKnown(s, f); }
    forall a, f ensures FenceNoted(t.info, a, f) { assert FenceNoted(s.info, a, f); }
    forall r ensures AcqKnown(t, r) { assert AcqKnown(s, r); }
    forall k, x ensures AcqFrom(t, k, x) {
      assert AcqFrom(s, k, x);
      if x in t.info && x.seqno <= Get(AcqOf(t, k), x.tid) {
        var r :| AcqRead(s, k, x, r);
        assert AcqRead(t, k, x, r);
      }
    }
    forall a ensures ParentKnown(t, a) { assert ParentKnown(s, a); }
    forall a, r ensures AcqHolds(t.info, a, r) { assert AcqHolds(s.info, a, r); }
    forall x, a ensures Learned(t, x, a) { assert Learned(s, x, a); }
  }

  lemma {:induction false} RunSync(ss: seq<State>, ls: seq<Label>, i: nat)
    requires IsRun(ss, ls) && i < |ss|
    ensures SyncInv(ss[i])
  {
    hide Inv;
    hide SyncInv;
    hide Step;
    if i == 0 {
      InitSync();
    } else {
      RunSync(ss, ls, i - 1);
      RunInv(ss, ls, i - 1);
      StepSync(ss[i - 1], ls[i - 1], ss[i]);
    }
  }

  // ----- what the clock of a release sequence holds -----

  /** The end of a chain carries what its head contributes. */
  lemma {:induction false} ChainCarries(m: Infos, used: nat, ch: seq<Act>, w: Act)
    requires InfosInv(m, used) && RmwChain(m, ch, w)
    ensures w in m && Leq(HeadClock(m, ch[0]), RelClock(m, w))
    decreases |ch|
  {
    if |ch| > 1 {
      var n := |ch| - 1;
      assert ch[n] in m && m[ch[n]].rf == Some(ch[n - 1]);
      assert WfAct(m, used, w);
      ChainCarries(m, used, ch[..n], ch[n - 1]);
      LeqTrans(HeadClock(m, ch[0]), RelClock(m, ch[n - 1]), RelClock(m, w));
    } else if m[w].kind.Rmw? {
      assert WfAct(m, used, w);
    }
  }

  /** What a head releases is in its contribution. */
  lemma ReleasedKnown(s: State, x: Act, h: Act)
    requires Inv(s) && SyncInv(s) && Releases(s.info, x, h)
    ensures x.seqno <= Get(HeadClock(s.info, h), x.tid)
  {
    var m := s.info;
    assert WfAct(m, s.used, x) && WfAct(m, s.used, h);
    if x == h {
      assert m[h].order.IsRelease();
    } else if m[h].order.IsRelease() {
      assert ThreadMono(m, x, h);
      assert Get(m[x].cv, x.tid) <= Get(m[h].cv, x.tid);
    } else {
      assert FenceNoted(m, h, x);
      var f := m[h].fence.value;
      assert ThreadMono(m, x, f);
      assert Get(m[x].cv, x.tid) <= Get(m[f].cv, x.tid);
    }
  }

  /** Whatever a contribution holds happened before something its head releases. */
  lemma KnownReleased(s: State, x: Act, h: Act) returns (y: Act)
    requires Inv(s) && SyncInv(s) && x in s.info && x.seqno <= Get(HeadClock(s.info, h), x.tid)
    ensures Releases(s.info, y, h) && HappensBefore(s.info, x, y)
  {
    assert WfAct(s.info, s.used, x) && WfAct(s.info, s.used, h);
    if s.info[h].order.IsRelease() {
      y := h;
    } else {
      y := s.info[h].fence.value;
      assert FenceIsOne(s.info, h);
    }
  }

  lemma {:induction false} KnownVia(s: State, x: Act, w: Act) returns (ch: seq<Act>, y: Act)
    requires Inv(s) && SyncInv(s) && x in s.info && w in s.info && x.seqno <= Get(RelClock(s.info, w), x.tid)
    ensures RmwChain(s.info, ch, w) && Releases(s.info, y, ch[0]) && HappensBefore(s.info, x, y)
    decreases w.seqno
  {
    var m := s.info;
    assert WfAct(m, s.used, w);
    if x.seqno <= Get(HeadClock(m, w), x.tid) {
      ch := [w];
      y := KnownReleased(s, x, w);
    } else {
      var rest;
      rest, y := KnownVia(s, x, m[w].rf.value);
      ch := rest + [w];
    }
  }

  /** `x` happens before something that a release sequence ending in `w` releases. */
  ghost predicate ReleasedBy(m: Infos, x: Act, w: Act) {
    exists ch, y :: ReleasedVia(m, x, w, ch, y)
  }

  ghost predicate ReleasedVia(m: Infos, x: Act, w: Act, ch: seq<Act>, y: Act) {
    RmwChain(m, ch, w) && Releases(m, y, ch[0]) && HappensBefore(m, x, y)
  }

  /** What holds in every state of a run. */
  ghost predicate RunState(s: State) {
    Inv(s) && SaturatedInv(s) && SyncInv(s)
  }

  /** The clock of a release sequence covers exactly what the sequence releases and what happened before that. */
  lemma RelClockCovers(s: State, x: Act, w: Act)
    requires RunState(s) && x in s.info && w in s.info
    ensures x.seqno <= Get(RelClock(s.info, w), x.tid) <==> ReleasedBy(s.info, x, w)
  {
    if x.seqno <= Get(RelClock(s.info, w), x.tid) {
      var ch, y := KnownVia(s, x, w);
      assert ReleasedVia(s.info, x, w, ch, y);
    }
    if ReleasedBy(s.info, x, w) {
      var ch, y :| ReleasedVia(s.info, x, w, ch, y);
      ChainCarries(s.info, s.used, ch, w);
      ReleasedKnown(s, y, ch[0]);
      HeadSaturated(s, ch[0]);
      assert Knows(s.info, HeadClock(s.info, ch[0]), y);
      assert Get(s.info[y].cv, x.tid) <= Get(HeadClock(s.info, ch[0]), x.tid) <= Get(RelClock(s.info, w), x.tid);
    }
  }

  lemma RunStates(ss: seq<State>, ls: seq<Label>, i: nat)
    requires IsRun(ss, ls) && i < |ss|
    ensures RunState(ss[i])
  {
    RunInv(ss, ls, i);
    RunSaturated(ss, ls, i);
    RunSync(ss, ls, i);
  }

  // ----- synchronization in every run -----

  lemma SyncsHolds(s: State, x: Act, a: Act, r: Act, ch: seq<Act>)
    requires Inv(s) && SyncInv(s) && SyncsVia(s.info, x, a, r, ch)
    ensures HappensBefore(s.info, x, a)
  {
    var w := s.info[r].rf.value;
    ChainCarries(s.info, s.used, ch, w);
    ReleasedKnown(s, x, ch[0]);
    assert AcqHolds(s.info, a, r) && WfAct(s.info, s.used, x);
    assert Get(HeadClock(s.info, ch[0]), x.tid) <= Get(RelClock(s.info, w), x.tid) <= Get(s.info[a].cv, x.tid);
  }

  lemma LearnedSyncs(s: State, x: Act, a: Act) returns (y: Act)
    requires Inv(s) && SyncInv(s) && x in s.info && a in s.info && x.tid != a.tid && !s.info[a].kind.Other?
    requires HappensBefore(s.info, x, a) && !Inherited(s, x, a)
    ensures Syncs(s.info, y, a) && HappensBefore(s.info, x, y)
  {
    assert Learned(s, x, a);
    var r :| AcquiredFrom(s.info, x, a, r);
    assert WfAct(s.info, s.used, r);
    var ch;
    ch, y := KnownVia(s, x, s.info[r].rf.value);
    assert SyncsVia(s.info, y, a, r, ch);
  }

  /**
   Release sequences synchronize in every run. `ch` is a chain of RMWs, each reading from the one
   before, from any write to what `r` reads; `a` is an acquiring read `r`, or an acquire fence after
   the read `r`, of any order, in its thread. Then the head of the chain, if it releases, and every
   release fence before it in its thread happen before `a`.
   */
  lemma RunSynchronizes(ss: seq<State>, ls: seq<Label>, i: nat, a: Act, r: Act, ch: seq<Act>)
    requires IsRun(ss, ls) && i < |ss|
    requires a in ss[i].info && r in ss[i].info && ss[i].info[r].IsRead()
    requires ss[i].info[a].order in {Acquire, AcqRel, SeqCst}
    requires a == r || (ss[i].info[a].kind.Fence? && r.tid == a.tid && r.seqno < a.seqno)
    requires ss[i].info[r].rf.Some? && RmwChain(ss[i].info, ch, ss[i].info[r].rf.value)
    ensures ss[i].info[ch[0]].order in {Release, AcqRel, SeqCst} ==> HappensBefore(ss[i].info, ch[0], a)
    ensures forall f | f in ss[i].info && ss[i].info[f].kind.Fence? && f.tid == ch[0].tid && f.seqno < ch[0].seqno ::
              ss[i].info[f].order in {Release, AcqRel, SeqCst} ==> HappensBefore(ss[i].info, f, a)
  {
    var m := ss[i].info;
    RunInv(ss, ls, i);
    RunSync(ss, ls, i);
    forall x | Releases(m, x, ch[0]) ensures HappensBefore(m, x, a) {
      SyncsHolds(ss[i], x, a, r, ch);
    }
    assert m[ch[0]].order in {Release, AcqRel, SeqCst} ==> Releases(m, ch[0], ch[0]);
  }

  /**
   Nothing else synchronizes: what a read, write or fence knows of another thread it inherited from
   its own thread or its creator, or it happened before something that synchronizes with it. So
   an action that does not acquire, such as a relaxed load, learns nothing.
   */
  lemma RunLearns(ss: seq<State>, ls: seq<Label>, i: nat, x: Act, a: Act)
    requires IsRun(ss, ls) && i < |ss|
    requires x in ss[i].info && a in ss[i].info && x.tid != a.tid && !ss[i].info[a].kind.Other?
    requires HappensBefore(ss[i].info, x, a)
    ensures Inherited(ss[i], x, a) || exists y :: Syncs(ss[i].info, y, a) && HappensBefore(ss[i].info, x, y)
    ensures ss[i].info[a].order in {Relaxed, Consume, Release} ==> Inherited(ss[i], x, a)
  {
    RunInv(ss, ls, i);
    RunSync(ss, ls, i);
    if !Inherited(ss[i], x, a) {
      var y := LearnedSyncs(ss[i], x, a);
      var r, ch :| SyncsVia(ss[i].info, y, a, r, ch);
    }
  }

  // ----- happens-before, edge by edge -----

  /** `x` is the action that created the thread of `a`. */
  ghost predicate Creates(ss: seq<State>, ls: seq<Label>, i: nat, x: Act, a: Act)
    requires |ss| == |ls| + 1 && i < |ss|
  {
    exists j :: 0 <= j < i && ls[j].Spawn? && x == ActOf(ss[j], ls[j]) && a.tid == ss[j].threads
  }

  /** `a` is a join or lock that synchronizes with `x`. */
  ghost predicate Joins(ss: seq<State>, ls: seq<Label>, i: nat, x: Act, a: Act)
    requires |ss| == |ls| + 1 && i < |ss|
  {
    exists j :: 0 <= j < i && ls[j].Sync? && ls[j].first == Some(x) && a == ActOf(ss[j], ls[j])
  }

  /** One step of happens-before: program order, thread creation, a join or lock, or a release sequence. */
  ghost predicate Direct(ss: seq<State>, ls: seq<Label>, i: nat, x: Act, a: Act)
    requires |ss| == |ls| + 1 && i < |ss|
  {
    && x in ss[i].info && a in ss[i].info
    && (|| (x.tid == a.tid && x.seqno < a.seqno)
        || Creates(ss, ls, i, x, a) || Joins(ss, ls, i, x, a) || Syncs(ss[i].info, x, a))
  }

  ghost predicate HbPath(ss: seq<State>, ls: seq<Label>, i: nat, p: seq<Act>)
    requires |ss| == |ls| + 1 && i < |ss|
  {
    p != [] && p[0] in ss[i].info && forall k :: 0 < k < |p| ==> Direct(ss, ls, i, p[k - 1], p[k])
  }

  /** The step that recorded an action. */
  lemma {:induction false} RecordedAt(ss: seq<State>, ls: seq<Label>, i: nat, a: Act) returns (j: nat, n: Info)
    requires IsRun(ss, ls) && i < |ss| && a in ss[i].info
    ensures j < i && !ls[j].Defer? && a == ActOf(ss[j], ls[j]) && ss[i].info[a] == n
    ensures Recorded(ss[j], ls[j], ss[j + 1], n) && ClockOf(ss[j], ls[j], n.cv)
  {
    hide Step;
    hide Inv;
    hide Recorded;
    hide ClockOf;
    if a in ss[i - 1].info {
      j, n := RecordedAt(ss, ls, i - 1, a);
      RunGrows(ss, ls, i - 1, i);
      GrowsAt(ss[i - 1].info, ss[i].info, a);
    } else {
      j := i - 1;
      RunInv(ss, ls, j);
      n := LastRecorded(ss[j], ls[j], ss[i], a);
    }
  }

  /** In every run the record of each step says what the step did, for good. */
  lemma RunRecords(ss: seq<State>, ls: seq<Label>, i: nat, j: nat)
    requires IsRun(ss, ls) && j < i < |ss| && !ls[j].Defer?
    ensures ActOf(ss[j], ls[j]) in ss[i].info
    ensures var n := ss[i].info[ActOf(ss[j], ls[j])];
            && n.kind == KindOf(ls[j]) && n.order == OrderOf(ls[j]) && n.value == ValueOf(ls[j])
            && n.rf == if Reads(ls[j]) then Some(ls[j].rf) else None
  {
    hide Inv;
    RunInv(ss, ls, j);
    assert Step(ss[j], ls[j], ss[j + 1]);
    hide Step;
    var n := StepRecorded(ss[j], ls[j], ss[j + 1]);
    RunGrows(ss, ls, j + 1, i);
    GrowsAt(ss[j + 1].info, ss[i].info, ActOf(ss[j], ls[j]));
  }

  lemma LastRecorded(s: State, l: Label, t: State, a: Act) returns (n: Info)
    requires Inv(s) && Step(s, l, t) && a in t.info && a !in s.info
    ensures !l.Defer? && a == ActOf(s, l) && t.info[a] == n
    ensures Recorded(s, l, t, n) && ClockOf(s, l, n.cv)
  {
    if l.Defer? {
      assert false;
    }
    hide Step;
    hide Inv;
    n := StepRecorded(s, l, t);
  }

  lemma {:induction false} RunUsed(ss: seq<State>, ls: seq<Label>, j: nat, i: nat)
    requires IsRun(ss, ls) && j <= i < |ss|
    ensures ss[j].used <= ss[i].used && ss[j].threads <= ss[i].threads
    ensures forall k :: k in ss[j].creation && k < ss[j].threads ==> k in ss[i].creation && ss[i].creation[k] == ss[j].creation[k]
    decreases i - j
  {
    hide Step;
    hide Inv;
    if j < i {
      RunUsed(ss, ls, j, i - 1);
      RunInv(ss, ls, i - 1);
      StepUsed(ss[i - 1], ls[i - 1], ss[i]);
    }
  }

  lemma StepUsed(s: State, l: Label, t: State)
    requires Inv(s) && Step(s, l, t)
    ensures s.used <= t.used && s.threads <= t.threads
    ensures forall k :: k in s.creation && k < s.threads ==> k in t.creation && t.creation[k] == s.creation[k]
    ensures l.Spawn? ==> ActOf(s, l) in t.info && t.creation == s.creation[s.threads := ActOf(s, l)] && t.threads == s.threads + 1
    ensures !l.Spawn? ==> t.creation == s.creation
  {
    if !l.Defer? {
      hide Step;
      hide Inv;
      var n := StepRecorded(s, l, t);
    }
  }

  lemma CreatesKnown(ss: seq<State>, ls: seq<Label>, i: nat, x: Act, a: Act)
    requires IsRun(ss, ls) && i < |ss| && Creates(ss, ls, i, x, a) && a in ss[i].info
    ensures x in ss[i].info && HappensBefore(ss[i].info, x, a) && x != a
  {
    hide Step;
    hide Inv;
    var j :| 0 <= j < i && ls[j].Spawn? && x == ActOf(ss[j], ls[j]) && a.tid == ss[j].threads;
    var s := ss[i];
    RunInv(ss, ls, j);
    assert Step(ss[j], ls[j], ss[j + 1]);
    StepUsed(ss[j], ls[j], ss[j + 1]);
    RunUsed(ss, ls, j + 1, i);
    RunGrows(ss, ls, j + 1, i);
    GrowsAt(ss[j + 1].info, s.info, x);
    RunInv(ss, ls, i);
    RunSync(ss, ls, i);
    assert ParentKnown(s, a);
    assert x.tid < ss[j].threads by {
      SpawnTid(ss[j], ls[j], ss[j + 1]);
    }
    ParentHappensBefore(s, x, a);
  }

  lemma SpawnTid(s: State, l: Label, t: State)
    requires Step(s, l, t)
    ensures ActOf(s, l).tid < s.threads
  {
  }

  lemma ParentHappensBefore(s: State, x: Act, a: Act)
    requires Inv(s) && ParentKnown(s, a) && a in s.info && x in s.info && a.tid in s.creation && s.creation[a.tid] == x
    ensures HappensBefore(s.info, x, a)
  {
    assert WfAct(s.info, s.used, x);
    assert Get(s.info[x].cv, x.tid) <= Get(s.info[a].cv, x.tid);
  }

  lemma JoinsKnown(ss: seq<State>, ls: seq<Label>, i: nat, x: Act, a: Act)
    requires IsRun(ss, ls) && i < |ss| && Joins(ss, ls, i, x, a)
    ensures x in ss[i].info && a in ss[i].info && HappensBefore(ss[i].info, x, a) && x != a
  {
    hide Step;
    hide Inv;
    var j :| 0 <= j < i && ls[j].Sync? && ls[j].first == Some(x) && a == ActOf(ss[j], ls[j]);
    RunInv(ss, ls, j);
    assert Step(ss[j], ls[j], ss[j + 1]);
    var n := StepRecorded(ss[j], ls[j], ss[j + 1]);
    FirstKnown(ss[j], ls[j], ss[j + 1], n, x);
    RunGrows(ss, ls, j + 1, i);
    GrowsAt(ss[j + 1].info, ss[i].info, a);
    GrowsAt(ss[j + 1].info, ss[i].info, x);
  }

  lemma FirstKnown(s: State, l: Label, t: State, n: Info, x: Act)
    requires Inv(s) && Recorded(s, l, t, n) && ClockOf(s, l, n.cv) && l.Sync? && l.first == Some(x)
    ensures x in t.info && HappensBefore(t.info, x, ActOf(s, l)) && x != ActOf(s, l)
  {
    RecordedGrows(s, l, t, n);
    assert WfAct(s.info, s.used, x);
    assert Get(CvOf(s.info, x), x.tid) <= Get(Join(Begun(s, l).cv, CvOf(s.info, x)), x.tid) <= Get(n.cv, x.tid);
  }

  lemma {:induction false} ChainOlder(m: Infos, used: nat, ch: seq<Act>, w: Act)
    requires InfosInv(m, used) && RmwChain(m, ch, w)
    ensures ch[0].seqno <= w.seqno
    decreases |ch|
  {
    if |ch| > 1 {
      var n := |ch| - 1;
      assert ch[n] in m && m[ch[n]].rf == Some(ch[n - 1]);
      assert WfAct(m, used, w);
      ChainOlder(m, used, ch[..n], ch[n - 1]);
    }
  }

  lemma SyncsKnown(s: State, x: Act, a: Act)
    requires Inv(s) && SyncInv(s) && Syncs(s.info, x, a)
    ensures HappensBefore(s.info, x, a) && x != a
  {
    var r, ch :| SyncsVia(s.info, x, a, r, ch);
    SyncsHolds(s, x, a, r, ch);
    ChainOlder(s.info, s.used, ch, s.info[r].rf.value);
    assert WfAct(s.info, s.used, r);
  }

  lemma DirectKnown(ss: seq<State>, ls: seq<Label>, i: nat, x: Act, a: Act)
    requires IsRun(ss, ls) && i < |ss| && Direct(ss, ls, i, x, a)
    ensures HappensBefore(ss[i].info, x, a) && x.seqno < a.seqno
  {
    RunInv(ss, ls, i);
    RunSync(ss, ls, i);
    if x.tid == a.tid && x.seqno < a.seqno {
      SameThreadHappensBefore(ss[i].info, ss[i].used, x, a);
    } else if Creates(ss, ls, i, x, a) {
      CreatesKnown(ss, ls, i, x, a);
    } else if Joins(ss, ls, i, x, a) {
      JoinsKnown(ss, ls, i, x, a);
    } else {
      SyncsKnown(ss[i], x, a);
    }
    KnownOlder(ss[i], x, a);
  }

  lemma KnownOlder(s: State, x: Act, a: Act)
    requires Inv(s) && x in s.info && a in s.info && x != a && HappensBefore(s.info, x, a)
    ensures x.seqno < a.seqno
  {
    assert WfAct(s.info, s.used, x) && WfAct(s.info, s.used, a) && !SameSeq(x, a);
    assert Get(s.info[a].cv, x.tid) <= a.seqno;
  }

  lemma {:induction false} CreatedBy(ss: seq<State>, ls: seq<Label>, i: nat, x: Act, a: Act)
    requires IsRun(ss, ls) && i < |ss| && a.tid in ss[i].creation && ss[i].creation[a.tid] == x
    ensures Creates(ss, ls, i, x, a)
  {
    hide Step;
    hide Inv;
    if i > 0 {
      RunInv(ss, ls, i - 1);
      StepUsed(ss[i - 1], ls[i - 1], ss[i]);
      if !(ls[i - 1].Spawn? && a.tid == ss[i - 1].threads) {
        CreatedBy(ss, ls, i - 1, x, a);
        var j :| 0 <= j < i - 1 && ls[j].Spawn? && x == ActOf(ss[j], ls[j]) && a.tid == ss[j].threads;
      }
    }
  }

  /** What a join, lock or creating action knows it inherited, or the action it synchronized with knew it. */
  lemma OtherStep(s: State, l: Label, t: State, n: Info, x: Act)
    requires Inv(s) && SyncInv(s) && Recorded(s, l, t, n) && ClockOf(s, l, n.cv) && l.tid < s.threads && n.kind.Other?
    requires x in s.info && x.tid != l.tid && x.seqno <= Get(n.cv, x.tid)
    ensures Inherited(t, x, ActOf(s, l)) ||
            (l.Sync? && l.first.Some? && l.first.value in s.info && HappensBefore(s.info, x, l.first.value))
  {
    var c := Begun(s, l);
    assert WfAct(s.info, s.used, x);
    if x.seqno <= Get(c.cv, x.tid) {
      InheritedNew(s, l, t, n, x);
    } else {
      assert l.Sync?;
      assert Get(n.cv, x.tid) <= Get(if l.first.Some? then Join(c.cv, CvOf(s.info, l.first.value)) else c.cv, x.tid);
    }
  }

  lemma InheritedKept(ss: seq<State>, ls: seq<Label>, j: nat, i: nat, x: Act, a: Act)
    requires IsRun(ss, ls) && j <= i < |ss| && a in ss[j].info && Inherited(ss[j], x, a)
    ensures Inherited(ss[i], x, a)
  {
    var s, t := ss[j], ss[i];
    RunInv(ss, ls, j);
    assert LastCovers(s, a);
    hide Inv;
    hide Step;
    RunUsed(ss, ls, j, i);
    RunGrows(ss, ls, j, i);
    if b :| b in s.info && b.tid == a.tid && b.seqno < a.seqno && HappensBefore(s.info, x, b) {
      assert b in t.info && HappensBefore(t.info, x, b);
    }
  }

  /** An action that another already knows was recorded before it. */
  lemma OlderThere(ss: seq<State>, ls: seq<Label>, j: nat, i: nat, x: Act)
    requires IsRun(ss, ls) && j <= i < |ss| && x in ss[i].info && x.seqno <= ss[j].used
    ensures x in ss[j].info
  {
    hide Step;
    hide Inv;
    hide ClockOf;
    var k, n := RecordedAt(ss, ls, i, x);
    if k >= j {
      RunUsed(ss, ls, j, k);
    } else {
      RunGrows(ss, ls, k + 1, j);
      GrowsAt(ss[k + 1].info, ss[j].info, x);
    }
  }

  lemma OtherLearned(ss: seq<State>, ls: seq<Label>, i: nat, x: Act, a: Act) returns (y: Act)
    requires IsRun(ss, ls) && i < |ss| && x in ss[i].info && a in ss[i].info && ss[i].info[a].kind.Other?
    requires x.tid != a.tid && HappensBefore(ss[i].info, x, a) && !Inherited(ss[i], x, a)
    ensures Joins(ss, ls, i, y, a) && y in ss[i].info && HappensBefore(ss[i].info, x, y)
  {
    hide Inv;
    hide Recorded;
    hide ClockOf;
    hide Inherited;
    hide Step;
    hide HappensBefore;
    var j, n := RecordedAt(ss, ls, i, a);
    RunInv(ss, ls, i);
    KnownOlder(ss[i], x, a);
    OlderThere(ss, ls, j, i, x);
    SinceGet(ss[i].info, x, a);
    y := JoinedAt(ss, ls, j, n, x);
    if Inherited(ss[j + 1], x, a) {
      RecordedIn(ss[j], ls[j], ss[j + 1], n);
      InheritedKept(ss, ls, j + 1, i, x, a);
    }
    RunGrows(ss, ls, j, i);
    GrowsAt(ss[j].info, ss[i].info, y);
    SameKnown(ss[j].info, ss[i].info, x, y);
  }

  lemma SinceGet(m: Infos, x: Act, a: Act)
    requires a in m && HappensBefore(m, x, a)
    ensures x.seqno <= Get(m[a].cv, x.tid)
  {
  }

  lemma SameKnown(m: Infos, n: Infos, x: Act, a: Act)
    requires a in m && a in n && m[a] == n[a] && HappensBefore(m, x, a)
    ensures HappensBefore(n, x, a)
  {
  }

  lemma JoinedAt(ss: seq<State>, ls: seq<Label>, j: nat, n: Info, x: Act) returns (y: Act)
    requires IsRun(ss, ls) && j < |ls|
    requires Recorded(ss[j], ls[j], ss[j + 1], n) && ClockOf(ss[j], ls[j], n.cv) && n.kind.Other?
    requires x in ss[j].info && x.tid != ls[j].tid && x.seqno <= Get(n.cv, x.tid)
    ensures Inherited(ss[j + 1], x, ActOf(ss[j], ls[j])) || (ls[j].Sync? && ls[j].first == Some(y))
    ensures y in ss[j].info && HappensBefore(ss[j].info, x, y)
  {
    hide Inv;
    hide SyncInv;
    hide Recorded;
    hide ClockOf;
    assert Step(ss[j], ls[j], ss[j + 1]);
    SpawnTid(ss[j], ls[j], ss[j + 1]);
    hide Step;
    RunInv(ss, ls, j);
    RunSync(ss, ls, j);
    OtherStep(ss[j], ls[j], ss[j + 1], n, x);
    y := x;
    if ls[j].Sync? && ls[j].first.Some? && ls[j].first.value in ss[j].info && HappensBefore(ss[j].info, x, ls[j].first.value) {
      y := ls[j].first.value;
    } else {
      SelfKnown(ss[j], x);
    }
  }

  lemma RecordedIn(s: State, l: Label, t: State, n: Info)
    requires Recorded(s, l, t, n)
    ensures ActOf(s, l) in t.info
  {
  }

  /** Behind whatever an action knows of another thread there is one last edge. */
  lemma LastEdge(ss: seq<State>, ls: seq<Label>, i: nat, x: Act, a: Act) returns (y: Act)
    requires IsRun(ss, ls) && i < |ss| && x in ss[i].info && a in ss[i].info
    requires x.tid != a.tid && HappensBefore(ss[i].info, x, a)
    ensures Direct(ss, ls, i, y, a) && HappensBefore(ss[i].info, x, y)
  {
    hide Step;
    hide Inv;
    hide SyncInv;
    var s := ss[i];
    RunInv(ss, ls, i);
    RunSync(ss, ls, i);
    if Inherited(s, x, a) {
      if b :| b in s.info && b.tid == a.tid && b.seqno < a.seqno && HappensBefore(s.info, x, b) {
        y := b;
      } else {
        y := s.creation[a.tid];
        CreatedBy(ss, ls, i, y, a);
      }
    } else if s.info[a].kind.Other? {
      y := OtherLearned(ss, ls, i, x, a);
      JoinsKnown(ss, ls, i, y, a);
    } else {
      y := LearnedSyncs(s, x, a);
      SyncsIn(s.info, y, a);
    }
  }

  lemma SyncsIn(m: Infos, x: Act, a: Act)
    requires Syncs(m, x, a)
    ensures x in m && a in m
  {
  }

  lemma {:induction false} PathTo(ss: seq<State>, ls: seq<Label>, i: nat, x: Act, a: Act) returns (p: seq<Act>)
    requires IsRun(ss, ls) && i < |ss| && x in ss[i].info && a in ss[i].info && HappensBefore(ss[i].info, x, a)
    ensures HbPath(ss, ls, i, p) && p[0] == x && p[|p| - 1] == a
    decreases a.seqno
  {
    hide Step;
    hide Inv;
    hide Direct;
    RunInv(ss, ls, i);
    p := [a];
    if x != a {
      KnownOlder(ss[i], x, a);
      var y := x;
      if x.tid == a.tid {
        ProgramOrder(ss, ls, i, x, a);
        p := [x];
      } else {
        y := LastEdge(ss, ls, i, x, a);
        DirectKnown(ss, ls, i, y, a);
        DirectIn(ss, ls, i, y, a);
        p := PathTo(ss, ls, i, x, y);
      }
      p := p + [a];
    }
  }

  lemma ProgramOrder(ss: seq<State>, ls: seq<Label>, i: nat, x: Act, a: Act)
    requires |ss| == |ls| + 1 && i < |ss| && x in ss[i].info && a in ss[i].info && x.tid == a.tid && x.seqno < a.seqno
    ensures Direct(ss, ls, i, x, a)
  {
  }

  lemma DirectIn(ss: seq<State>, ls: seq<Label>, i: nat, x: Act, a: Act)
    requires |ss| == |ls| + 1 && i < |ss| && Direct(ss, ls, i, x, a)
    ensures x in ss[i].info && a in ss[i].info
  {
  }

  lemma {:induction false} PathKnown(ss: seq<State>, ls: seq<Label>, i: nat, p: seq<Act>)
    requires IsRun(ss, ls) && i < |ss| && HbPath(ss, ls, i, p)
    ensures p[|p| - 1] in ss[i].info && HappensBefore(ss[i].info, p[0], p[|p| - 1])
    decreases |p|
  {
    hide Step;
    hide Inv;
    hide Direct;
    var n := |p| - 1;
    if n == 0 {
      RunInv(ss, ls, i);
      SelfKnown(ss[i], p[0]);
    } else {
      assert Direct(ss, ls, i, p[n - 1], p[n]);
      PathKnown(ss, ls, i, p[..n]);
      DirectKnown(ss, ls, i, p[n - 1], p[n]);
      DirectIn(ss, ls, i, p[n - 1], p[n]);
      RunHappensBeforeTransitive(ss, ls, i, p[0], p[n - 1], p[n]);
    }
  }

  lemma SelfKnown(s: State, a: Act)
    requires Inv(s) && a in s.info
    ensures HappensBefore(s.info, a, a)
  {
    assert WfAct(s.info, s.used, a);
  }

  /**
   Happens-before is exact: in every run the clock test holds between two actions if and only if
   program order, thread creation, joins, locks and release sequences lead from one to the other.
   */
  lemma RunHappensBeforeExact(ss: seq<State>, ls: seq<Label>, i: nat, x: Act, a: Act)
    requires IsRun(ss, ls) && i < |ss| && x in ss[i].info && a in ss[i].info
    ensures HappensBefore(ss[i].info, x, a) <==> exists p :: HbPath(ss, ls, i, p) && p[0] == x && p[|p| - 1] == a
  {
    if HappensBefore(ss[i].info, x, a) {
      var p := PathTo(ss, ls, i, x, a);
    }
    if p :| HbPath(ss, ls, i, p) && p[0] == x && p[|p| - 1] == a {
      PathKnown(ss, ls, i, p);
    }
  }
}
