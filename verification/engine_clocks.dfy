/**
 Two more properties of whole runs: happens-before, as the clock vectors decide it, is
 transitive; and sequentially consistent writes to a location are ordered as they executed.
 */
module EngineClocks {
  import opened Options
  import opened Clocks
  import opened MoGraph
  import opened Actions
  import opened Coherence
  import opened ExecutionState
  import opened Engine

  // ----- transitivity of happens-before -----

  ghost predicate Knows(m: Infos, cv: Clock, b: Act) {
    b in m && b.seqno <= Get(cv, b.tid) ==> Leq(m[b].cv, cv)
  }

  /** Whoever has an action in its clock has everything that action had. */
  ghost predicate Saturated(m: Infos, cv: Clock) {
    forall b {:trigger Knows(m, cv, b)} :: Knows(m, cv, b)
  }

  ghost predicate SaturatedAct(m: Infos, a: Act) {
    a in m ==> Saturated(m, m[a].cv)
  }

  ghost predicate SaturatedInv(s: State) {
    && (forall a {:trigger SaturatedAct(s.info, a)} :: SaturatedAct(s.info, a))
    && (forall t {:trigger AcqOf(s, t)} :: Saturated(s.info, AcqOf(s, t)))
  }

  lemma JoinSaturated(m: Infos, a: Clock, b: Clock, cv: Clock)
    requires Saturated(m, a) && Saturated(m, b) && SameClock(cv, Join(a, b))
    ensures Saturated(m, cv)
  {
    assert Leq(a, Join(a, b)) && Leq(b, Join(a, b));
    LeqTrans(a, Join(a, b), cv);
    LeqTrans(b, Join(a, b), cv);
    forall x ensures Knows(m, cv, x) {
      assert Knows(m, a, x) && Knows(m, b, x);
      if x in m && x.seqno <= Get(cv, x.tid) {
        assert Get(cv, x.tid) <= Get(Join(a, b), x.tid);
        LeqTrans(m[x].cv, if x.seqno <= Get(a, x.tid) then a else b, cv);
      }
    }
  }

  lemma SameSaturated(m: Infos, a: Clock, cv: Clock)
    requires Saturated(m, a) && SameClock(cv, a)
    ensures Saturated(m, cv)
  {
    forall x ensures Knows(m, cv, x) {
      assert Knows(m, a, x);
      if x in m && x.seqno <= Get(cv, x.tid) {
        assert Get(cv, x.tid) <= Get(a, x.tid);
        LeqTrans(m[x].cv, a, cv);
      }
    }
  }

  lemma EmptySaturated(m: Infos, used: nat)
    requires InfosInv(m, used)
    ensures Saturated(m, [])
  {
    forall b ensures Knows(m, [], b) {
      assert WfAct(m, used, b);
    }
  }

  lemma HeadSaturated(s: State, w: Act)
    requires Inv(s) && SaturatedInv(s)
    ensures Saturated(s.info, HeadClock(s.info, w))
  {
    EmptySaturated(s.info, s.used);
    assert SaturatedAct(s.info, w);
    if w in s.info && s.info[w].fence.Some? {
      assert SaturatedAct(s.info, s.info[w].fence.value);
    }
  }

  lemma {:induction false} RelSaturated(s: State, w: Act)
    requires Inv(s) && SaturatedInv(s)
    ensures Saturated(s.info, RelClock(s.info, w))
    decreases w.seqno
  {
    HeadSaturated(s, w);
    if w in s.info && s.info[w].kind.Rmw? && s.info[w].rf.Some? && s.info[w].rf.value.seqno < w.seqno {
      RelSaturated(s, s.info[w].rf.value);
      JoinSaturated(s.info, RelClock(s.info, s.info[w].rf.value), HeadClock(s.info, w), RelClock(s.info, w));
    }
  }

  lemma BeginSaturated(s: State, tid: nat, loc: nat, order: Order)
    requires Inv(s) && SaturatedInv(s)
    ensures Saturated(s.info, Begin(s, tid, loc, order).cv)
  {
    var c := Begin(s, tid, loc, order);
    BeginOk(s, tid, loc, order);
    EmptySaturated(s.info, s.used);
    if tid in s.last {
      assert SaturatedAct(s.info, s.last[tid]);
    } else if tid in s.creation {
      assert SaturatedAct(s.info, s.creation[tid]);
    }
    var p := ParentCv(s, tid);
    forall b ensures Knows(s.info, c.cv, b) {
      if b in s.info && b.seqno <= Get(c.cv, b.tid) && b.tid != tid {
        assert Knows(s.info, p, b);
        forall t: nat ensures Get(s.info[b].cv, t) <= Get(c.cv, t) {
          assert Get(s.info[b].cv, t) <= Get(p, t);
          ParentBound(s, tid, t);
        }
      }
    }
  }

  lemma ParentBound(s: State, tid: nat, t: nat)
    requires Inv(s)
    ensures Get(ParentCv(s, tid), t) <= s.used
  {
    if tid in s.last {
      assert WfAct(s.info, s.used, s.last[tid]);
    } else if tid in s.creation {
      assert WfAct(s.info, s.used, s.creation[tid]);
    }
  }

  lemma ReadSaturated(s: State, c: Cur, rf: Act, cv: Clock)
    requires Inv(s) && SaturatedInv(s) && c == Begin(s, c.act.tid, c.act.loc, c.order) && ReadClock(s, c, rf, cv)
    ensures Saturated(s.info, cv)
  {
    BeginSaturated(s, c.act.tid, c.act.loc, c.order);
    RelSaturated(s, rf);
    if c.order.IsAcquire() {
      JoinSaturated(s.info, c.cv, RelClock(s.info, rf), cv);
    } else {
      SameSaturated(s.info, c.cv, cv);
    }
  }

  lemma AcqSaturated(s: State, tid: nat, rf: Act, acq: map<nat, Clock>, t: nat)
    requires Inv(s) && SaturatedInv(s) && AcqUpdated(s, tid, rf, acq)
    ensures Saturated(s.info, if t in acq then acq[t] else [])
  {
    EmptySaturated(s.info, s.used);
    assert Saturated(s.info, AcqOf(s, t)) && Saturated(s.info, AcqOf(s, tid));
    var v :| acq == s.acqCv[tid := v] && SameClock(v, Join(AcqOf(s, tid), RelClock(s.info, rf)));
    if t == tid {
      RelSaturated(s, rf);
      JoinSaturated(s.info, AcqOf(s, tid), RelClock(s.info, rf), v);
    }
  }

  /** A clock that predates `a` knows nothing about `a`, so recording `a` keeps it saturated. */
  lemma OlderSaturated(m: Infos, used: nat, a: Act, i: Info, cv: Clock)
    requires Saturated(m, cv) && a.seqno > used && forall t: nat :: Get(cv, t) <= used
    ensures Saturated(m[a := i], cv)
  {
    var n := m[a := i];
    forall b ensures Knows(n, cv, b) {
      assert Knows(m, cv, b);
    }
  }

  lemma RecordSaturated(s: State, a: Act, i: Info, t: State)
    requires Inv(s) && SaturatedInv(s) && NewInfo(s.info, s.used, a, i) && Saturated(s.info, i.cv)
    requires t.info == s.info[a := i]
    requires AcqFine(s, t)
    ensures SaturatedInv(t)
  {
    forall x ensures SaturatedAct(t.info, x) {
      if x == a {
        forall b ensures Knows(t.info, i.cv, b) {
          assert Knows(s.info, i.cv, b);
        }
      } else if x in s.info {
        assert SaturatedAct(s.info, x) && WfAct(s.info, s.used, x);
        OlderSaturated(s.info, s.used, a, i, s.info[x].cv);
      }
    }
    forall k ensures Saturated(t.info, AcqOf(t, k)) {
      OlderSaturated(s.info, s.used, a, i, AcqOf(t, k));
    }
  }

  lemma ReadRecords(s: State, c: Cur, p: Purpose, rf: Act, history: int, i: Info, t: State)
    requires Inv(s) && SaturatedInv(s) && c == Begin(s, c.act.tid, c.act.loc, c.order)
    requires rf in MayReadFrom(s, c, p, history, s.threads) && (i.kind.Read? || i.kind.Rmw?)
    requires i == Info(i.kind, c.order, i.value, Some(rf), i.cv, MapGet(s.relFence, c.act.tid))
    requires ReadClock(s, c, rf, i.cv) && AcqUpdated(s, c.act.tid, rf, t.acqCv) && t.info == s.info[c.act := i]
    ensures NewInfo(s.info, s.used, c.act, i) && Saturated(s.info, i.cv) && AcqFine(s, t)
  {
    CandidateWrites(s, c, p, history, s.threads, rf);
    ReadInfoOk(s, c.act.tid, c.act.loc, c.order, rf, i.kind, i.value, i.cv);
    ReadSaturated(s, c, rf, i.cv);
    ReadAcqOk(s, c.act.tid, rf, t);
  }

  ghost predicate AcqFine(s: State, t: State) {
    && (forall k {:trigger AcqOf(t, k)} :: Saturated(s.info, AcqOf(t, k)))
    && (forall k, j: nat :: Get(AcqOf(t, k), j) <= s.used)
  }

  lemma LoadRecords(s: State, tid: nat, loc: nat, order: Order, rf: Act, history: int, budget: bool, t: State)
    returns (a: Act, i: Info)
    requires Inv(s) && SaturatedInv(s) && LoadStep(s, tid, loc, order, rf, history, budget, t)
    ensures NewInfo(s.info, s.used, a, i) && t.info == s.info[a := i] && Saturated(s.info, i.cv) && AcqFine(s, t)
  {
    hide Inv;
    hide SaturatedInv;
    var c := Begin(s, tid, loc, order);
    var g, cv, acq :|
      && ReadPart(s, c, PlainRead, rf, history, g)
      && ReadClock(s, c, rf, cv) && AcqUpdated(s, tid, rf, acq)
      && t == Commit(s, c.act, Info(Read, order, 0, Some(rf), cv, MapGet(s.relFence, tid)), budget && CanPrune(s, c, rf))
                .(graph := g, acqCv := acq);
    a, i := c.act, t.info[c.act];
    ReadRecords(s, c, PlainRead, rf, history, i, t);
  }

  lemma FailedSwapRecords(s: State, tid: nat, loc: nat, order: Order, p: Purpose, rf: Act, history: int, t: State)
    returns (a: Act, i: Info)
    requires Inv(s) && SaturatedInv(s) && FailedSwapStep(s, tid, loc, order, p, rf, history, t)
    ensures NewInfo(s.info, s.used, a, i) && t.info == s.info[a := i] && Saturated(s.info, i.cv) && AcqFine(s, t)
  {
    hide Inv;
    hide SaturatedInv;
    var c := Begin(s, tid, loc, order);
    var g, cv, acq :|
      && p.CompareSwap? && !WouldSucceed(s.info, rf, p) && ReadPart(s, c, p, rf, history, g)
      && ReadClock(s, c, rf, cv) && AcqUpdated(s, tid, rf, acq)
      && t == Commit(s, c.act, Info(Read, order, p.expected, Some(rf), cv, MapGet(s.relFence, tid)), false)
                .(graph := g, acqCv := acq);
    a, i := c.act, t.info[c.act];
    ReadRecords(s, c, p, rf, history, i, t);
  }

  lemma UpdateRecords(s: State, tid: nat, loc: nat, order: Order, p: Purpose, rf: Act, history: int, value: nat, t: State)
    returns (a: Act, i: Info)
    requires Inv(s) && SaturatedInv(s) && RmwStep(s, tid, loc, order, p, rf, history, value, t)
    ensures NewInfo(s.info, s.used, a, i) && t.info == s.info[a := i] && Saturated(s.info, i.cv) && AcqFine(s, t)
  {
    hide Inv;
    hide SaturatedInv;
    var c := Begin(s, tid, loc, order);
    var j: Info, g1, g2 :| j.value == value && RmwStepVia(s, c, p, rf, history, j, g1, g2, t);
    a, i := c.act, j;
    ReadRecords(s, c, p, rf, history, i, t);
  }

  /** What each step records, and that its clock is saturated. */
  lemma StepRecords(s: State, l: Label, t: State) returns (a: Act, i: Info)
    requires Inv(s) && SaturatedInv(s) && Step(s, l, t) && !l.Defer?
    ensures NewInfo(s.info, s.used, a, i) && t.info == s.info[a := i] && Saturated(s.info, i.cv) && AcqFine(s, t)
  {
    hide Inv;
    hide SaturatedInv;
    hide Saturated;
    hide NewInfo;
    hide AcqFine;
    hide LoadStep;
    hide FailedSwapStep;
    hide RmwStep;
    hide FenceStep;
    hide SyncStep;
    match l
    case Load(tid, loc, order, rf, history, budget) => a, i := LoadRecords(s, tid, loc, order, rf, history, budget, t);
    case FailedSwap(tid, loc, order, p, rf, history) => a, i := FailedSwapRecords(s, tid, loc, order, p, rf, history, t);
    case Update(tid, loc, order, p, rf, history, value) => a, i := UpdateRecords(s, tid, loc, order, p, rf, history, value, t);
    case Store(tid, loc, order, value) => a, i := PlainRecords(s, tid, loc, order, t);
    case FenceOp(tid, order) => a, i := FenceRecords(s, tid, order, t);
    case Sync(tid, loc, first) => a, i := SyncRecords(s, tid, loc, first, t);
    case Spawn(tid, loc) => a, i := PlainRecords(s, tid, loc, SeqCst, t);
  }

  lemma ReadAcqOk(s: State, tid: nat, rf: Act, t: State)
    requires Inv(s) && SaturatedInv(s) && rf in s.info && AcqUpdated(s, tid, rf, t.acqCv)
    ensures AcqFine(s, t)
  {
    AcqBound(s, tid, rf, t.acqCv);
    forall k ensures Saturated(s.info, AcqOf(t, k)) {
      AcqSaturated(s, tid, rf, t.acqCv, k);
    }
  }

  lemma SameAcqOk(s: State, t: State)
    requires Inv(s) && SaturatedInv(s) && t.acqCv == s.acqCv
    ensures AcqFine(s, t)
  {
    forall k ensures Saturated(s.info, AcqOf(t, k)) {
      assert AcqOf(t, k) == AcqOf(s, k);
    }
  }

  lemma PlainRecords(s: State, tid: nat, loc: nat, order: Order, t: State) returns (a: Act, i: Info)
    requires Inv(s) && SaturatedInv(s) && t.acqCv == s.acqCv
    requires exists j: Info :: !j.IsRead() && j.rf.None? && j.fence == MapGet(s.relFence, tid)
                               && j.cv == Begin(s, tid, loc, order).cv && t.info == s.info[Begin(s, tid, loc, order).act := j]
    ensures NewInfo(s.info, s.used, a, i) && t.info == s.info[a := i] && Saturated(s.info, i.cv)
    ensures AcqFine(s, t)
  {
    a := Begin(s, tid, loc, order).act;
    i :| !i.IsRead() && i.rf.None? && i.fence == MapGet(s.relFence, tid)
         && i.cv == Begin(s, tid, loc, order).cv && t.info == s.info[a := i];
    BeginOk(s, tid, loc, order);
    PlainInfoOk(s, tid, loc, order, i);
    BeginSaturated(s, tid, loc, order);
    SameAcqOk(s, t);
  }

  lemma FenceRecords(s: State, tid: nat, order: Order, t: State) returns (a: Act, i: Info)
    requires Inv(s) && SaturatedInv(s) && FenceStep(s, tid, order, t)
    ensures NewInfo(s.info, s.used, a, i) && t.info == s.info[a := i] && Saturated(s.info, i.cv)
    ensures AcqFine(s, t)
  {
    var c := Begin(s, tid, FENCE_LOCATION, order);
    BeginOk(s, tid, FENCE_LOCATION, order);
    BeginSaturated(s, tid, FENCE_LOCATION, order);
    a, i := c.act, t.info[c.act];
    FenceClockOk(s, c, i.cv);
    PlainInfoOk(s, tid, FENCE_LOCATION, order, i);
    if order.IsAcquire() {
      assert Saturated(s.info, AcqOf(s, tid));
      JoinSaturated(s.info, c.cv, AcqOf(s, tid), i.cv);
    } else {
      SameSaturated(s.info, c.cv, i.cv);
    }
    SameAcqOk(s, t);
  }

  lemma SyncRecords(s: State, tid: nat, loc: nat, first: Option<Act>, t: State) returns (a: Act, i: Info)
    requires Inv(s) && SaturatedInv(s) && SyncStep(s, tid, loc, first, t)
    ensures NewInfo(s.info, s.used, a, i) && t.info == s.info[a := i] && Saturated(s.info, i.cv)
    ensures AcqFine(s, t)
  {
    var c := Begin(s, tid, loc, SeqCst);
    BeginOk(s, tid, loc, SeqCst);
    BeginSaturated(s, tid, loc, SeqCst);
    a, i := c.act, t.info[c.act];
    if first.Some? {
      assert WfAct(s.info, s.used, first.value) && SaturatedAct(s.info, first.value);
      JoinOk(c, CvOf(s.info, first.value), i.cv);
      JoinSaturated(s.info, c.cv, CvOf(s.info, first.value), i.cv);
    } else {
      SameOk(c, i.cv);
      SameSaturated(s.info, c.cv, i.cv);
    }
    PlainInfoOk(s, tid, loc, SeqCst, i);
    SameAcqOk(s, t);
  }

  lemma StepSaturated(s: State, l: Label, t: State)
    requires Inv(s) && SaturatedInv(s) && Step(s, l, t)
    ensures SaturatedInv(t)
  {
    if l.Defer? {
      forall k ensures Saturated(t.info, AcqOf(t, k)) {
        assert Saturated(s.info, AcqOf(s, k));
      }
    } else {
      hide Step;
      var a, i := StepRecords(s, l, t);
      RecordSaturated(s, a, i, t);
    }
  }

  lemma InitSaturated()
    ensures SaturatedInv(Init())
  {
    forall t ensures Saturated(Init().info, AcqOf(Init(), t)) {}
  }

  lemma {:induction false} RunSaturated(ss: seq<State>, ls: seq<Label>, i: nat)
    requires IsRun(ss, ls) && i < |ss|
    ensures SaturatedInv(ss[i])
  {
    hide SaturatedInv;
    hide Step;
    hide Inv;
    if i == 0 {
      InitSaturated();
    } else {
      RunSaturated(ss, ls, i - 1);
      RunInv(ss, ls, i - 1);
      StepSaturated(ss[i - 1], ls[i - 1], ss[i]);
    }
  }

  /**
   In every run, an action that happens before another passes on its whole clock, although
   clocks are only ever copied, stamped and merged; so happens-before is transitive.
   */
  lemma RunHappensBeforeTransitive(ss: seq<State>, ls: seq<Label>, i: nat, a: Act, b: Act, c: Act)
    requires IsRun(ss, ls) && i < |ss|
    requires a in ss[i].info && b in ss[i].info && c in ss[i].info
    requires HappensBefore(ss[i].info, b, c)
    ensures Leq(ss[i].info[b].cv, ss[i].info[c].cv)
    ensures HappensBefore(ss[i].info, a, b) ==> HappensBefore(ss[i].info, a, c)
  {
    RunInv(ss, ls, i);
    RunSaturated(ss, ls, i);
    var m := ss[i].info;
    assert SaturatedAct(m, c) && Knows(m, m[c].cv, b);
    assert WfAct(m, ss[i].used, a);
    assert Get(m[b].cv, a.tid) <= Get(m[c].cv, a.tid);
  }

  // ----- records are never changed -----

  ghost predicate GrowsTo(m: Infos, n: Infos) {
    forall a :: a in m ==> a in n && n[a] == m[a]
  }

  lemma NewInfoFresh(s: State, a: Act, i: Info)
    requires Inv(s) && NewInfo(s.info, s.used, a, i)
    ensures a !in s.info
  {
    assert WfAct(s.info, s.used, a);
  }

  lemma StepGrows(s: State, l: Label, t: State)
    requires Inv(s) && SaturatedInv(s) && Step(s, l, t)
    ensures GrowsTo(s.info, t.info)
  {
    hide Inv;
    hide SaturatedInv;
    if !l.Defer? {
      hide Step;
      var a, i := StepRecords(s, l, t);
      NewInfoFresh(s, a, i);
    }
  }

  lemma {:induction false} RunGrows(ss: seq<State>, ls: seq<Label>, i: nat, j: nat)
    requires IsRun(ss, ls) && i <= j < |ss|
    ensures GrowsTo(ss[i].info, ss[j].info)
    decreases j - i
  {
    hide Inv;
    hide SaturatedInv;
    hide Step;
    if i < j {
      RunGrows(ss, ls, i, j - 1);
      RunInv(ss, ls, j - 1);
      RunSaturated(ss, ls, j - 1);
      StepGrows(ss[j - 1], ls[j - 1], ss[j]);
    }
  }

  lemma GrowsAt(m: Infos, n: Infos, a: Act)
    requires GrowsTo(m, n) && a in m
    ensures a in n && n[a] == m[a]
  {
  }

  // ----- sequentially consistent writes -----

  predicate ScWrite(m: Infos, a: Act) {
    IsWrite(m, a) && m[a].order.SeqCst?
  }

  ghost predicate ScPair(s: State, a: Act, b: Act) {
    ScWrite(s.info, a) && ScWrite(s.info, b) && a.loc == b.loc && a.seqno <= b.seqno ==> Reach(s.graph, a, b)
  }

  ghost predicate ScLast(s: State, a: Act) {
    ScWrite(s.info, a) ==>
      a.loc in s.lastSc && ScWrite(s.info, s.lastSc[a.loc]) && s.lastSc[a.loc].loc == a.loc
      && a.seqno <= s.lastSc[a.loc].seqno
  }

  ghost predicate ScInv(s: State) {
    && (forall a, b {:trigger ScPair(s, a, b)} :: ScPair(s, a, b))
    && (forall a {:trigger ScLast(s, a)} :: ScLast(s, a))
    && (forall loc :: loc in s.lastSc ==> ScWrite(s.info, s.lastSc[loc]) && s.lastSc[loc].loc == loc)
  }

  /** A step that records `a` and, if `a` is a seq_cst write, orders the previous one before it. */
  lemma ScStep(s: State, a: Act, i: Info, t: State)
    requires Inv(s) && ScInv(s) && NewInfo(s.info, s.used, a, i) && t.info == s.info[a := i]
    requires Embeds(s.graph, t.graph)
    requires t.lastSc == if i.IsWrite() && i.order.SeqCst? then s.lastSc[a.loc := a] else s.lastSc
    requires i.IsWrite() && i.order.SeqCst? && a.loc in s.lastSc ==> Reach(t.graph, s.lastSc[a.loc], a)
    ensures ScInv(t)
  {
    forall x, y ensures ScPair(t, x, y) {
      if ScWrite(t.info, x) && ScWrite(t.info, y) && x.loc == y.loc && x.seqno <= y.seqno {
        if y == a {
          ReachRefl(t.graph, a);
          if x != a {
            assert ScLast(s, x) && ScPair(s, x, s.lastSc[x.loc]);
            ReachEmbeds(s.graph, t.graph, x, s.lastSc[x.loc]);
            ReachTrans(t.graph, x, s.lastSc[x.loc], a);
          }
        } else {
          NewIsFresh(s.info, s.used, a, y);
          assert ScPair(s, x, y);
          ReachEmbeds(s.graph, t.graph, x, y);
        }
      }
    }
    LastScStep(s, a, i, t);
  }

  lemma LastScStep(s: State, a: Act, i: Info, t: State)
    requires Inv(s) && ScInv(s) && NewInfo(s.info, s.used, a, i) && t.info == s.info[a := i]
    requires t.lastSc == if i.IsWrite() && i.order.SeqCst? then s.lastSc[a.loc := a] else s.lastSc
    ensures forall x {:trigger ScLast(t, x)} :: ScLast(t, x)
    ensures forall loc :: loc in t.lastSc ==> ScWrite(t.info, t.lastSc[loc]) && t.lastSc[loc].loc == loc
  {
    forall x ensures ScLast(t, x) {
      assert ScLast(s, x);
      if x in s.info { NewIsFresh(s.info, s.used, a, x); }
      if x in s.info && x.loc in s.lastSc && s.lastSc[x.loc] in s.info { NewIsFresh(s.info, s.used, a, s.lastSc[x.loc]); }
    }
    forall loc | loc in s.lastSc ensures s.lastSc[loc] != a {
      NewIsFresh(s.info, s.used, a, s.lastSc[loc]);
    }
  }

  lemma {:induction false} LastScInEdgeSet(s: State, c: Cur, rmw: bool, k: nat)
    requires c.order.SeqCst? && c.act.loc in s.lastSc
    ensures s.lastSc[c.act.loc] in EdgeSet(s, c, rmw, k)
  {
    if k > 0 {
      LastScInEdgeSet(s, c, rmw, k - 1);
    }
  }

  lemma StoreSc(s: State, tid: nat, loc: nat, order: Order, value: nat, t: State)
    requires Inv(s) && ScInv(s) && StoreStep(s, tid, loc, order, value, t)
    ensures ScInv(t)
  {
    var c := Begin(s, tid, loc, order);
    BeginOk(s, tid, loc, order);
    PlainInfoOk(s, tid, loc, order, t.info[c.act]);
    StoreGraph(s, c, t.graph);
    if order.SeqCst? && loc in s.lastSc {
      LastScInEdgeSet(s, c, false, s.threads);
      assert Reach(t.graph, s.lastSc[loc], c.act);
    }
    ScStep(s, c.act, t.info[c.act], t);
  }

  lemma UpdateSc(s: State, c: Cur, p: Purpose, rf: Act, history: int, i: Info, g1: Graph, g2: Graph, t: State)
    requires Inv(s) && ScInv(s) && c == Begin(s, c.act.tid, c.act.loc, c.order) && c.act.tid < s.threads
    requires RmwStepVia(s, c, p, rf, history, i, g1, g2, t)
    ensures ScInv(t)
  {
    var es := EdgeSet(s, c.(cv := i.cv), true, s.threads);
    RmwRecordedMo(s, c, p, rf, history, i, g1, g2);
    forall a | a in es ensures IsWrite(s.info, a) && a.loc == c.act.loc {
      EdgeSetWrites(s, c.(cv := i.cv), true, s.threads, a);
    }
    RmwWritePart(s, c, i, es, g2, t.graph);
    EmbedsTrans(s.graph, g2, t.graph);
    if c.order.SeqCst? && c.act.loc in s.lastSc {
      LastScInEdgeSet(s, c.(cv := i.cv), true, s.threads);
      assert Reach(t.graph, s.lastSc[c.act.loc], c.act);
    }
    ScStep(s, c.act, i, t);
  }

  lemma ReadSc(s: State, c: Cur, p: Purpose, rf: Act, history: int, value: nat, cv: Clock, t: State)
    requires Inv(s) && ScInv(s) && c == Begin(s, c.act.tid, c.act.loc, c.order)
    requires ReadPart(s, c, p, rf, history, t.graph) && ReadClock(s, c, rf, cv)
    requires t.info == s.info[c.act := Info(Read, c.order, value, Some(rf), cv, MapGet(s.relFence, c.act.tid))]
    requires t.lastSc == s.lastSc
    ensures ScInv(t)
  {
    CandidateWrites(s, c, p, history, s.threads, rf);
    ReadInfoOk(s, c.act.tid, c.act.loc, c.order, rf, Read, value, cv);
    ReadGraph(s, c, p, rf, history, t.graph);
    ScStep(s, c.act, t.info[c.act], t);
  }

  lemma OtherSc(s: State, a: Act, i: Info, t: State)
    requires Inv(s) && ScInv(s) && NewInfo(s.info, s.used, a, i) && !i.IsMem()
    requires t.info == s.info[a := i] && t.lastSc == s.lastSc && t.graph == s.graph
    ensures ScInv(t)
  {
    EmbedsSuper(s.graph, t.graph);
    ScStep(s, a, i, t);
  }

  lemma LoadSc(s: State, tid: nat, loc: nat, order: Order, rf: Act, history: int, budget: bool, t: State)
    requires Inv(s) && ScInv(s) && LoadStep(s, tid, loc, order, rf, history, budget, t)
    ensures ScInv(t)
  {
    hide Inv;
    hide ScInv;
    var c := Begin(s, tid, loc, order);
    var g, cv, acq :|
      && ReadPart(s, c, PlainRead, rf, history, g)
      && ReadClock(s, c, rf, cv) && AcqUpdated(s, tid, rf, acq)
      && t == Commit(s, c.act, Info(Read, order, 0, Some(rf), cv, MapGet(s.relFence, tid)), budget && CanPrune(s, c, rf))
                .(graph := g, acqCv := acq);
    ReadSc(s, c, PlainRead, rf, history, 0, cv, t);
  }

  lemma FailedSwapSc(s: State, tid: nat, loc: nat, order: Order, p: Purpose, rf: Act, history: int, t: State)
    requires Inv(s) && ScInv(s) && FailedSwapStep(s, tid, loc, order, p, rf, history, t)
    ensures ScInv(t)
  {
    hide Inv;
    hide ScInv;
    var c := Begin(s, tid, loc, order);
    var g, cv, acq :|
      && p.CompareSwap? && !WouldSucceed(s.info, rf, p) && ReadPart(s, c, p, rf, history, g)
      && ReadClock(s, c, rf, cv) && AcqUpdated(s, tid, rf, acq)
      && t == Commit(s, c.act, Info(Read, order, p.expected, Some(rf), cv, MapGet(s.relFence, tid)), false)
                .(graph := g, acqCv := acq);
    ReadSc(s, c, p, rf, history, p.expected, cv, t);
  }

  lemma DeferSc(s: State)
    requires ScInv(s)
    ensures ScInv(s.(used := s.used + 1))
  {
    var t := s.(used := s.used + 1);
    forall x, y ensures ScPair(t, x, y) { assert ScPair(s, x, y); }
    forall x ensures ScLast(t, x) { assert ScLast(s, x); }
  }

  lemma StepSc(s: State, l: Label, t: State)
    requires Inv(s) && SaturatedInv(s) && ScInv(s) && Step(s, l, t)
    ensures ScInv(t)
  {
    hide Inv;
    hide ScInv;
    hide SaturatedInv;
    hide LoadStep;
    hide FailedSwapStep;
    hide StoreStep;
    hide FenceStep;
    hide SyncStep;
    hide SpawnStep;
    hide RmwStepVia;
    match l
    case Load(tid, loc, order, rf, history, budget) => LoadSc(s, tid, loc, order, rf, history, budget, t);
    case FailedSwap(tid, loc, order, p, rf, history) => FailedSwapSc(s, tid, loc, order, p, rf, history, t);
    case Update(tid, loc, order, p, rf, history, value) =>
      var c := Begin(s, tid, loc, order);
      var i: Info, g1, g2 :| i.value == value && RmwStepVia(s, c, p, rf, history, i, g1, g2, t);
      UpdateSc(s, c, p, rf, history, i, g1, g2, t);
    case Store(tid, loc, order, value) => StoreSc(s, tid, loc, order, value, t);
    case Defer(_) => DeferSc(s);
    case _ =>
      var a, i := StepRecords(s, l, t);
      NonMemRecords(s, l, t, a, i);
      OtherSc(s, a, i, t);
  }

  /** Fences, joins, locks and thread creation record no access. */
  lemma NonMemRecords(s: State, l: Label, t: State, a: Act, i: Info)
    requires Inv(s) && Step(s, l, t) && (l.FenceOp? || l.Sync? || l.Spawn?)
    requires NewInfo(s.info, s.used, a, i) && t.info == s.info[a := i]
    ensures !i.IsMem() && t.graph == s.graph && t.lastSc == s.lastSc
  {
    assert WfAct(s.info, s.used, a);
    var c := Begin(s, l.tid, if l.FenceOp? then FENCE_LOCATION else l.loc, if l.FenceOp? then l.order else SeqCst);
    assert a in t.info;
    assert a == c.act;
  }

  lemma InitSc()
    ensures ScInv(Init())
  {
    forall a, b ensures ScPair(Init(), a, b) {}
    forall a ensures ScLast(Init(), a) {}
  }

  lemma {:induction false} RunScInv(ss: seq<State>, ls: seq<Label>, i: nat)
    requires IsRun(ss, ls) && i < |ss|
    ensures ScInv(ss[i])
  {
    hide Step;
    hide Inv;
    hide ScInv;
    hide SaturatedInv;
    if i == 0 {
      InitSc();
    } else {
      RunScInv(ss, ls, i - 1);
      RunInv(ss, ls, i - 1);
      RunSaturated(ss, ls, i - 1);
      StepSc(ss[i - 1], ls[i - 1], ss[i]);
    }
  }

  /**
   In every run the seq_cst writes to a location are ordered, in modification order, as they
   executed (paragraph 3 of section 29.3 of ISO/IEC 14882:2011).
   */
  lemma RunSeqCstWrites(ss: seq<State>, ls: seq<Label>, i: nat, a: Act, b: Act)
    requires IsRun(ss, ls) && i < |ss|
    requires ScWrite(ss[i].info, a) && ScWrite(ss[i].info, b) && a.loc == b.loc && a.seqno <= b.seqno
    ensures Reach(ss[i].graph, a, b)
  {
    RunScInv(ss, ls, i);
    assert ScPair(ss[i], a, b);
  }
}
