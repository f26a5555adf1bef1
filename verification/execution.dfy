/**
 The execution engine's methods, with their nested scans, clock caches and in-place updates,
 proved against the transition relation of `ExecutionState`.
 */
module Executions {
  import opened Options
  import opened Clocks
  import opened MoGraph
  import opened Actions
  import opened Coherence
  import opened ExecutionState
  import opened Engine
  import opened EngineSync
  import opened EngineValues
  import opened EngineCandidates
  import opened CycleGraphs

  // ----- facts about the scan functions that the loops rely on -----

  lemma {:induction false} FencesBeforeAt(fs: seq<Act>, f: Act, k: nat)
    requires k < |fs| && fs[k] == f && f !in fs[k + 1..]
    ensures FencesBefore(fs, f) == fs[..k]
    decreases |fs|
  {
    var last := |fs| - 1;
    if k < last {
      assert fs[last] == fs[k + 1..][last - k - 1];
      assert fs[..last][k + 1..] == fs[k + 1..][..last - k - 1];
      FencesBeforeAt(fs[..last], f, k);
      assert fs[..last][..k] == fs[..k];
    }
  }

  lemma {:induction false} EdgeSetGraph(s: State, g: Graph, c: Cur, rmw: bool, k: nat)
    ensures EdgeSet(s.(graph := g), c, rmw, k) == EdgeSet(s, c, rmw, k)
  {
    if k > 0 {
      EdgeSetGraph(s, g, c, rmw, k - 1);
      WriteStopGraph(s, g, c, k - 1, At(s.lists, c.act.loc, k - 1));
    }
  }

  lemma {:induction false} WriteStopGraph(s: State, g: Graph, c: Cur, t: nat, l: seq<Act>)
    ensures WriteStop(s.(graph := g), c, t, l) == WriteStop(s, c, t, l)
  {
    if l != [] {
      WriteStopGraph(s, g, c, t, l[..|l| - 1]);
    }
  }

  // ----- cached release-sequence clocks -----

  ghost predicate CacheEntry(m: Infos, rfcv: map<Act, Clock>, w: Act) {
    w in rfcv ==> IsWrite(m, w) && SameClock(rfcv[w], RelClock(m, w))
  }

  /** Every cached clock equals recomputation. */
  ghost predicate CacheOk(m: Infos, rfcv: map<Act, Clock>) {
    forall w {:trigger CacheEntry(m, rfcv, w)} :: CacheEntry(m, rfcv, w)
  }

  lemma CacheKept(m: Infos, used: nat, a: Act, i: Info, rfcv: map<Act, Clock>)
    requires InfosInv(m, used) && CacheOk(m, rfcv) && NewInfo(m, used, a, i)
    ensures CacheOk(m[a := i], rfcv)
  {
    var n := m[a := i];
    RecordInfos(m, used, a, i);
    forall w ensures CacheEntry(n, rfcv, w) {
      assert CacheEntry(m, rfcv, w);
      if w in rfcv {
        NewIsFresh(m, used, a, w);
        RelClockStable(m, n, used, w);
      }
    }
  }

  class ModelExecution {
    var info: Infos
    var used: nat
    var threads: nat
    var last: map<nat, Act>
    var creation: map<nat, Act>
    var relFence: map<nat, Act>
    var acqCv: map<nat, Clock>
    var lists: map<(nat, nat), seq<Act>>
    var wlists: map<(nat, nat), seq<Act>>
    var scFences: seq<Act>
    var lastSc: map<nat, Act>
    var rfcv: map<Act, Clock>
    const mo: CycleGraph
    const history: int

    ghost function S(): State
      reads this, mo
    {
      State(info, used, threads, last, creation, relFence, acqCv, lists, wlists, scFences, lastSc, mo.nodes)
    }

    ghost predicate Valid()
      reads this, mo
    {
      Inv(S()) && CacheOk(info, rfcv)
    }

    constructor (history: int)
      ensures Valid() && S() == Init() && fresh(mo) && this.history == history
    {
      info, used, threads := map[], 0, 2;
      last, creation, relFence, acqCv := map[], map[], map[], map[];
      lists, wlists, scFences, lastSc, rfcv := map[], map[], [], map[], map[];
      mo := new CycleGraph();
      this.history := history;
      new;
      InitInv();
    }

    // ----- queries -----

    /** `get_last_seq_cst_fence`. */
    method LastScFence(tid: nat, before: Option<Act>) returns (r: Option<Act>)
      requires before.Some? ==> before.value in scFences
      ensures r == if before.None? then LastFence(scFences, tid) else LastFence(FencesBefore(scFences, before.value), tid)
    {
      var k := |scFences|;
      if before.Some? {
        while scFences[k - 1] != before.value
          invariant 0 < k <= |scFences| && before.value !in scFences[k..]
          invariant before.value in scFences[..k]
          decreases k
        {
          assert scFences[..k] == scFences[..k - 1] + [scFences[k - 1]];
          assert scFences[k - 1..] == [scFences[k - 1]] + scFences[k..];
          k := k - 1;
        }
        FencesBeforeAt(scFences, before.value, k - 1);
        k := k - 1;
      }
      ghost var fs := scFences[..k];
      assert before.None? ==> fs == scFences;
      while k > 0
        invariant 0 <= k <= |scFences| && LastFence(fs, tid) == LastFence(scFences[..k], tid)
      {
        assert scFences[..k][..k - 1] == scFences[..k - 1];
        if scFences[k - 1].tid == tid {
          return Some(scFences[k - 1]);
        }
        k := k - 1;
      }
      r := None;
    }

    /** The inner loop of `r_modification_order`: actions of thread `t`, most recent first. */
    method ScanForRead(c: Cur, rf: Act, t: nat, fThread: Option<Act>, fLocal: Option<Act>, fBefore: Option<Act>)
      returns (x: Option<Act>)
      requires fThread == if t != c.act.tid then LastFence(scFences, t) else None
      requires fLocal == LocalFence(S(), c) && fBefore == FenceBeforeLocal(S(), c, t)
      ensures x == ReadStop(S(), c, rf, t, At(lists, c.act.loc, t))
    {
      var list := At(lists, c.act.loc, t);
      var k := |list|;
      assert list[..k] == list;
      while k > 0
        invariant 0 <= k <= |list| && ReadStop(S(), c, rf, t, list) == ReadStop(S(), c, rf, t, list[..k])
      {
        var act := list[k - 1];
        assert list[..k][..k - 1] == list[..k - 1];
        if act == rf {
          if HbCur(c, act) {
            return Some(act);
          }
        } else {
          if IsWrite(info, act) {
            if c.order.SeqCst? && Before(act, fThread) {
              return Some(act);
            } else if SeqCstAct(info, act) && Before(act, fLocal) {
              return Some(act);
            } else if Before(act, fBefore) {
              return Some(act);
            }
          }
          if HbCur(c, act) {
            return Some(act);
          }
        }
        k := k - 1;
      }
      x := None;
    }

    /**
     One turn of the thread loop of `r_modification_order`: skip the thread or scan it, and
     check the write of its stop against `rf`.
     */
    method VisitForRead(c: Cur, rf: Act, tid: nat, own: bool, prevIn: Option<Act>, fLocal: Option<Act>)
      returns (target: Option<Act>, conflict: bool, prev: Option<Act>, prune: bool)
      requires own <==> tid == c.act.tid
      requires fLocal == LocalFence(S(), c) && prevIn == if own then None else PrevSame(S(), c, rf)
      ensures target == ReadTarget(S(), c, rf, tid)
      ensures conflict <==> !Passes(S(), c, rf, tid)
      ensures prev == PrevSame(S(), c, rf)
      ensures own ==> prune == CanPrune(S(), c, rf)
    {
      target, conflict, prev, prune := None, false, prevIn, false;
      var fThread: Option<Act> := None;
      if !own {
        fThread := LastScFence(tid, None);
      }
      var fBefore: Option<Act> := None;
      if fLocal.Some? {
        LastFenceIn(scFences, c.act.tid);
        fBefore := LastScFence(tid, fLocal);
      }
      if prev.Some? && Get(CvOf(info, prev.value), tid) == Get(c.cv, tid)
         && (fThread.None? || fThread.value.seqno < prev.value.seqno) {
        return;
      }
      var x := ScanForRead(c, rf, tid, fThread, fLocal, fBefore);
      if x.Some? {
        target := Some(WriterOf(info, x.value));
        if own && x.value != rf && !ScStops(c, x.value, fThread, fLocal, fBefore)
           && (fLocal.None? || fLocal.value.seqno < x.value.seqno) {
          prev := x;
        }
        if target.value != rf {
          conflict := mo.CheckReachable(rf, target.value);
        } else if x.value != rf && x.value in info && !info[x.value].IsWrite() {
          prune := info[x.value].rf == Some(rf);
        }
      }
    }

    /**
     `r_modification_order`: decides whether `c` may read from `rf` and collects the writes
     that must come before `rf`.
     */
    method RModificationOrder(c: Cur, rf: Act) returns (ok: bool, priorset: seq<Act>, canprune: bool)
      requires c.act.tid < threads
      ensures ok <==> ReadAccepts(S(), c, rf)
      ensures ok ==> priorset == Priors(S(), c, rf, threads) && canprune == CanPrune(S(), c, rf)
    {
      priorset, canprune := [], false;
      var fLocal := LastScFence(c.act.tid, None);
      var prev: Option<Act> := None;
      var tid := c.act.tid;
      var i := 0;
      hide CanPrune;
      hide Passes;
      hide PrevSame;
      hide ReadTarget;
      hide LocalFence;
      while i < threads
        invariant 0 <= i <= threads && (i < threads ==> tid == Visit(S(), c, i))
        invariant priorset == Priors(S(), c, rf, i)
        invariant prev == if i == 0 then None else PrevSame(S(), c, rf)
        invariant i > 0 ==> canprune == CanPrune(S(), c, rf)
        invariant forall j :: 0 <= j < i ==> Passes(S(), c, rf, Visit(S(), c, j))
      {
        var target, conflict, next, prune := VisitForRead(c, rf, tid, i == 0, prev, fLocal);
        if conflict {
          return false, [], false;
        }
        prev := next;
        if i == 0 {
          canprune := prune;
        }
        if target.Some? && target.value != rf {
          priorset := priorset + [target.value];
        }
        tid := if tid + 1 == threads then 0 else tid + 1;
        i := i + 1;
      }
      forall t | 0 <= t < threads ensures Passes(S(), c, rf, t) {
        var j := VisitsAll(S(), c, t);
      }
      ok := true;
    }

    /** The inner loop of `w_modification_order`. */
    method ScanForWrite(c: Cur, t: nat, fBefore: Option<Act>) returns (x: Option<Act>)
      requires fBefore == if t != c.act.tid then FenceBeforeLocal(S(), c, t) else None
      ensures x == WriteStop(S(), c, t, At(lists, c.act.loc, t))
    {
      var list := At(lists, c.act.loc, t);
      var k := |list|;
      assert list[..k] == list;
      while k > 0
        invariant 0 <= k <= |list| && WriteStop(S(), c, t, list) == WriteStop(S(), c, t, list[..k])
      {
        var act := list[k - 1];
        assert list[..k][..k - 1] == list[..k - 1];
        if IsWrite(info, act) && Before(act, fBefore) {
          return Some(act);
        }
        if HbCur(c, act) {
          return Some(act);
        }
        k := k - 1;
      }
      x := None;
    }

    /** The thread loop of `w_modification_order`: the edge set of a write or RMW. */
    method CollectEdges(c: Cur, rmw: bool) returns (es: seq<Act>)
      ensures es == EdgeSet(S(), c, rmw, threads)
    {
      es := if c.order.SeqCst? && c.act.loc in lastSc then [lastSc[c.act.loc]] else [];
      var fLocal := LastScFence(c.act.tid, None);
      if fLocal.Some? {
        LastFenceIn(scFences, c.act.tid);
      }
      var i := 0;
      while i < threads
        invariant 0 <= i <= threads && es == EdgeSet(S(), c, rmw, i)
      {
        var fBefore: Option<Act> := None;
        if fLocal.Some? && i != c.act.tid {
          fBefore := LastScFence(i, fLocal);
        }
        if !(rmw && i == c.act.tid) {
          var x := ScanForWrite(c, i, fBefore);
          if x.Some? {
            es := es + [WriterOf(info, x.value)];
          }
        }
        i := i + 1;
      }
    }

    /** The two exclusions of `build_may_read_from`: stale seq_cst writes, and writes an RMW already read. */
    method Allows(c: Cur, p: Purpose, w: Act) returns (allow: bool)
      ensures allow == AllowsRead(S(), c, p, w)
    {
      allow := true;
      if c.order.SeqCst? {
        var isLast := c.act.loc in lastSc && lastSc[c.act.loc] == w;
        if !isLast && (SeqCstAct(info, w) ||
                       (c.act.loc in lastSc && Since(CvOf(info, lastSc[c.act.loc]), w.tid, w.seqno))) {
          allow := false;
        }
      }
      if WouldSucceed(info, w, p) && HasRmw(mo.nodes, w) {
        allow := false;
      }
    }

    /** One thread of `build_may_read_from`. */
    method CollectCandidates(c: Cur, p: Purpose, t: nat) returns (rfs: seq<Act>)
      ensures rfs == Candidates(S(), c, p, At(wlists, c.act.loc, t), history)
    {
      rfs := [];
      var list := At(wlists, c.act.loc, t);
      var left := history;
      var k := |list|;
      hide AllowsRead;
      assert list[..k] == list;
      while k > 0
        invariant 0 <= k <= |list|
        invariant Candidates(S(), c, p, list, history) == rfs + Candidates(S(), c, p, list[..k], left)
      {
        var w := list[k - 1];
        assert list[..k][..k - 1] == list[..k - 1];
        var allow := Allows(c, p, w);
        if allow {
          CandidatesFirst(S(), c, p, list[..k], left, rfs);
          rfs := rfs + [w];
          if left == 1 || HbCur(c, w) {
            return;
          }
          left := left - 1;
        } else if HbCur(c, w) {
          return;
        }
        k := k - 1;
      }
    }

    /** `build_may_read_from`. */
    method BuildMayReadFrom(c: Cur, p: Purpose) returns (rfs: seq<Act>)
      ensures rfs == MayReadFrom(S(), c, p, history, threads)
      ensures Prepared(S()) && c == Begin(S(), c.act.tid, c.act.loc, c.order) ==> AllReadable(S(), c, p, history, rfs)
    {
      hide Prepared;
      hide AllReadable;
      rfs := [];
      var i := 0;
      while i < threads
        invariant 0 <= i <= threads && rfs == MayReadFrom(S(), c, p, history, i)
      {
        var more := CollectCandidates(c, p, i);
        rfs := rfs + more;
        i := i + 1;
      }
      CandidatesReadable(S(), c, p, history);
    }

    /**
     The loop of `process_read`: tries candidates in the order the fuzzer picks them, removing
     each rejected one by overwriting it with the last. `None` when all are rejected.
     */
    method ChooseWrite(c: Cur, candidates: seq<Act>, picks: seq<nat>)
      returns (rf: Option<Act>, priorset: seq<Act>, canprune: bool)
      requires c.act.tid < threads
      ensures rf.Some? ==> rf.value in candidates && ReadAccepts(S(), c, rf.value)
                           && priorset == Priors(S(), c, rf.value, threads) && canprune == CanPrune(S(), c, rf.value)
      ensures rf.None? ==> forall w :: w in candidates ==> !ReadAccepts(S(), c, w)
    {
      var rfSet := candidates;
      var turn := 0;
      while rfSet != []
        invariant forall w :: w in rfSet ==> w in candidates
        invariant forall w :: w in candidates && w !in rfSet ==> !ReadAccepts(S(), c, w)
        decreases |rfSet|
      {
        var index := (if turn < |picks| then picks[turn] else 0) % |rfSet|;
        var w := rfSet[index];
        var ok;
        ok, priorset, canprune := RModificationOrder(c, w);
        if ok {
          return Some(w), priorset, canprune;
        }
        DropCovers(rfSet, index);
        rfSet := rfSet[index := rfSet[|rfSet| - 1]][..|rfSet| - 1];
        turn := turn + 1;
      }
      rf, priorset, canprune := None, [], false;
    }

    // ----- release sequences -----

    /**
     `get_hb_from_write`: walks back along the RMW chain to a write whose clock is known, then
     forward again, caching. The result is the recursively defined release-sequence clock.
     */
    method GetHbFromWrite(write: Act) returns (vec: Option<Clock>)
      requires InfosInv(info, used) && CacheOk(info, rfcv) && IsWrite(info, write)
      modifies this`rfcv
      ensures CacheOk(info, rfcv)
      ensures SameClock(Value(vec), RelClock(info, write))
      ensures RunState(S()) ==> forall x :: x in info ==> (x.seqno <= Get(Value(vec), x.tid) <==> ReleasedBy(info, x, write))
    {
      var processset := [];
      var rf := write;
      while info[rf].kind.Rmw? && !(info[rf].order.IsAcquire() && info[rf].order.IsRelease()) && rf !in rfcv
        invariant IsWrite(info, rf) && ChainBack(info, write, processset, rf) && CacheOk(info, rfcv)
        decreases rf.seqno
      {
        assert WfAct(info, used, rf);
        ChainBackSnoc(info, write, processset, rf);
        processset := processset + [rf];
        rf := info[rf].rf.value;
      }
      ghost var start := rf;
      vec := None;
      var i: int := |processset|;
      while i >= 0
        invariant -1 <= i <= |processset| && CacheOk(info, rfcv)
        invariant 0 <= i ==> rf == Link(processset, i, start) && IsWrite(info, rf)
        invariant i == |processset| ==> vec == None && TurnStarts(info, rfcv, rf)
        invariant i < |processset| ==> SameClock(Value(vec), RelClock(info, Link(processset, i + 1, start)))
      {
        if i < |processset| {
          assert ChainLink(info, processset, i, start);
        }
        vec := HbTurn(rf, vec);
        i := i - 1;
        if i >= 0 {
          assert ChainLink(info, processset, i, start);
          rf := processset[i];
        }
      }
      if RunState(S()) {
        VecCovers(S(), Value(vec), write);
      }
    }

    /** One write of the forward pass of `get_hb_from_write`. */
    method HbTurn(rf: Act, vecIn: Option<Clock>) returns (vec: Option<Clock>)
      requires InfosInv(info, used) && CacheOk(info, rfcv) && IsWrite(info, rf)
      requires (vecIn == None && TurnStarts(info, rfcv, rf)) ||
               (info[rf].kind.Rmw? && info[rf].rf.Some? && SameClock(Value(vecIn), RelClock(info, info[rf].rf.value)))
      modifies this`rfcv
      ensures CacheOk(info, rfcv)
      ensures SameClock(Value(vec), RelClock(info, rf))
    {
      assert WfAct(info, used, rf) && AcqMerged(info, rf) && CacheEntry(info, rfcv, rf);
      ghost var was := rfcv;
      vec := vecIn;
      if rf in rfcv {
        vec := Some(rfcv[rf]);
      } else if info[rf].order.IsAcquire() && info[rf].order.IsRelease() {
        vec := Some(info[rf].cv);
      } else if info[rf].order.IsRelease() && !info[rf].kind.Rmw? {
        vec := Some(info[rf].cv);
      } else if info[rf].order.IsRelease() {
        vec := Some(Join(Value(vec), info[rf].cv));
        rfcv := rfcv[rf := vec.value];
      } else {
        if info[rf].fence.Some? {
          vec := Some(Join(Value(vec), info[info[rf].fence.value].cv));
        } else if vec.None? && info[rf].kind.Rmw? {
          vec := Some([]);
        }
        if vec.Some? {
          rfcv := rfcv[rf := vec.value];
        }
      }
      forall w ensures CacheEntry(info, rfcv, w) {
        assert CacheEntry(info, was, w);
      }
    }

    // ----- steps -----

    /** `initialize_curr_action`. */
    method InitializeAction(tid: nat, loc: nat, order: Order) returns (c: Cur)
      ensures c == Begin(S(), tid, loc, order) && c.act == Act(tid, used + 1, loc) && c.order == order
    {
      var parent := if tid in last then CvOf(info, last[tid])
                    else if tid in creation then CvOf(info, creation[tid]) else [];
      c := Cur(Act(tid, used + 1, loc), order, Stamp(parent, tid, used + 1));
    }

    method AddPriors(ps: seq<Act>, rf: Act, ghost ws: set<Act>)
      requires GraphInv(mo.nodes) && Attached(mo.nodes, ws, rf) && rf in ws
      requires forall p :: p in ps ==> p in ws && p.loc == rf.loc
      modifies mo
      ensures AddedAll(old(mo.nodes), ps, rf, false, mo.nodes)
    {
      ghost var g := mo.nodes;
      var i := 0;
      while i < |ps|
        invariant 0 <= i <= |ps| && AddedAll(g, ps[..i], rf, false, mo.nodes)
      {
        AddedAllInv(g, ws, ps[..i], rf, false, mo.nodes);
        ghost var before := mo.nodes;
        mo.AddEdge(ps[i], rf, false);
        AddedAllSnoc(g, ps, i, rf, false, before, mo.nodes);
        i := i + 1;
      }
      assert ps[..|ps|] == ps;
    }

    /** `read_from` and the fence bookkeeping after it: the clocks a read merges. */
    method MergeReleased(ghost s: State, c: Cur, rf: Act) returns (cv: Clock, acq: map<nat, Clock>)
      requires s.info == info && s.acqCv == acqCv
      requires InfosInv(info, used) && CacheOk(info, rfcv) && IsWrite(info, rf)
      modifies this`rfcv
      ensures CacheOk(info, rfcv)
      ensures ReadClock(s, c, rf, cv) && AcqUpdated(s, c.act.tid, rf, acq)
    {
      cv := c.cv;
      if c.order.IsAcquire() {
        var h := GetHbFromWrite(rf);
        if h.Some? {
          cv := Join(cv, h.value);
        }
        JoinSame(c.cv, Value(h), RelClock(info, rf), cv);
      }
      var h := GetHbFromWrite(rf);
      var a := if c.act.tid in acqCv then acqCv[c.act.tid] else [];
      var v := if h.Some? then Join(a, h.value) else a;
      JoinSame(a, Value(h), RelClock(info, rf), v);
      acq := acqCv[c.act.tid := v];
      assert acq == s.acqCv[c.act.tid := v] && SameClock(v, Join(AcqOf(s, c.act.tid), RelClock(s.info, rf)));
    }

    /** `add_action_to_lists` and `add_write_to_lists`. */
    method CommitAction(a: Act, i: Info, pruned: bool)
      modifies this
      ensures S() == Commit(old(S()), a, i, pruned) && rfcv == old(rfcv) && info == old(info)[a := i]
      ensures lastSc == old(lastSc) && acqCv == old(acqCv) && threads == old(threads) && creation == old(creation)
    {
      info := info[a := i];
      used := a.seqno;
      last := last[a.tid := a];
      if i.kind.Fence? && i.order.IsRelease() {
        relFence := relFence[a.tid := a];
      }
      if i.IsMem() && !pruned {
        lists := Append(lists, a);
      }
      if i.IsWrite() {
        wlists := Append(wlists, a);
      }
      if i.kind.Fence? && i.order.SeqCst? {
        scFences := scFences + [a];
      }
    }

    /** The read part shared by loads and RMWs; on failure nothing has changed. */
    method ReadPartOf(c: Cur, p: Purpose, picks: seq<nat>) returns (rf: Option<Act>, cv: Clock, acq: map<nat, Clock>, canprune: bool)
      requires Valid() && c.act.tid < threads
      modifies this`rfcv, mo
      ensures CacheOk(info, rfcv)
      ensures rf.None? ==> mo.nodes == old(mo.nodes)
      ensures rf.None? <==> Stuck(old(S()), c, p, history)
      ensures rf.Some? ==> rf.value in MayReadFrom(old(S()), c, p, history, threads)
      ensures rf.Some? ==> ReadPart(old(S()), c, p, rf.value, history, mo.nodes)
                           && ReadClock(old(S()), c, rf.value, cv) && AcqUpdated(old(S()), c.act.tid, rf.value, acq)
                           && canprune == CanPrune(old(S()), c, rf.value)
    {
      ghost var s := S();
      assert GraphInv(mo.nodes) && InfosInv(info, used);
      hide Inv;
      hide GraphInv;
      hide InfosInv;
      hide CacheOk;
      hide Attached;
      hide ReadAccepts;
      hide CanPrune;
      hide Priors;
      hide MayReadFrom;
      hide ReadClock;
      hide AcqUpdated;
      hide AddedAll;
      var candidates := BuildMayReadFrom(c, p);
      var priorset;
      rf, priorset, canprune := ChooseWrite(c, candidates, picks);
      cv, acq := c.cv, acqCv;
      if rf.Some? {
        ReadReady(s, c, p, rf.value, history);
        AddPriors(priorset, rf.value, WriteSet(info));
        assert ReadPart(s, c, p, rf.value, history, mo.nodes);
        cv, acq := MergeReleased(s, c, rf.value);
      }
    }

    /** Records a finished read: the lists, the clock, and the thread's acquire-fence clock. */
    method CommitRead(ghost s: State, c: Cur, p: Purpose, rf: Act, i: Info, pruned: bool, acq: map<nat, Clock>)
      requires S() == s.(graph := mo.nodes) && Inv(s) && CacheOk(info, rfcv) && c.act.tid < threads
      requires i.kind.Read? && ReadRecorded(s, c, p, rf, history, i, mo.nodes, acq) && (pruned ==> CanPrune(s, c, rf))
      modifies this
      ensures Valid() && S() == Commit(s, c.act, i, pruned).(graph := mo.nodes, acqCv := acq)
    {
      hide Inv;
      hide CacheOk;
      hide CanPrune;
      hide ReadClock;
      hide AcqUpdated;
      hide ReadAccepts;
      hide MayReadFrom;
      hide AddedAll;
      ReadCacheKept(s, c, p, rf, history, i, rfcv);
      CommitAction(c.act, i, pruned);
      acqCv := acq;
      ReadStepInv(s, c, p, rf, history, i, pruned, S());
    }

    /** An atomic load and the value it returns. `None` exactly when every candidate write is rejected. */
    method AtomicLoad(tid: nat, loc: nat, order: Order, picks: seq<nat>, budget: bool) returns (rf: Option<Act>, value: nat)
      requires Valid() && tid < threads
      modifies this, mo
      ensures Valid()
      ensures rf.Some? ==> Step(old(S()), Load(tid, loc, order, rf.value, history, budget), S())
      ensures rf.Some? ==> rf.value in old(info) && value == old(info)[rf.value].value
      ensures rf.None? ==> S() == old(S())
      ensures rf.None? <==> Stuck(old(S()), Begin(old(S()), tid, loc, order), PlainRead, history)
    {
      ghost var s := S();
      hide Inv;
      hide CacheOk;
      hide Stuck;
      hide Commit;
      hide ReadPart;
      hide ReadClock;
      hide AcqUpdated;
      hide CanPrune;
      hide Begin;
      hide LoadStep;
      hide MayReadFrom;
      hide ReadAccepts;
      var c := InitializeAction(tid, loc, order);
      var cv, acq, canprune;
      rf, cv, acq, canprune := ReadPartOf(c, PlainRead, picks);
      value := 0;
      if rf.None? {
        return;
      }
      SwapVerdict(s, c, PlainRead, rf.value, history);
      value := info[rf.value].value;
      ghost var g := mo.nodes;
      CommitRead(s, c, PlainRead, rf.value, Info(Read, order, 0, rf, cv, MapGet(relFence, tid)), budget && canprune, acq);
      LoadWitness(s, c, rf.value, history, budget, g, cv, acq, S());
    }

    /** An atomic store. */
    method AtomicStore(tid: nat, loc: nat, order: Order, value: nat)
      requires Valid() && tid < threads
      modifies this, mo
      ensures Valid()
      ensures Step(old(S()), Store(tid, loc, order, value), S())
    {
      ghost var s := S();
      var c := InitializeAction(tid, loc, order);
      hide Inv;
      StoreReady(s, c, rfcv);
      hide CacheOk;
      hide EdgeSet;
      hide Begin;
      hide GraphInv;
      hide Attached;
      hide AddedPruned;
      hide StoreStep;
      var es := CollectEdges(c, false);
      mo.AddEdges(es, c.act, WriteSet(info));
      CommitUpdate(s, c, Info(Write, order, value, None, c.cv, MapGet(relFence, tid)), acqCv);
      StoreWitness(s, c, value, mo.nodes, S());
      StoreStepInv(s, tid, loc, order, value, S());
    }

    /**
     A fetch-and-op or compare-and-swap. The second half of a compare-and-swap that read
     another value is a plain read. Either way `read` is the value returned.
     */
    method AtomicUpdate(tid: nat, loc: nat, order: Order, p: Purpose, value: nat, picks: seq<nat>)
      returns (rf: Option<Act>, success: bool, read: nat)
      requires Valid() && tid < threads && !p.PlainRead?
      modifies this, mo
      ensures Valid()
      ensures rf.Some? ==> rf.value in old(info) && (success <==> Succeeds(old(info), rf.value, p)) && read == old(info)[rf.value].value
      ensures rf.Some? && success ==> Step(old(S()), Update(tid, loc, order, p, rf.value, history, value), S())
      ensures rf.Some? && !success ==> Step(old(S()), FailedSwap(tid, loc, order, p, rf.value, history), S())
      ensures rf.None? ==> S() == old(S())
      ensures rf.None? <==> Stuck(old(S()), Begin(old(S()), tid, loc, order), p, history)
    {
      ghost var s := S();
      hide Inv;
      hide CacheOk;
      hide Stuck;
      hide ReadPart;
      hide ReadClock;
      hide AcqUpdated;
      hide CanPrune;
      hide Begin;
      hide RmwStep;
      hide FailedSwapStep;
      hide MayReadFrom;
      hide ReadAccepts;
      hide Succeeds;
      var c := InitializeAction(tid, loc, order);
      var cv, acq, canprune;
      rf, cv, acq, canprune := ReadPartOf(c, p, picks);
      success, read := false, 0;
      if rf.None? {
        return;
      }
      ghost var g := mo.nodes;
      SwapVerdict(s, c, p, rf.value, history);
      success, read := WouldSucceed(info, rf.value, p), info[rf.value].value;
      if success {
        FinishRmw(s, c, p, rf.value, value, cv, acq);
      } else {
        var expected := match p case CompareSwap(e, _) => e case _ => 0;
        CommitRead(s, c, p, rf.value, Info(Read, order, expected, rf, cv, MapGet(relFence, tid)), false, acq);
        FailedSwapWitness(s, c, p, rf.value, history, g, cv, acq, S());
      }
    }

    /** The second half of a successful RMW: `process_rmw` and then the write part. */
    method FinishRmw(ghost s: State, c: Cur, p: Purpose, rf: Act, value: nat, cv: Clock, acq: map<nat, Clock>)
      requires S() == s.(graph := mo.nodes) && Inv(s) && CacheOk(info, rfcv) && c.act.tid < threads
      requires c == Begin(s, c.act.tid, c.act.loc, c.order) && WouldSucceed(info, rf, p)
      requires ReadPart(s, c, p, rf, history, mo.nodes) && ReadClock(s, c, rf, cv) && AcqUpdated(s, c.act.tid, rf, acq)
      modifies this, mo
      ensures Valid() && Step(s, Update(c.act.tid, c.act.loc, c.order, p, rf, history, value), S())
    {
      ghost var g1 := mo.nodes;
      var i := Info(Rmw, c.order, value, Some(rf), cv, MapGet(relFence, c.act.tid));
      SpliceRmw(s, c, p, rf, i);
      ghost var g2 := mo.nodes;
      WritePartOfRmw(s, c, p, rf, i, acq, g1, g2);
      hide Inv;
      hide CacheOk;
      hide RmwStepVia;
      RmwWitness(s, c, p, rf, history, i, g1, g2, S());
    }

    method SpliceRmw(ghost s: State, c: Cur, p: Purpose, rf: Act, i: Info)
      requires Inv(s) && c == Begin(s, c.act.tid, c.act.loc, c.order) && c.act.tid < s.threads && WouldSucceed(s.info, rf, p)
      requires ReadPart(s, c, p, rf, history, mo.nodes) && ReadClock(s, c, rf, i.cv)
      requires i == Info(Rmw, c.order, i.value, Some(rf), i.cv, MapGet(s.relFence, c.act.tid))
      modifies mo
      ensures RmwSpliced(s, c, p, rf, history, i, old(mo.nodes), mo.nodes)
    {
      RmwCallable(s, c, p, rf, history, mo.nodes);
      hide Inv;
      hide ReadPart;
      hide ReadClock;
      hide Begin;
      mo.AddRmwEdge(rf, c.act);
    }

    method WritePartOfRmw(ghost s: State, c: Cur, p: Purpose, rf: Act, i: Info, acq: map<nat, Clock>, ghost g1: Graph, ghost g2: Graph)
      requires S() == s.(graph := g2) && Inv(s) && CacheOk(info, rfcv) && c.act.tid < threads
      requires c == Begin(s, c.act.tid, c.act.loc, c.order)
      requires RmwSpliced(s, c, p, rf, history, i, g1, g2) && AcqUpdated(s, c.act.tid, rf, acq)
      modifies this, mo
      ensures Valid() && RmwStepVia(s, c, p, rf, history, i, g1, g2, S())
    {
      RmwWriteReady(s, c, p, rf, history, i, g1, g2, rfcv);
      hide Inv;
      hide CacheOk;
      hide EdgeSet;
      hide RmwSpliced;
      hide AcqUpdated;
      hide Begin;
      hide GraphInv;
      hide Attached;
      hide AddedPruned;
      var es := CollectEdges(c.(cv := i.cv), true);
      mo.AddEdges(es, c.act, WriteSet(s.info[c.act := i]));
      CommitRmw(s, c, p, rf, i, acq, g1, g2);
    }

    method CommitRmw(ghost s: State, c: Cur, p: Purpose, rf: Act, i: Info, acq: map<nat, Clock>, ghost g1: Graph, ghost g2: Graph)
      requires S() == s.(graph := mo.nodes) && Inv(s) && c.act.tid < threads && CacheOk(s.info[c.act := i], rfcv)
      requires c == Begin(s, c.act.tid, c.act.loc, c.order)
      requires RmwSpliced(s, c, p, rf, history, i, g1, g2) && AcqUpdated(s, c.act.tid, rf, acq)
      requires AddedPruned(g2, EdgeSet(s, c.(cv := i.cv), true, s.threads), c.act, mo.nodes)
      modifies this
      ensures Valid() && RmwStepVia(s, c, p, rf, history, i, g1, g2, S())
    {
      hide Inv;
      hide CacheOk;
      hide RmwStepVia;
      hide RmwSpliced;
      hide AddedPruned;
      hide Begin;
      hide AcqUpdated;
      CommitUpdate(s, c, i, acq);
      RmwViaCommitted(s, c, p, rf, history, i, acq, g1, g2, mo.nodes, S());
    }

    method CommitUpdate(ghost s: State, c: Cur, i: Info, acq: map<nat, Clock>)
      requires S() == s.(graph := mo.nodes)
      modifies this
      ensures S() == Commit(s, c.act, i, false)
                       .(graph := mo.nodes, acqCv := acq,
                         lastSc := if c.order.SeqCst? then s.lastSc[c.act.loc := c.act] else s.lastSc)
      ensures rfcv == old(rfcv)
    {
      CommitGraph(s, mo.nodes, c.act, i);
      hide Commit;
      CommitAction(c.act, i, false);
      acqCv := acq;
      if c.order.SeqCst? {
        lastSc := lastSc[c.act.loc := c.act];
      }
    }

    /** A fence; an acquire fence merges what the thread's reads have seen released. */
    method Fence(tid: nat, order: Order)
      requires Valid() && tid < threads
      modifies this
      ensures Valid()
      ensures Step(old(S()), FenceOp(tid, order), S())
    {
      ghost var s := S();
      var c := InitializeAction(tid, FENCE_LOCATION, order);
      var cv := if order.IsAcquire() && tid in acqCv then Join(c.cv, acqCv[tid]) else c.cv;
      if order.IsAcquire() && tid !in acqCv {
        assert Join(c.cv, []) == c.cv;
      }
      var i := Info(Kind.Fence, order, 0, None, cv, MapGet(relFence, tid));
      CommitAction(c.act, i, false);
      FenceKept(s, c, i, rfcv, S());
    }

    /** A join, or a lock, that synchronizes with `first` when there is one. */
    method Synchronize(tid: nat, loc: nat, first: Option<Act>)
      requires Valid() && tid < threads && (first.Some? ==> first.value in info)
      modifies this
      ensures Valid()
      ensures Step(old(S()), Sync(tid, loc, first), S())
    {
      ghost var s := S();
      var c := InitializeAction(tid, loc, SeqCst);
      var cv := if first.Some? then Join(c.cv, CvOf(info, first.value)) else c.cv;
      var i := Info(Other, SeqCst, 0, None, cv, MapGet(relFence, tid));
      CommitAction(c.act, i, false);
      SyncKept(s, c, first, i, rfcv, S());
    }

    method CreateThread(tid: nat, loc: nat)
      requires Valid() && tid < threads
      modifies this
      ensures Valid()
      ensures Step(old(S()), Spawn(tid, loc), S())
    {
      ghost var s := S();
      var c := InitializeAction(tid, loc, SeqCst);
      var i := Info(Other, SeqCst, 0, None, c.cv, MapGet(relFence, tid));
      CommitAction(c.act, i, false);
      creation := creation[threads := c.act];
      threads := threads + 1;
      SpawnKept(s, c, i, rfcv, S());
    }

    /** A change point puts the action back after it has taken a sequence number. */
    method DeferAction(tid: nat)
      requires Valid() && tid < threads
      modifies this
      ensures Valid()
      ensures Step(old(S()), Defer(tid), S())
    {
      DeferInv(S());
      used := used + 1;
    }

    predicate ScStops(c: Cur, act: Act, fThread: Option<Act>, fLocal: Option<Act>, fBefore: Option<Act>)
      reads this
    {
      && IsWrite(info, act)
      && ((c.order.SeqCst? && Before(act, fThread)) || (SeqCstAct(info, act) && Before(act, fLocal)) || Before(act, fBefore))
    }
  }

  lemma {:induction false} LastFenceIn(fs: seq<Act>, tid: nat)
    ensures LastFence(fs, tid).Some? ==> LastFence(fs, tid).value in fs
  {
    if fs != [] && fs[|fs| - 1].tid != tid {
      LastFenceIn(fs[..|fs| - 1], tid);
    }
  }

  lemma LoadWitness(s: State, c: Cur, rf: Act, history: int, budget: bool, g: Graph, cv: Clock, acq: map<nat, Clock>, t: State)
    requires c == Begin(s, c.act.tid, c.act.loc, c.order)
    requires ReadPart(s, c, PlainRead, rf, history, g)
    requires ReadClock(s, c, rf, cv) && AcqUpdated(s, c.act.tid, rf, acq)
    requires t == Commit(s, c.act, Info(Read, c.order, 0, Some(rf), cv, MapGet(s.relFence, c.act.tid)), budget && CanPrune(s, c, rf))
                    .(graph := g, acqCv := acq)
    ensures LoadStep(s, c.act.tid, c.act.loc, c.order, rf, history, budget, t)
  {}

  lemma CommitGraph(s: State, g: Graph, a: Act, i: Info)
    ensures Commit(s.(graph := g), a, i, false) == Commit(s, a, i, false).(graph := g)
  {}

  lemma RmwViaCommitted(s: State, c: Cur, p: Purpose, rf: Act, history: int, i: Info, acq: map<nat, Clock>,
                        g1: Graph, g2: Graph, g3: Graph, t: State)
    requires Inv(s) && c.act.tid < s.threads && c == Begin(s, c.act.tid, c.act.loc, c.order)
    requires RmwSpliced(s, c, p, rf, history, i, g1, g2) && AcqUpdated(s, c.act.tid, rf, acq)
    requires AddedPruned(g2, EdgeSet(s, c.(cv := i.cv), true, s.threads), c.act, g3)
    requires t == Commit(s, c.act, i, false)
                    .(graph := g3, acqCv := acq,
                      lastSc := if c.order.SeqCst? then s.lastSc[c.act.loc := c.act] else s.lastSc)
    ensures RmwStepVia(s, c, p, rf, history, i, g1, g2, t) && Inv(t) && t.info == s.info[c.act := i]
  {
    RmwViaInv(s, c, p, rf, history, i, g1, g2, t);
  }

  /** What is read is on record; whether a write follows depends on its bytes. */
  lemma SwapVerdict(s: State, c: Cur, p: Purpose, rf: Act, history: int)
    requires Inv(s) && rf in MayReadFrom(s, c, p, history, s.threads)
    ensures rf in s.info && (WouldSucceed(s.info, rf, p) <==> Succeeds(s.info, rf, p))
  {
    CandidateWrites(s, c, p, history, s.threads, rf);
    SucceedsIff(s.info, rf, p);
  }

  lemma FailedSwapWitness(s: State, c: Cur, p: Purpose, rf: Act, history: int, g: Graph, cv: Clock, acq: map<nat, Clock>, t: State)
    requires c == Begin(s, c.act.tid, c.act.loc, c.order) && p.CompareSwap? && !WouldSucceed(s.info, rf, p)
    requires ReadPart(s, c, p, rf, history, g)
    requires ReadClock(s, c, rf, cv) && AcqUpdated(s, c.act.tid, rf, acq)
    requires t == Commit(s, c.act, Info(Read, c.order, p.expected, Some(rf), cv, MapGet(s.relFence, c.act.tid)), false)
                    .(graph := g, acqCv := acq)
    ensures FailedSwapStep(s, c.act.tid, c.act.loc, c.order, p, rf, history, t)
  {}

  lemma StoreWitness(s: State, c: Cur, value: nat, g: Graph, t: State)
    requires c == Begin(s, c.act.tid, c.act.loc, c.order)
    requires AddedPruned(s.graph, EdgeSet(s, c, false, s.threads), c.act, g)
    requires t == Commit(s, c.act, Info(Write, c.order, value, None, c.cv, MapGet(s.relFence, c.act.tid)), false)
                    .(graph := g, lastSc := if c.order.SeqCst? then s.lastSc[c.act.loc := c.act] else s.lastSc)
    ensures StoreStep(s, c.act.tid, c.act.loc, c.order, value, t)
  {}

  lemma RmwWitness(s: State, c: Cur, p: Purpose, rf: Act, history: int, i: Info, g1: Graph, g2: Graph, t: State)
    requires c == Begin(s, c.act.tid, c.act.loc, c.order) && c.act.tid < s.threads
    requires RmwStepVia(s, c, p, rf, history, i, g1, g2, t)
    ensures Step(s, Update(c.act.tid, c.act.loc, c.order, p, rf, history, i.value), t)
  {
    assert RmwStep(s, c.act.tid, c.act.loc, c.order, p, rf, history, i.value, t);
  }

  /** What `addEdges` needs for a store, and why the clock cache survives it. */
  lemma StoreReady(s: State, c: Cur, rfcv: map<Act, Clock>)
    requires Inv(s) && CacheOk(s.info, rfcv) && c == Begin(s, c.act.tid, c.act.loc, c.order)
    ensures GraphInv(s.graph) && Attached(s.graph, WriteSet(s.info), c.act) && s.graph.Keys <= WriteSet(s.info)
    ensures forall a :: a in EdgeSet(s, c, false, s.threads) ==> a in WriteSet(s.info) && a.loc == c.act.loc
    ensures forall value :: CacheOk(s.info[c.act := Info(Write, c.order, value, None, c.cv, MapGet(s.relFence, c.act.tid))], rfcv)
  {
    BeginOk(s, c.act.tid, c.act.loc, c.order);
    WritesAttached(s.info, s.used, s.graph, c.act);
    forall a | a in EdgeSet(s, c, false, s.threads) ensures a in WriteSet(s.info) && a.loc == c.act.loc {
      EdgeSetWrites(s, c, false, s.threads, a);
    }
    forall value ensures CacheOk(s.info[c.act := Info(Write, c.order, value, None, c.cv, MapGet(s.relFence, c.act.tid))], rfcv) {
      var i := Info(Write, c.order, value, None, c.cv, MapGet(s.relFence, c.act.tid));
      PlainInfoOk(s, c.act.tid, c.act.loc, c.order, i);
      CacheKept(s.info, s.used, c.act, i, rfcv);
    }
  }

  /** What `addRMWEdge` needs: nobody has updated `rf` yet, and the RMW has no node. */
  lemma RmwCallable(s: State, c: Cur, p: Purpose, rf: Act, history: int, g1: Graph)
    requires Inv(s) && c == Begin(s, c.act.tid, c.act.loc, c.order) && WouldSucceed(s.info, rf, p)
    requires ReadPart(s, c, p, rf, history, g1)
    ensures GraphInv(g1) && rf.loc == c.act.loc && 1 <= rf.seqno < c.act.seqno
    ensures (rf in g1 ==> g1[rf].rmw.None?) && c.act !in g1
  {
    BeginOk(s, c.act.tid, c.act.loc, c.order);
    ReadGraph(s, c, p, rf, history, g1);
    RmwSpliceReady(s, c, p, rf, history, g1);
    assert WfAct(s.info, s.used, rf);
    assert WfAct(s.info, s.used, c.act);
  }

  lemma RmwEdgesReady(s: State, c: Cur, i: Info)
    requires Inv(s) && c.act.seqno > s.used && i.IsWrite()
    ensures forall a :: a in EdgeSet(s, c, true, s.threads) ==> a in WriteSet(s.info[c.act := i]) && a.loc == c.act.loc
  {
    forall a | a in EdgeSet(s, c, true, s.threads) ensures a in WriteSet(s.info[c.act := i]) && a.loc == c.act.loc {
      EdgeSetWrites(s, c, true, s.threads, a);
      NewIsFresh(s.info, s.used, c.act, a);
    }
  }

  lemma RmwWriteReady(s: State, c: Cur, p: Purpose, rf: Act, history: int, i: Info, g1: Graph, g2: Graph, rfcv: map<Act, Clock>)
    requires Inv(s) && CacheOk(s.info, rfcv) && c == Begin(s, c.act.tid, c.act.loc, c.order) && c.act.tid < s.threads
    requires RmwSpliced(s, c, p, rf, history, i, g1, g2)
    ensures var ws := WriteSet(s.info[c.act := i]);
            GraphInv(g2) && Attached(g2, ws, c.act) && g2.Keys <= ws &&
            forall a :: a in EdgeSet(s.(graph := g2), c.(cv := i.cv), true, s.threads) ==> a in ws && a.loc == c.act.loc
    ensures EdgeSet(s.(graph := g2), c.(cv := i.cv), true, s.threads) == EdgeSet(s, c.(cv := i.cv), true, s.threads)
    ensures CacheOk(s.info[c.act := i], rfcv)
  {
    var n := s.info[c.act := i];
    RmwRecordedMo(s, c, p, rf, history, i, g1, g2);
    assert c.act.seqno > s.used && InfosInv(s.info, s.used) && GraphInv(g2) && g2.Keys <= WriteSet(n) && i.IsWrite();
    hide RmwSpliced;
    hide Inv;
    hide InfosInv;
    hide GraphInv;
    hide CacheOk;
    hide NewInfo;
    hide EdgeSet;
    hide Attached;
    EdgeSetGraph(s, g2, c.(cv := i.cv), true, s.threads);
    RmwEdgesReady(s, c.(cv := i.cv), i);
    WritesAttached(n, c.act.seqno, g2, c.act);
    CacheKept(s.info, s.used, c.act, i, rfcv);
  }

  lemma FenceKept(s: State, c: Cur, i: Info, rfcv: map<Act, Clock>, t: State)
    requires Inv(s) && CacheOk(s.info, rfcv) && c == Begin(s, c.act.tid, FENCE_LOCATION, c.order) && c.act.tid < s.threads
    requires SameClock(i.cv, if c.order.IsAcquire() then Join(c.cv, AcqOf(s, c.act.tid)) else c.cv)
    requires i == Info(Kind.Fence, c.order, 0, None, i.cv, MapGet(s.relFence, c.act.tid))
    requires t == Commit(s, c.act, i, false)
    ensures Step(s, FenceOp(c.act.tid, c.order), t) && Inv(t) && CacheOk(t.info, rfcv)
  {
    assert FenceStep(s, c.act.tid, c.order, t);
    FenceStepInv(s, c.act.tid, c.order, t);
    BeginOk(s, c.act.tid, FENCE_LOCATION, c.order);
    FenceClockOk(s, c, i.cv);
    PlainInfoOk(s, c.act.tid, FENCE_LOCATION, c.order, i);
    CacheKept(s.info, s.used, c.act, i, rfcv);
  }

  lemma SyncKept(s: State, c: Cur, first: Option<Act>, i: Info, rfcv: map<Act, Clock>, t: State)
    requires Inv(s) && CacheOk(s.info, rfcv) && c == Begin(s, c.act.tid, c.act.loc, SeqCst) && c.act.tid < s.threads
    requires first.Some? ==> first.value in s.info
    requires i == Info(Other, SeqCst, 0, None, i.cv, MapGet(s.relFence, c.act.tid))
    requires i.cv == if first.Some? then Join(c.cv, CvOf(s.info, first.value)) else c.cv
    requires t == Commit(s, c.act, i, false)
    ensures Step(s, Sync(c.act.tid, c.act.loc, first), t) && Inv(t) && CacheOk(t.info, rfcv)
  {
    assert SyncStep(s, c.act.tid, c.act.loc, first, t);
    SyncStepInv(s, c.act.tid, c.act.loc, first, t);
    BeginOk(s, c.act.tid, c.act.loc, SeqCst);
    if first.Some? {
      assert WfAct(s.info, s.used, first.value);
      JoinOk(c, CvOf(s.info, first.value), i.cv);
    }
    PlainInfoOk(s, c.act.tid, c.act.loc, SeqCst, i);
    CacheKept(s.info, s.used, c.act, i, rfcv);
  }

  lemma SpawnKept(s: State, c: Cur, i: Info, rfcv: map<Act, Clock>, t: State)
    requires Inv(s) && CacheOk(s.info, rfcv) && c == Begin(s, c.act.tid, c.act.loc, SeqCst) && c.act.tid < s.threads
    requires i == Info(Other, SeqCst, 0, None, c.cv, MapGet(s.relFence, c.act.tid))
    requires t == Commit(s, c.act, i, false).(threads := s.threads + 1, creation := s.creation[s.threads := c.act])
    ensures Step(s, Spawn(c.act.tid, c.act.loc), t) && Inv(t) && CacheOk(t.info, rfcv)
  {
    SpawnStepInv(s, c.act.tid, c.act.loc, t);
    BeginOk(s, c.act.tid, c.act.loc, SeqCst);
    PlainInfoOk(s, c.act.tid, c.act.loc, SeqCst, i);
    CacheKept(s.info, s.used, c.act, i, rfcv);
  }

  lemma JoinSame(a: Clock, h: Clock, r: Clock, cv: Clock)
    requires SameClock(h, r) && (cv == Join(a, h) || (cv == a && h == []))
    ensures SameClock(cv, Join(a, r))
  {
    forall t: nat ensures Get(cv, t) == Get(Join(a, r), t) {
      assert Get(h, t) <= Get(r, t) <= Get(h, t);
    }
  }

  /** What `addEdge` needs when the priors of an accepted read are added. */
  lemma ReadReady(s: State, c: Cur, p: Purpose, rf: Act, history: int)
    requires Inv(s) && c.act.tid < s.threads && rf in MayReadFrom(s, c, p, history, s.threads)
    ensures IsWrite(s.info, rf) && rf in WriteSet(s.info) && Attached(s.graph, WriteSet(s.info), rf)
    ensures forall q :: q in Priors(s, c, rf, s.threads) ==> q in WriteSet(s.info) && q.loc == rf.loc
  {
    CandidateWrites(s, c, p, history, s.threads, rf);
    assert WfAct(s.info, s.used, rf);
    WritesAttached(s.info, s.used, s.graph, rf);
    forall q | q in Priors(s, c, rf, s.threads) ensures q in WriteSet(s.info) && q.loc == rf.loc {
      PriorWrites(s, c, rf, q);
    }
  }

  lemma ReadCacheKept(s: State, c: Cur, p: Purpose, rf: Act, history: int, i: Info, rfcv: map<Act, Clock>)
    requires Inv(s) && CacheOk(s.info, rfcv) && c == Begin(s, c.act.tid, c.act.loc, c.order)
    requires rf in MayReadFrom(s, c, p, history, s.threads) && ReadClock(s, c, rf, i.cv) && (i.kind.Read? || i.kind.Rmw?)
    requires i == Info(i.kind, c.order, i.value, Some(rf), i.cv, MapGet(s.relFence, c.act.tid))
    ensures CacheOk(s.info[c.act := i], rfcv)
  {
    CandidateWrites(s, c, p, history, s.threads, rf);
    ReadInfoOk(s, c.act.tid, c.act.loc, c.order, rf, i.kind, i.value, i.cv);
    CacheKept(s.info, s.used, c.act, i, rfcv);
  }

  lemma CandidatesFirst(s: State, c: Cur, p: Purpose, l: seq<Act>, left: int, rfs: seq<Act>)
    requires l != [] && AllowsRead(s, c, p, l[|l| - 1])
    ensures rfs + Candidates(s, c, p, l, left) == (rfs + [l[|l| - 1]])
              + if left == 1 || HbCur(c, l[|l| - 1]) then [] else Candidates(s, c, p, l[..|l| - 1], left - 1)
  {}

  lemma DropCovers(s: seq<Act>, i: nat)
    requires i < |s|
    ensures var r := s[i := s[|s| - 1]][..|s| - 1];
            (forall w :: w in r ==> w in s) && (forall w :: w in s && w != s[i] ==> w in r)
  {
    var r := s[i := s[|s| - 1]][..|s| - 1];
    forall w | w in s && w != s[i] ensures w in r {
      var j :| 0 <= j < |s| && s[j] == w;
      assert w == if j == |s| - 1 then r[i] else r[j];
    }
  }

  function Value(v: Option<Clock>): Clock {
    if v.Some? then v.value else []
  }

  lemma VecCovers(s: State, v: Clock, w: Act)
    requires RunState(s) && w in s.info && SameClock(v, RelClock(s.info, w))
    ensures forall x :: x in s.info ==> (x.seqno <= Get(v, x.tid) <==> ReleasedBy(s.info, x, w))
  {
    forall x | x in s.info ensures x.seqno <= Get(v, x.tid) <==> ReleasedBy(s.info, x, w) {
      RelClockCovers(s, x, w);
      assert Get(v, x.tid) <= Get(RelClock(s.info, w), x.tid) <= Get(v, x.tid);
    }
  }

  /** Position `k` of the backward walk `ps`, which ended at `rf`. */
  function Link(ps: seq<Act>, k: nat, rf: Act): Act {
    if k < |ps| then ps[k] else rf
  }

  ghost predicate ChainLink(m: Infos, ps: seq<Act>, k: nat, rf: Act) {
    k < |ps| ==> IsWrite(m, ps[k]) && m[ps[k]].kind.Rmw? && m[ps[k]].rf == Some(Link(ps, k + 1, rf))
  }

  /** `ps` lists the RMWs from `write` back to, but not including, `rf`. */
  ghost predicate ChainBack(m: Infos, write: Act, ps: seq<Act>, rf: Act) {
    Link(ps, 0, rf) == write && forall k: nat :: ChainLink(m, ps, k, rf)
  }

  lemma ChainBackSnoc(m: Infos, write: Act, ps: seq<Act>, rf: Act)
    requires ChainBack(m, write, ps, rf) && IsWrite(m, rf) && m[rf].kind.Rmw? && m[rf].rf.Some?
    ensures ChainBack(m, write, ps + [rf], m[rf].rf.value)
  {
    forall k: nat ensures ChainLink(m, ps + [rf], k, m[rf].rf.value) {
      assert ChainLink(m, ps, k, rf);
    }
  }

  /** The forward pass can start at `rf`: nothing before it is needed. */
  ghost predicate TurnStarts(m: Infos, rfcv: map<Act, Clock>, rf: Act) {
    rf in m && (!m[rf].kind.Rmw? || (m[rf].order.IsAcquire() && m[rf].order.IsRelease()) || rf in rfcv)
  }
}
