/**
 Small runs written down step by step: what a state shows of one location, and what the engine's
 steps make of it.
 */
module SmallRuns {
  import opened Options
  import opened Clocks
  import opened MoGraph
  import opened Actions
  import opened ExecutionState

  // ----- single edges -----

  /** An edge whose target already knows the source's clock changes no clock. */
  lemma PushNothing(g: Graph, f: Act, to: Act)
    requires f in g && to in g && Leq(g[f].cv, g[to].cv)
    ensures Propagated(g, f, to, g)
  {
    forall n, t: nat | n in g ensures EntryFrom(g, g, n, t) {
      ReachRefl(g, n);
    }
  }

  /** A push that stops at the target of the new edge. */
  lemma PushOne(g: Graph, f: Act, to: Act, d: Clock)
    requires Edge(g, f, to) && to in g && f != to && d == Join(g[f].cv, g[to].cv) && !Leq(g[f].cv, g[to].cv)
    requires forall v :: v in g[to].edges ==> v != to && v in g && Leq(d, g[v].cv)
    ensures Propagated(g, f, to, g[to := g[to].(cv := d)])
  {
    var h := g[to := g[to].(cv := d)];
    forall n, t: nat | n in g ensures EntryFrom(g, h, n, t) {
      ReachRefl(g, n);
      ReachEdge(g, f, to);
      var u := if n == to && Get(d, t) != Get(g[to].cv, t) then f else n;
      assert Get(h[n].cv, t) == Get(g[u].cv, t);
    }
  }

  /** An edge from a write that no RMW has read. */
  lemma AddPlain(g: Graph, a: Act, to: Act, h: Graph)
    requires a in g && to in g && g[a].rmw.None? && !Test(g, a, to)
    requires Propagated(WithEdge(g, a, to), a, to, h)
    ensures AddedEdge(g, a, to, false, h)
  {
    assert Chain(g, a, [], to, a);
  }

  /** An edge from a write that one RMW has read. */
  lemma AddBehind(g: Graph, a: Act, r: Act, to: Act, h: Graph)
    requires a in g && r in g && to in g && g[a].rmw == Some(r) && r != to && g[r].rmw.None? && !Test(g, a, to)
    requires Propagated(WithEdge(g, r, to), r, to, h)
    ensures AddedEdge(g, a, to, false, h)
  {
    assert [r][1..] == [];
    assert RmwOf(g, a, r) && Chain(g, r, [], to, r);
    assert Chain(g, a, [r], to, r);
  }

  lemma AddNone(g: Graph, to: Act)
    ensures AddedPruned(g, [], to, g) && AddedAll(g, [], to, false, g)
  {
    assert PruneOf(WithNodes(g, []), [], []);
  }

  lemma AddLast(g: Graph, a: Act, to: Act, same: bool, h: Graph)
    requires AddedOne(g, a, to, same, h)
    ensures AddedAll(g, [a], to, same, h)
  {
    var froms := [a];
    assert froms[..|froms| - 1] == [];
    assert AddedAll(g, froms[..|froms| - 1], to, same, g) && froms[|froms| - 1] == a;
  }

  lemma AddSingle(g: Graph, a: Act, to: Act, h: Graph)
    requires a.tid != to.tid && AddedOne(WithNode(g, a), a, to, false, h)
    ensures AddedPruned(g, [a], to, h)
  {
    var m := WithNodes(g, [a]);
    assert [a][..0] == [] && WithNodes(g, []) == g;
    ReachRefl(m, a);
    assert Dominated(m, a, [a]);
    assert PruneOf(m, [a], [a]);
    AddLast(m, a, to, true, h);
  }

  // ----- what a state shows -----

  /** What later steps need to know of a state, about location 7. Records leave out the release fence. */
  datatype View = View(used: nat, lists: seq<seq<Act>>, writes: seq<seq<Act>>, cvs: seq<Clock>, info: Infos,
                       fences: seq<Act>, lastSc: map<nat, Act>)

  function Bare(i: Info): Info {
    i.(fence := None)
  }

  ghost predicate ShowsThread(s: State, v: View, t: nat)
    requires |v.lists| == |v.writes| == |v.cvs|
  {
    t < |v.lists| ==> ListsAre(s, t, v.lists[t], v.writes[t]) && ParentCv(s, t) == v.cvs[t]
  }

  ghost predicate ListsAre(s: State, t: nat, l: seq<Act>, w: seq<Act>) {
    At(s.lists, 7, t) == l && At(s.wlists, 7, t) == w
  }

  ghost predicate Vacant(s: State, t: nat) {
    t >= s.threads ==> ListsAre(s, t, [], []) && t !in s.last
  }

  ghost predicate Dated(s: State, v: View) {
    && (forall t :: t in s.last ==> s.last[t].seqno <= s.used)
    && (forall t :: t in s.creation ==> s.creation[t].seqno <= s.used)
    && (forall a :: a in v.info ==> a in s.info && Bare(s.info[a]) == v.info[a] && a.seqno <= s.used)
  }

  ghost predicate Shows(s: State, v: View, g: Graph) {
    && s.used == v.used && s.threads == |v.lists| == |v.writes| == |v.cvs| && s.graph == g
    && s.scFences == v.fences && s.lastSc == v.lastSc && Dated(s, v)
    && (forall t {:trigger ShowsThread(s, v, t)} :: ShowsThread(s, v, t))
    && (forall t {:trigger Vacant(s, t)} :: Vacant(s, t))
  }

  // ----- what recording an access shows -----

  function ScAfter(last: map<nat, Act>, a: Act, i: Info): map<nat, Act> {
    if i.IsWrite() && i.order.SeqCst? then last[a.loc := a] else last
  }

  /** The state after `tid` made an access with record `i`. */
  function Acted(s: State, tid: nat, i: Info, g: Graph, acq: map<nat, Clock>): State {
    var a := Act(tid, s.used + 1, 7);
    Commit(s, a, i, false).(graph := g, acqCv := acq, lastSc := ScAfter(s.lastSc, a, i))
  }

  function ViewOf(v: View, tid: nat, i: Info): View
    requires tid < |v.lists| && tid < |v.writes| && tid < |v.cvs|
  {
    var a := Act(tid, v.used + 1, 7);
    View(v.used + 1, v.lists[tid := v.lists[tid] + [a]],
         if i.IsWrite() then v.writes[tid := v.writes[tid] + [a]] else v.writes,
         v.cvs[tid := i.cv], v.info[a := Bare(i)], v.fences, ScAfter(v.lastSc, a, i))
  }

  lemma ActedLists(s: State, tid: nat, i: Info, g: Graph, acq: map<nat, Clock>, t: nat, l: seq<Act>, w: seq<Act>)
    requires ListsAre(s, t, l, w) && i.IsMem()
    ensures var a := Act(tid, s.used + 1, 7);
            ListsAre(Acted(s, tid, i, g, acq), t, if t == tid then l + [a] else l, if t == tid && i.IsWrite() then w + [a] else w)
  {
  }

  lemma ActedCv(s: State, v: View, tid: nat, i: Info, g: Graph, acq: map<nat, Clock>, t: nat)
    requires Dated(s, v)
    ensures ParentCv(Acted(s, tid, i, g, acq), t) == if t == tid then i.cv else ParentCv(s, t)
  {
  }

  lemma ActedThread(s: State, v: View, g: Graph, tid: nat, i: Info, g': Graph, acq: map<nat, Clock>, t: nat)
    requires Shows(s, v, g) && tid < s.threads && i.IsMem()
    ensures ShowsThread(Acted(s, tid, i, g', acq), ViewOf(v, tid, i), t) && Vacant(Acted(s, tid, i, g', acq), t)
  {
    assert ShowsThread(s, v, t) && Vacant(s, t);
    ActedCv(s, v, tid, i, g', acq, t);
    ActedLists(s, tid, i, g', acq, t, if t < s.threads then v.lists[t] else [], if t < s.threads then v.writes[t] else []);
    hide ListsAre;
    hide ParentCv;
    hide Dated;
  }

  lemma ActedDated(s: State, v: View, g: Graph, tid: nat, i: Info, g': Graph, acq: map<nat, Clock>)
    requires Shows(s, v, g) && tid < s.threads && i.IsMem()
    ensures Dated(Acted(s, tid, i, g', acq), ViewOf(v, tid, i))
  {
  }

  lemma ActedShows(s: State, v: View, g: Graph, tid: nat, i: Info, g': Graph, acq: map<nat, Clock>)
    requires Shows(s, v, g) && tid < s.threads && i.IsMem()
    ensures Shows(Acted(s, tid, i, g', acq), ViewOf(v, tid, i), g')
  {
    hide ShowsThread;
    hide Vacant;
    hide Dated;
    ActedDated(s, v, g, tid, i, g', acq);
    forall t ensures ShowsThread(Acted(s, tid, i, g', acq), ViewOf(v, tid, i), t) && Vacant(Acted(s, tid, i, g', acq), t) {
      ActedThread(s, v, g, tid, i, g', acq, t);
    }
  }

  // ----- what thread creation shows -----

  function Spawned(s: State, tid: nat): State {
    var c := Begin(s, tid, 0, SeqCst);
    Commit(s, c.act, Info(Other, SeqCst, 0, None, c.cv, MapGet(s.relFence, tid)), false)
    .(threads := s.threads + 1, creation := s.creation[s.threads := c.act])
  }

  function SpawnedView(v: View, tid: nat, cv: Clock): View
    requires tid < |v.cvs|
  {
    v.(used := v.used + 1, lists := v.lists + [[]], writes := v.writes + [[]], cvs := v.cvs[tid := cv] + [cv])
  }

  lemma SpawnedCv(s: State, v: View, tid: nat, t: nat)
    requires Dated(s, v) && tid < s.threads && s.threads !in s.last
    ensures var cv := Stamp(ParentCv(s, tid), tid, s.used + 1);
            ParentCv(Spawned(s, tid), t) == if t == tid || t == s.threads then cv else ParentCv(s, t)
  {
  }

  lemma SpawnedThread(s: State, v: View, g: Graph, tid: nat, cv: Clock, t: nat)
    requires Shows(s, v, g) && tid < s.threads && cv == Stamp(v.cvs[tid], tid, v.used + 1)
    ensures ShowsThread(Spawned(s, tid), SpawnedView(v, tid, cv), t) && Vacant(Spawned(s, tid), t)
  {
    assert ShowsThread(s, v, t) && Vacant(s, t) && ShowsThread(s, v, tid) && Vacant(s, s.threads);
    SpawnedCv(s, v, tid, t);
    assert ListsAre(Spawned(s, tid), t, At(s.lists, 7, t), At(s.wlists, 7, t));
    hide ParentCv;
    hide Dated;
  }

  lemma SpawnedDated(s: State, v: View, g: Graph, tid: nat, cv: Clock)
    requires Shows(s, v, g) && tid < s.threads
    ensures Dated(Spawned(s, tid), SpawnedView(v, tid, cv))
  {
  }

  /** A thread creation; the new thread knows what its creator knew. */
  lemma SpawnTakes(s: State, v: View, g: Graph, tid: nat, cv: Clock) returns (t: State)
    requires Shows(s, v, g) && tid < s.threads && cv == Stamp(v.cvs[tid], tid, v.used + 1)
    ensures Step(s, Spawn(tid, 0), t) && Shows(t, SpawnedView(v, tid, cv), g) && t.acqCv == s.acqCv
  {
    hide ShowsThread;
    hide Vacant;
    hide Dated;
    t := Spawned(s, tid);
    SpawnedDated(s, v, g, tid, cv);
    forall k ensures ShowsThread(t, SpawnedView(v, tid, cv), k) && Vacant(t, k) {
      SpawnedThread(s, v, g, tid, cv, k);
    }
  }

  // ----- what a thread's start or finish, or a join, shows -----

  /** A thread's start or finish, which synchronizes with nothing, or a join with the action `first`. */
  function Synced(s: State, tid: nat, cv: Clock): State {
    Commit(s, Act(tid, s.used + 1, 0), Info(Other, SeqCst, 0, None, cv, MapGet(s.relFence, tid)), false)
  }

  function SyncedView(v: View, tid: nat, cv: Clock): View
    requires tid < |v.cvs|
  {
    v.(used := v.used + 1, cvs := v.cvs[tid := cv])
  }

  lemma SyncedThread(s: State, v: View, g: Graph, tid: nat, cv: Clock, t: nat)
    requires Shows(s, v, g) && tid < s.threads
    ensures ShowsThread(Synced(s, tid, cv), SyncedView(v, tid, cv), t) && Vacant(Synced(s, tid, cv), t)
  {
    assert ShowsThread(s, v, t) && Vacant(s, t);
    assert ParentCv(Synced(s, tid, cv), t) == if t == tid then cv else ParentCv(s, t);
    assert ListsAre(Synced(s, tid, cv), t, At(s.lists, 7, t), At(s.wlists, 7, t));
    hide ParentCv;
    hide Dated;
  }

  lemma SyncedDated(s: State, v: View, g: Graph, tid: nat, cv: Clock)
    requires Shows(s, v, g) && tid < s.threads
    ensures Dated(Synced(s, tid, cv), SyncedView(v, tid, cv))
  {
  }

  lemma SyncTakes(s: State, v: View, g: Graph, tid: nat, first: Option<Act>, cv: Clock) returns (t: State)
    requires Shows(s, v, g) && tid < s.threads && (first.Some? ==> first.value in s.info)
    requires cv == if first.Some? then Join(Stamp(v.cvs[tid], tid, v.used + 1), s.info[first.value].cv) else Stamp(v.cvs[tid], tid, v.used + 1)
    ensures Step(s, Sync(tid, 0, first), t) && Shows(t, SyncedView(v, tid, cv), g) && t.acqCv == s.acqCv
    ensures var a := Act(tid, v.used + 1, 0); a in t.info && t.info[a].cv == cv
  {
    hide Vacant;
    hide Dated;
    t := Synced(s, tid, cv);
    assert ShowsThread(s, v, tid);
    SyncedDated(s, v, g, tid, cv);
    hide ShowsThread;
    forall k ensures ShowsThread(t, SyncedView(v, tid, cv), k) && Vacant(t, k) {
      SyncedThread(s, v, g, tid, cv, k);
    }
  }

  // ----- what a seq_cst fence shows -----

  function FenceInfo(cv: Clock): Info {
    Info(Kind.Fence, SeqCst, 0, None, cv, None)
  }

  function FenceActed(s: State, tid: nat, cv: Clock): State {
    Commit(s, Act(tid, s.used + 1, 0), Info(Kind.Fence, SeqCst, 0, None, cv, MapGet(s.relFence, tid)), false)
  }

  function FencedView(v: View, tid: nat, cv: Clock): View
    requires tid < |v.cvs|
  {
    var f := Act(tid, v.used + 1, 0);
    v.(used := v.used + 1, cvs := v.cvs[tid := cv], fences := v.fences + [f], info := v.info[f := FenceInfo(cv)])
  }

  lemma FencedThread(s: State, v: View, g: Graph, tid: nat, cv: Clock, t: nat)
    requires Shows(s, v, g) && tid < s.threads
    ensures ShowsThread(FenceActed(s, tid, cv), FencedView(v, tid, cv), t) && Vacant(FenceActed(s, tid, cv), t)
  {
    assert ShowsThread(s, v, t) && Vacant(s, t);
    assert ParentCv(FenceActed(s, tid, cv), t) == if t == tid then cv else ParentCv(s, t);
    assert ListsAre(FenceActed(s, tid, cv), t, At(s.lists, 7, t), At(s.wlists, 7, t));
    hide ParentCv;
    hide Dated;
  }

  lemma FencedDated(s: State, v: View, g: Graph, tid: nat, cv: Clock)
    requires Shows(s, v, g) && tid < s.threads
    ensures Dated(FenceActed(s, tid, cv), FencedView(v, tid, cv))
  {
  }

  /** A seq_cst fence of a thread whose reads have seen nothing released. */
  lemma FenceTakes(s: State, v: View, g: Graph, tid: nat, cv: Clock) returns (t: State)
    requires Shows(s, v, g) && tid < s.threads && tid !in s.acqCv && cv == Stamp(v.cvs[tid], tid, v.used + 1)
    ensures Step(s, FenceOp(tid, SeqCst), t) && Shows(t, FencedView(v, tid, cv), g) && t.acqCv == s.acqCv
  {
    hide Vacant;
    hide Dated;
    t := FenceActed(s, tid, cv);
    assert ShowsThread(s, v, tid);
    var c := Begin(s, tid, FENCE_LOCATION, SeqCst);
    assert c.cv == cv;
    assert SameClock(cv, Join(c.cv, AcqOf(s, tid)));
    FencedDated(s, v, g, tid, cv);
    hide ShowsThread;
    forall k ensures ShowsThread(t, FencedView(v, tid, cv), k) && Vacant(t, k) {
      FencedThread(s, v, g, tid, cv, k);
    }
  }

  // ----- what the scans see -----

  /** The last access of a list that a clock covers. */
  function HbStop(cv: Clock, l: seq<Act>): Option<Act> {
    if l == [] then None
    else if Since(cv, l[|l| - 1].tid, l[|l| - 1].seqno) then Some(l[|l| - 1])
    else HbStop(cv, l[..|l| - 1])
  }

  // ----- reads that find at most one prior -----

  /** Only the own thread yields a target, `x`. */
  ghost predicate OnlyTarget(s: State, c: Cur, rf: Act, x: Option<Act>) {
    c.act.tid < s.threads && forall t {:trigger ReadTarget(s, c, rf, t)} :: 0 <= t < s.threads ==>
      ReadTarget(s, c, rf, t) == if t == c.act.tid then x else None
  }

  function PriorOf(x: Option<Act>, rf: Act): seq<Act> {
    if x.Some? && x.value != rf then [x.value] else []
  }

  lemma {:induction false} PriorsAre(s: State, c: Cur, rf: Act, x: Option<Act>, k: nat)
    requires OnlyTarget(s, c, rf, x) && k <= s.threads
    ensures Priors(s, c, rf, k) == if k > 0 then PriorOf(x, rf) else []
  {
    if k > 0 {
      PriorsAre(s, c, rf, x, k - 1);
      assert ReadTarget(s, c, rf, Visit(s, c, k - 1)) == if k == 1 then x else None;
    }
  }

  function Acquired(s: State, tid: nat, rf: Act): map<nat, Clock> {
    s.acqCv[tid := Join(AcqOf(s, tid), RelClock(s.info, rf))]
  }

  lemma ReadTakes(s: State, v: View, g: Graph, c: Cur, p: Purpose, rf: Act, u: nat, x: Option<Act>, g': Graph)
    requires Shows(s, v, g) && c.act.loc == 7 && OnlyTarget(s, c, rf, x) && u < s.threads
    requires v.writes[u] != [] && rf == v.writes[u][|v.writes[u]| - 1] && AllowsRead(s, c, p, rf)
    requires (x.Some? && x.value != rf ==> !Test(g, rf, x.value)) && AddedAll(g, PriorOf(x, rf), rf, false, g')
    ensures ReadPart(s, c, p, rf, 0, g') && AcqUpdated(s, c.act.tid, rf, Acquired(s, c.act.tid, rf))
  {
    assert ShowsThread(s, v, u);
    LastCandidate(s, c, p, 0, u, s.threads);
    PriorsAre(s, c, rf, x, s.threads);
    forall t | 0 <= t < s.threads ensures Passes(s, c, rf, t) {
      assert ReadTarget(s, c, rf, t) == if t == c.act.tid then x else None;
    }
    var d := Join(AcqOf(s, c.act.tid), RelClock(s.info, rf));
    assert Acquired(s, c.act.tid, rf) == s.acqCv[c.act.tid := d] && SameClock(d, d);
  }

  // ----- writes that find at most one source -----

  ghost predicate OnlySource(s: State, c: Cur, rmw: bool, u: nat, x: Option<Act>) {
    u < s.threads && (c.order.SeqCst? ==> c.act.loc !in s.lastSc)
    && forall t {:trigger WriteTarget(s, c, rmw, t)} :: 0 <= t < s.threads ==>
      WriteTarget(s, c, rmw, t) == if t == u then x else None
  }

  lemma {:induction false} EdgeSetIs(s: State, c: Cur, rmw: bool, u: nat, x: Option<Act>, k: nat)
    requires OnlySource(s, c, rmw, u, x) && k <= s.threads
    ensures EdgeSet(s, c, rmw, k) == if u < k && x.Some? then [x.value] else []
  {
    if k > 0 {
      EdgeSetIs(s, c, rmw, u, x, k - 1);
      assert WriteTarget(s, c, rmw, k - 1) == if k - 1 == u then x else None;
    }
  }

  // ----- the steps -----

  function WriteInfo(order: Order, cv: Clock): Info {
    Info(Write, order, 0, None, cv, None)
  }

  function ReadInfo(order: Order, rf: Act, cv: Clock): Info {
    Info(Read, order, 0, Some(rf), cv, None)
  }

  function RmwInfo(rf: Act, cv: Clock): Info {
    Info(Rmw, Relaxed, 0, Some(rf), cv, None)
  }

  /** A record with the release fence the state gives it. */
  function Full(s: State, tid: nat, i: Info): Info {
    i.(fence := MapGet(s.relFence, tid))
  }

  /** The next access of a thread and its clock. */
  ghost predicate NextIs(s: State, v: View, g: Graph, a: Act, cv: Clock) {
    && Shows(s, v, g) && a.tid < s.threads && a == Act(a.tid, v.used + 1, 7)
    && cv == Stamp(v.cvs[a.tid], a.tid, v.used + 1)
  }

  lemma BeginIs(s: State, v: View, g: Graph, a: Act, order: Order, cv: Clock)
    requires NextIs(s, v, g, a, cv)
    ensures Begin(s, a.tid, 7, order) == Cur(a, order, cv)
  {
    assert ShowsThread(s, v, a.tid);
  }

  lemma StoreTakes(s: State, v: View, g: Graph, a: Act, order: Order, cv: Clock, u: nat, x: Option<Act>, g': Graph) returns (t: State)
    requires NextIs(s, v, g, a, cv) && OnlySource(s, Cur(a, order, cv), false, u, x)
    requires AddedPruned(g, if x.Some? then [x.value] else [], a, g')
    ensures Step(s, Store(a.tid, 7, order, 0), t) && Shows(t, ViewOf(v, a.tid, WriteInfo(order, cv)), g') && t.acqCv == s.acqCv
  {
    hide AddedPruned;
    BeginIs(s, v, g, a, order, cv);
    EdgeSetIs(s, Cur(a, order, cv), false, u, x, s.threads);
    t := Acted(s, a.tid, Full(s, a.tid, WriteInfo(order, cv)), g', s.acqCv);
    ActedShows(s, v, g, a.tid, Full(s, a.tid, WriteInfo(order, cv)), g', s.acqCv);
  }

  lemma LoadStepHolds(s: State, a: Act, order: Order, cv: Clock, rf: Act, cv': Clock, g': Graph)
    requires a == Act(a.tid, s.used + 1, 7) && a.tid < s.threads && Begin(s, a.tid, 7, order) == Cur(a, order, cv)
    requires ReadPart(s, Cur(a, order, cv), PlainRead, rf, 0, g') && AcqUpdated(s, a.tid, rf, Acquired(s, a.tid, rf))
    requires ReadClock(s, Cur(a, order, cv), rf, cv')
    ensures Step(s, Load(a.tid, 7, order, rf, 0, false), Acted(s, a.tid, Full(s, a.tid, ReadInfo(order, rf, cv')), g', Acquired(s, a.tid, rf)))
  {
    hide ReadPart;
    hide AcqUpdated;
    hide ReadClock;
    hide Begin;
    hide Acquired;
  }

  lemma LoadTakes(s: State, v: View, g: Graph, a: Act, order: Order, cv: Clock, rf: Act, u: nat, x: Option<Act>, cv': Clock, g': Graph)
    returns (t: State)
    requires NextIs(s, v, g, a, cv) && OnlyTarget(s, Cur(a, order, cv), rf, x) && u < s.threads
    requires v.writes[u] != [] && rf == v.writes[u][|v.writes[u]| - 1] && AllowsRead(s, Cur(a, order, cv), PlainRead, rf)
    requires (x.Some? && x.value != rf ==> !Test(g, rf, x.value)) && AddedAll(g, PriorOf(x, rf), rf, false, g')
    requires ReadClock(s, Cur(a, order, cv), rf, cv')
    ensures Step(s, Load(a.tid, 7, order, rf, 0, false), t) && Shows(t, ViewOf(v, a.tid, ReadInfo(order, rf, cv')), g')
    ensures ReadAccepts(s, Cur(a, order, cv), rf)
  {
    hide Begin;
    hide Step;
    hide AcqUpdated;
    hide ReadAccepts;
    hide AddedAll;
    hide AllowsRead;
    hide Acted;
    hide Acquired;
    hide OnlyTarget;
    hide ReadClock;
    BeginIs(s, v, g, a, order, cv);
    ReadTakes(s, v, g, Cur(a, order, cv), PlainRead, rf, u, x, g');
    LoadStepHolds(s, a, order, cv, rf, cv', g');
    var i := Full(s, a.tid, ReadInfo(order, rf, cv'));
    t := Acted(s, a.tid, i, g', Acquired(s, a.tid, rf));
    ActedShows(s, v, g, a.tid, i, g', Acquired(s, a.tid, rf));
    assert ViewOf(v, a.tid, i) == ViewOf(v, a.tid, ReadInfo(order, rf, cv'));
  }

  lemma UpdateStep(s: State, a: Act, cv: Clock, rf: Act, g: Graph, g': Graph)
    requires a == Act(a.tid, s.used + 1, 7) && a.tid < s.threads && Begin(s, a.tid, 7, Relaxed) == Cur(a, Relaxed, cv)
    requires ReadPart(s, Cur(a, Relaxed, cv), FetchOp, rf, 0, g) && AcqUpdated(s, a.tid, rf, Acquired(s, a.tid, rf))
    requires AddedRmw(WithNode(WithNode(g, rf), a), rf, a, g') && AddedPruned(g', EdgeSet(s, Cur(a, Relaxed, cv), true, s.threads), a, g')
    ensures Step(s, Update(a.tid, 7, Relaxed, FetchOp, rf, 0, 0), Acted(s, a.tid, Full(s, a.tid, RmwInfo(rf, cv)), g', Acquired(s, a.tid, rf)))
  {
    hide ReadPart;
    hide AcqUpdated;
    hide AddedRmw;
    hide AddedPruned;
    hide EdgeSet;
    hide Begin;
    hide Acquired;
    var c, i, acq := Cur(a, Relaxed, cv), Full(s, a.tid, RmwInfo(rf, cv)), Acquired(s, a.tid, rf);
    var t := Acted(s, a.tid, i, g', acq);
    assert RmwSpliced(s, c, FetchOp, rf, 0, i, g, g');
    hide RmwSpliced;
    assert t == Commit(s, a, i, false).(graph := g', acqCv := acq, lastSc := s.lastSc);
    assert c.(cv := cv) == c;
    hide Commit;
    hide Acted;
    assert RmwStepVia(s, c, FetchOp, rf, 0, i, g, g', t);
  }

  /** A relaxed fetch-and-op whose thread's own accesses stop at the write it reads, if anywhere. */
  lemma UpdateTakes(s: State, v: View, g: Graph, a: Act, cv: Clock, rf: Act, u: nat, x: Option<Act>, g': Graph) returns (t: State)
    requires NextIs(s, v, g, a, cv) && OnlyTarget(s, Cur(a, Relaxed, cv), rf, x) && x in {None, Some(rf)} && u < s.threads
    requires v.writes[u] != [] && rf == v.writes[u][|v.writes[u]| - 1] && AllowsRead(s, Cur(a, Relaxed, cv), FetchOp, rf)
    requires OnlySource(s, Cur(a, Relaxed, cv), true, a.tid, None)
    requires AddedRmw(WithNode(WithNode(g, rf), a), rf, a, g')
    ensures Step(s, Update(a.tid, 7, Relaxed, FetchOp, rf, 0, 0), t) && Shows(t, ViewOf(v, a.tid, RmwInfo(rf, cv)), g')
  {
    hide Begin;
    hide Step;
    hide ReadPart;
    hide AcqUpdated;
    hide AddedRmw;
    hide AddedPruned;
    hide EdgeSet;
    hide Acted;
    hide Acquired;
    hide OnlySource;
    hide OnlyTarget;
    hide AllowsRead;
    var c, i := Cur(a, Relaxed, cv), Full(s, a.tid, RmwInfo(rf, cv));
    BeginIs(s, v, g, a, Relaxed, cv);
    AddNone(g, rf);
    ReadTakes(s, v, g, c, FetchOp, rf, u, x, g);
    EdgeSetIs(s, c, true, a.tid, None, s.threads);
    AddNone(g', a);
    UpdateStep(s, a, cv, rf, g, g');
    t := Acted(s, a.tid, i, g', Acquired(s, a.tid, rf));
    ActedShows(s, v, g, a.tid, i, g', Acquired(s, a.tid, rf));
    assert ViewOf(v, a.tid, i) == ViewOf(v, a.tid, RmwInfo(rf, cv));
  }

  // ----- states without fences -----

  /** Only accesses by thread `u`, at most, are covered by the clock. */
  ghost predicate Only(v: View, cv: Clock, u: nat) {
    forall t {:trigger v.lists[t]} :: 0 <= t < |v.lists| && t != u ==> HbStop(cv, v.lists[t]) == None
  }

  ghost predicate Quiet(s: State, v: View, g: Graph) {
    Shows(s, v, g) && v.fences == [] && v.lastSc == map[]
  }

  lemma QuietSource(s: State, v: View, g: Graph, c: Cur, rmw: bool, u: nat)
    requires Quiet(s, v, g) && c.act.loc == 7 && c.order.Relaxed? && Only(v, c.cv, u) && u < s.threads
    requires HbStop(c.cv, v.lists[u]).Some? ==> IsWrite(v.info, HbStop(c.cv, v.lists[u]).value)
    ensures OnlySource(s, c, rmw, u, if rmw && u == c.act.tid then None else HbStop(c.cv, v.lists[u]))
  {
    forall t | 0 <= t < s.threads
      ensures WriteTarget(s, c, rmw, t) == if t == u && !(rmw && u == c.act.tid) then HbStop(c.cv, v.lists[u]) else None
    {
      assert ShowsThread(s, v, t);
      QuietScans(s, c, c.act, t, v.lists[t]);
    }
  }

  lemma QuietTarget(s: State, v: View, g: Graph, c: Cur, rf: Act)
    requires Quiet(s, v, g) && c.act.loc == 7 && c.order.Relaxed? && Only(v, c.cv, c.act.tid) && c.act.tid < s.threads
    requires HbStop(c.cv, v.lists[c.act.tid]).Some? ==> IsWrite(v.info, HbStop(c.cv, v.lists[c.act.tid]).value)
    ensures OnlyTarget(s, c, rf, HbStop(c.cv, v.lists[c.act.tid]))
  {
    forall t | 0 <= t < s.threads
      ensures ReadTarget(s, c, rf, t) == if t == c.act.tid then HbStop(c.cv, v.lists[c.act.tid]) else None
    {
      assert ShowsThread(s, v, t);
      QuietScans(s, c, rf, t, v.lists[t]);
    }
  }

  lemma {:induction false} QuietScans(s: State, c: Cur, rf: Act, t: nat, l: seq<Act>)
    requires s.scFences == []
    ensures ReadStop(s, c, rf, t, l) == WriteStop(s, c, t, l) == HbStop(c.cv, l)
  {
    assert LastFence(s.scFences, t) == None && LocalFence(s, c) == None;
    if l != [] {
      QuietScans(s, c, rf, t, l[..|l| - 1]);
    }
  }
}
