/**
 The execution engine as a transition system: its state, the scans that decide which
 modification-order edges an access adds, and one relation per kind of action.

 Nondeterminism that the engine takes from its scheduler and fuzzer (which thread runs, which
 candidate write a read tries, the values computed by the program) is in the labels.
 */
module ExecutionState {
  import opened Options
  import opened Clocks
  import opened MoGraph
  import opened Actions

  datatype State = State(
    info: Infos,                        // every action taken so far
    used: nat,                          // used_sequence_numbers
    threads: nat,                       // next_thread_id
    last: map<nat, Act>,                // thrd_last_action
    creation: map<nat, Act>,            // the action that created each thread
    relFence: map<nat, Act>,            // thrd_last_fence_release
    acqCv: map<nat, Clock>,             // acq_fence_cv of each thread
    lists: map<(nat, nat), seq<Act>>,   // obj_thrd_map, by location and thread
    wlists: map<(nat, nat), seq<Act>>,  // obj_wr_thrd_map
    scFences: seq<Act>,                 // the seq_cst fences of obj_map[FENCE_LOCATION]
    lastSc: map<nat, Act>,              // obj_last_sc_map
    graph: Graph)

  /** The action being processed: identity, order and current clock. */
  datatype Cur = Cur(act: Act, order: Order, cv: Clock)

  const FENCE_LOCATION := 0

  /** Ids 0 and 1 are the model thread and the initial thread. */
  function Init(): State {
    State(map[], 0, 2, map[], map[], map[], map[], map[], map[], [], map[], map[])
  }

  function At(lists: map<(nat, nat), seq<Act>>, loc: nat, t: nat): seq<Act> {
    if (loc, t) in lists then lists[(loc, t)] else []
  }

  function CvOf(m: Infos, a: Act): Clock {
    if a in m then m[a].cv else []
  }

  function MapGet<V>(m: map<nat, V>, k: nat): Option<V> {
    if k in m then Some(m[k]) else None
  }

  /** `get_parent_action`: the last action of the thread, or else the one that created it. */
  function ParentCv(s: State, tid: nat): Clock {
    if tid in s.last then CvOf(s.info, s.last[tid])
    else if tid in s.creation then CvOf(s.info, s.creation[tid])
    else []
  }

  /** `initialize_curr_action`: the next sequence number and a clock inherited from the parent. */
  function Begin(s: State, tid: nat, loc: nat, order: Order): Cur {
    Cur(Act(tid, s.used + 1, loc), order, Stamp(ParentCv(s, tid), tid, s.used + 1))
  }

  // ----- sequentially consistent fences -----

  /** `get_last_seq_cst_fence` without a bound. */
  function LastFence(fs: seq<Act>, tid: nat): Option<Act> {
    if fs == [] then None
    else if fs[|fs| - 1].tid == tid then Some(fs[|fs| - 1])
    else LastFence(fs[..|fs| - 1], tid)
  }

  /** The fences that precede the most recent occurrence of `f`. */
  function FencesBefore(fs: seq<Act>, f: Act): seq<Act> {
    if fs == [] then []
    else if fs[|fs| - 1] == f then fs[..|fs| - 1]
    else FencesBefore(fs[..|fs| - 1], f)
  }

  function LocalFence(s: State, c: Cur): Option<Act> {
    LastFence(s.scFences, c.act.tid)
  }

  /** The last fence of thread `t` before the current thread's own last fence. */
  function FenceBeforeLocal(s: State, c: Cur, t: nat): Option<Act> {
    match LocalFence(s, c)
    case None => None
    case Some(f) => LastFence(FencesBefore(s.scFences, f), t)
  }

  predicate Before(a: Act, f: Option<Act>) {
    f.Some? && a.seqno < f.value.seqno
  }

  predicate SeqCstAct(m: Infos, a: Act) {
    a in m && m[a].order.SeqCst?
  }

  predicate HbCur(c: Cur, a: Act) {
    Since(c.cv, a.tid, a.seqno)
  }

  // ----- which action of each thread a read looks at -----

  /** The fence rules (statements 4 to 6 of section 29.3) that make a write of thread `t` count. */
  predicate ScStopsRead(s: State, c: Cur, t: nat, a: Act) {
    && IsWrite(s.info, a)
    && (|| (c.order.SeqCst? && t != c.act.tid && Before(a, LastFence(s.scFences, t)))
        || (SeqCstAct(s.info, a) && Before(a, LocalFence(s, c)))
        || Before(a, FenceBeforeLocal(s, c, t)))
  }

  predicate StopsRead(s: State, c: Cur, rf: Act, t: nat, a: Act) {
    if a == rf then HbCur(c, a) else ScStopsRead(s, c, t, a) || HbCur(c, a)
  }

  /** The most recent action of the list at which the scan of thread `t` stops. */
  function ReadStop(s: State, c: Cur, rf: Act, t: nat, l: seq<Act>): Option<Act> {
    if l == [] then None
    else if StopsRead(s, c, rf, t, l[|l| - 1]) then Some(l[|l| - 1])
    else ReadStop(s, c, rf, t, l[..|l| - 1])
  }

  /** `prev_same_thread`: the current thread's own stop, when it lets other threads be skipped. */
  function PrevSame(s: State, c: Cur, rf: Act): Option<Act> {
    match ReadStop(s, c, rf, c.act.tid, At(s.lists, c.act.loc, c.act.tid))
    case None => None
    case Some(x) =>
      if x != rf && !ScStopsRead(s, c, c.act.tid, x) && (LocalFence(s, c).None? || LocalFence(s, c).value.seqno < x.seqno)
      then Some(x) else None
  }

  /** Thread `t` is not scanned: nothing it did has been synchronized with since the thread's last access. */
  predicate SkipsRead(s: State, c: Cur, rf: Act, t: nat) {
    && t != c.act.tid && PrevSame(s, c, rf).Some?
    && Get(CvOf(s.info, PrevSame(s, c, rf).value), t) == Get(c.cv, t)
    && (LastFence(s.scFences, t).None? || LastFence(s.scFences, t).value.seqno < PrevSame(s, c, rf).value.seqno)
  }

  function WriterOf(m: Infos, a: Act): Act {
    if a in m then Writer(m, a) else a
  }

  /** The write of thread `t`'s stop, if thread `t` is scanned and has one. */
  function ReadTarget(s: State, c: Cur, rf: Act, t: nat): Option<Act> {
    if SkipsRead(s, c, rf, t) then None
    else match ReadStop(s, c, rf, t, At(s.lists, c.act.loc, t))
      case None => None
      case Some(x) => Some(WriterOf(s.info, x))
  }

  /** The write of thread `t`'s stop is not already ordered after `rf`. */
  ghost predicate Passes(s: State, c: Cur, rf: Act, t: nat) {
    var target := ReadTarget(s, c, rf, t);
    target.Some? && target.value != rf ==> !Test(s.graph, rf, target.value)
  }

  /** `r_modification_order` returns true. */
  ghost predicate ReadAccepts(s: State, c: Cur, rf: Act) {
    forall t :: 0 <= t < s.threads ==> Passes(s, c, rf, t)
  }

  /** Threads are visited cyclically, starting from the current one. */
  function Visit(s: State, c: Cur, k: nat): nat
    requires s.threads > 0
  {
    if c.act.tid + k < s.threads then c.act.tid + k else c.act.tid + k - s.threads
  }

  /** The priorset after visiting `k` threads. */
  function Priors(s: State, c: Cur, rf: Act, k: nat): seq<Act>
    requires s.threads > 0
  {
    if k == 0 then []
    else match ReadTarget(s, c, rf, Visit(s, c, k - 1))
      case None => Priors(s, c, rf, k - 1)
      case Some(p) => Priors(s, c, rf, k - 1) + if p == rf then [] else [p]
  }

  /** The read repeats what the thread's last access to the location read. */
  predicate CanPrune(s: State, c: Cur, rf: Act) {
    match ReadStop(s, c, rf, c.act.tid, At(s.lists, c.act.loc, c.act.tid))
    case None => false
    case Some(x) => x != rf && x in s.info && !s.info[x].IsWrite() && s.info[x].rf == Some(rf)
  }

  // ----- which action of each thread a write looks at -----

  predicate StopsWrite(s: State, c: Cur, t: nat, a: Act) {
    || (t != c.act.tid && IsWrite(s.info, a) && Before(a, FenceBeforeLocal(s, c, t)))
    || HbCur(c, a)
  }

  function WriteStop(s: State, c: Cur, t: nat, l: seq<Act>): Option<Act> {
    if l == [] then None
    else if StopsWrite(s, c, t, l[|l| - 1]) then Some(l[|l| - 1])
    else WriteStop(s, c, t, l[..|l| - 1])
  }

  /** An RMW already has every edge its own thread could give. */
  function WriteTarget(s: State, c: Cur, rmw: bool, t: nat): Option<Act> {
    if rmw && t == c.act.tid then None
    else match WriteStop(s, c, t, At(s.lists, c.act.loc, t))
      case None => None
      case Some(x) => Some(WriterOf(s.info, x))
  }

  /** The edge set after looking at threads 0 to `k` - 1. */
  function EdgeSet(s: State, c: Cur, rmw: bool, k: nat): seq<Act> {
    if k == 0 then
      if c.order.SeqCst? && c.act.loc in s.lastSc then [s.lastSc[c.act.loc]] else []
    else match WriteTarget(s, c, rmw, k - 1)
      case None => EdgeSet(s, c, rmw, k - 1)
      case Some(p) => EdgeSet(s, c, rmw, k - 1) + [p]
  }

  // ----- candidates for a read -----

  /** The sizes of atomic variables, in bytes. */
  type Width = n: nat | n == 1 || n == 2 || n == 4 || n == 8 witness 1

  /** What the reading action will do with the value: a load, a fetch-and-op, or a compare-and-swap. */
  datatype Purpose = PlainRead | FetchOp | CompareSwap(expected: nat, size: Width)

  /** `valequals`: equality of the low `size` bytes, of which a stored value has 8. */
  predicate ValEquals(a: nat, b: nat, size: Width) {
    match size
    case 1 => a % 0x100 == b % 0x100
    case 2 => a % 0x1_0000 == b % 0x1_0000
    case 4 => a % 0x1_0000_0000 == b % 0x1_0000_0000
    case _ => a % 0x1_0000_0000_0000_0000 == b % 0x1_0000_0000_0000_0000
  }

  /** The read will be followed by a write if it reads from `w`. */
  predicate WouldSucceed(m: Infos, w: Act, p: Purpose) {
    match p
    case PlainRead => false
    case FetchOp => true
    case CompareSwap(e, size) => w in m && ValEquals(e, m[w].value, size)
  }

  predicate HasRmw(g: Graph, w: Act) {
    w in g && g[w].rmw.Some?
  }

  predicate AllowsRead(s: State, c: Cur, p: Purpose, w: Act) {
    && !(c.order.SeqCst? && !(c.act.loc in s.lastSc && s.lastSc[c.act.loc] == w) &&
         (SeqCstAct(s.info, w) ||
          (c.act.loc in s.lastSc && Since(CvOf(s.info, s.lastSc[c.act.loc]), w.tid, w.seqno))))
    && !(WouldSucceed(s.info, w, p) && HasRmw(s.graph, w))
  }

  /**
   The candidates of one thread's write list, most recent first: up to the first write that
   happens before the read, and at most `history` of them when `history` is positive.
   */
  function Candidates(s: State, c: Cur, p: Purpose, l: seq<Act>, history: int): seq<Act>
    decreases |l|
  {
    if l == [] then []
    else
      var w, rest := l[|l| - 1], l[..|l| - 1];
      if AllowsRead(s, c, p, w) then
        [w] + if history == 1 || HbCur(c, w) then [] else Candidates(s, c, p, rest, history - 1)
      else if HbCur(c, w) then []
      else Candidates(s, c, p, rest, history)
  }

  /** `build_may_read_from`. */
  function MayReadFrom(s: State, c: Cur, p: Purpose, history: int, k: nat): seq<Act> {
    if k == 0 then []
    else MayReadFrom(s, c, p, history, k - 1) + Candidates(s, c, p, At(s.wlists, c.act.loc, k - 1), history)
  }

  /** The last write of any thread is a candidate if the read may read it at all. */
  lemma {:induction false} LastCandidate(s: State, c: Cur, p: Purpose, history: int, t: nat, k: nat)
    requires t < k && At(s.wlists, c.act.loc, t) != []
    ensures var l := At(s.wlists, c.act.loc, t);
            AllowsRead(s, c, p, l[|l| - 1]) ==> l[|l| - 1] in MayReadFrom(s, c, p, history, k)
  {
    hide AllowsRead;
    if t < k - 1 {
      LastCandidate(s, c, p, history, t, k - 1);
    }
  }

  // ----- steps -----

  function Append(lists: map<(nat, nat), seq<Act>>, a: Act): map<(nat, nat), seq<Act>> {
    lists[(a.loc, a.tid) := At(lists, a.loc, a.tid) + [a]]
  }

  /** `add_action_to_lists` and `add_write_to_lists`. */
  function Commit(s: State, a: Act, i: Info, pruned: bool): State {
    s.(info := s.info[a := i],
       used := a.seqno,
       last := s.last[a.tid := a],
       relFence := if i.kind.Fence? && i.order.IsRelease() then s.relFence[a.tid := a] else s.relFence,
       lists := if i.IsMem() && !pruned then Append(s.lists, a) else s.lists,
       wlists := if i.IsWrite() then Append(s.wlists, a) else s.wlists,
       scFences := if i.kind.Fence? && i.order.SeqCst? then s.scFences + [a] else s.scFences)
  }

  ghost predicate SameClock(a: Clock, b: Clock) {
    Leq(a, b) && Leq(b, a)
  }

  /** The clock of a read once `read_from` has merged what the release sequence of `rf` carries. */
  ghost predicate ReadClock(s: State, c: Cur, rf: Act, cv: Clock) {
    SameClock(cv, if c.order.IsAcquire() then Join(c.cv, RelClock(s.info, rf)) else c.cv)
  }

  /** Every read adds to the clock that the thread's next acquire fence will merge. */
  ghost predicate AcqUpdated(s: State, tid: nat, rf: Act, acq: map<nat, Clock>) {
    exists v :: acq == s.acqCv[tid := v] && SameClock(v, Join(AcqOf(s, tid), RelClock(s.info, rf)))
  }

  function AcqOf(s: State, tid: nat): Clock {
    if tid in s.acqCv then s.acqCv[tid] else []
  }

  /** The common part of all reads: `rf` is a candidate, passes the check, and gets the prior edges. */
  ghost predicate ReadPart(s: State, c: Cur, p: Purpose, rf: Act, history: int, g: Graph) {
    && c.act.tid < s.threads
    && rf in MayReadFrom(s, c, p, history, s.threads)
    && ReadAccepts(s, c, rf)
    && AddedAll(s.graph, Priors(s, c, rf, s.threads), rf, false, g)
  }

  /** The check rejects every candidate. */
  ghost predicate Stuck(s: State, c: Cur, p: Purpose, history: int) {
    forall w :: w in MayReadFrom(s, c, p, history, s.threads) ==> !ReadAccepts(s, c, w)
  }

  ghost predicate LoadStep(s: State, tid: nat, loc: nat, order: Order, rf: Act, history: int, budget: bool, t: State) {
    var c := Begin(s, tid, loc, order);
    exists g, cv, acq ::
      && ReadPart(s, c, PlainRead, rf, history, g)
      && ReadClock(s, c, rf, cv) && AcqUpdated(s, tid, rf, acq)
      && t == Commit(s, c.act, Info(Read, order, 0, Some(rf), cv, MapGet(s.relFence, tid)), budget && CanPrune(s, c, rf))
                .(graph := g, acqCv := acq)
  }

  ghost predicate StoreStep(s: State, tid: nat, loc: nat, order: Order, value: nat, t: State) {
    var c := Begin(s, tid, loc, order);
    exists g ::
      && AddedPruned(s.graph, EdgeSet(s, c, false, s.threads), c.act, g)
      && t == Commit(s, c.act, Info(Write, order, value, None, c.cv, MapGet(s.relFence, tid)), false)
                .(graph := g, lastSc := if order.SeqCst? then s.lastSc[loc := c.act] else s.lastSc)
  }

  /** An RMW up to the splice: its read part, and its place right after the write it read. */
  ghost predicate RmwSpliced(s: State, c: Cur, p: Purpose, rf: Act, history: int, i: Info, g1: Graph, g2: Graph) {
    && WouldSucceed(s.info, rf, p) && ReadPart(s, c, p, rf, history, g1)
    && i == Info(Rmw, c.order, i.value, Some(rf), i.cv, MapGet(s.relFence, c.act.tid))
    && ReadClock(s, c, rf, i.cv)
    && AddedRmw(WithNode(WithNode(g1, rf), c.act), rf, c.act, g2)
  }

  /** An RMW whose write happens: read part, splice right after `rf`, then the write part. */
  ghost predicate RmwStepVia(s: State, c: Cur, p: Purpose, rf: Act, history: int, i: Info, g1: Graph, g2: Graph, t: State) {
    && RmwSpliced(s, c, p, rf, history, i, g1, g2) && AcqUpdated(s, c.act.tid, rf, t.acqCv)
    && AddedPruned(g2, EdgeSet(s, c.(cv := i.cv), true, s.threads), c.act, t.graph)
    && t == Commit(s, c.act, i, false)
              .(graph := t.graph, acqCv := t.acqCv,
                lastSc := if c.order.SeqCst? then s.lastSc[c.act.loc := c.act] else s.lastSc)
  }

  ghost predicate RmwStep(s: State, tid: nat, loc: nat, order: Order, p: Purpose, rf: Act, history: int, value: nat, t: State) {
    exists i: Info, g1, g2 :: i.value == value && RmwStepVia(s, Begin(s, tid, loc, order), p, rf, history, i, g1, g2, t)
  }

  /** A compare-and-swap that read another value: recorded as a read that is never pruned. */
  ghost predicate FailedSwapStep(s: State, tid: nat, loc: nat, order: Order, p: Purpose, rf: Act, history: int, t: State) {
    var c := Begin(s, tid, loc, order);
    exists g, cv, acq ::
      && p.CompareSwap? && !WouldSucceed(s.info, rf, p) && ReadPart(s, c, p, rf, history, g)
      && ReadClock(s, c, rf, cv) && AcqUpdated(s, tid, rf, acq)
      && t == Commit(s, c.act, Info(Read, order, p.expected, Some(rf), cv, MapGet(s.relFence, tid)), false)
                .(graph := g, acqCv := acq)
  }

  /** A fence: an acquire fence merges everything the thread's reads have seen released. */
  ghost predicate FenceStep(s: State, tid: nat, order: Order, t: State) {
    var c := Begin(s, tid, FENCE_LOCATION, order);
    exists cv ::
      && SameClock(cv, if order.IsAcquire() then Join(c.cv, AcqOf(s, tid)) else c.cv)
      && t == Commit(s, c.act, Info(Kind.Fence, order, 0, None, cv, MapGet(s.relFence, tid)), false)
  }

  /** A join or lock: the clock of the action it synchronizes with, if any, is merged. */
  ghost predicate SyncStep(s: State, tid: nat, loc: nat, first: Option<Act>, t: State) {
    var c := Begin(s, tid, loc, SeqCst);
    exists cv ::
      && (first.Some? ==> first.value in s.info)
      && SameClock(cv, if first.Some? then Join(c.cv, CvOf(s.info, first.value)) else c.cv)
      && t == Commit(s, c.act, Info(Other, SeqCst, 0, None, cv, MapGet(s.relFence, tid)), false)
  }

  /** Thread creation: the new thread's clock starts from the creating action. */
  ghost predicate SpawnStep(s: State, tid: nat, loc: nat, t: State) {
    var c := Begin(s, tid, loc, SeqCst);
    && t == Commit(s, c.act, Info(Other, SeqCst, 0, None, c.cv, MapGet(s.relFence, tid)), false)
              .(threads := s.threads + 1, creation := s.creation[s.threads := c.act])
  }

  datatype Label =
    | Load(tid: nat, loc: nat, order: Order, rf: Act, history: int, budget: bool)
    | Store(tid: nat, loc: nat, order: Order, value: nat)
    | Update(tid: nat, loc: nat, order: Order, purpose: Purpose, rf: Act, history: int, value: nat)
    | FailedSwap(tid: nat, loc: nat, order: Order, purpose: Purpose, rf: Act, history: int)
    | FenceOp(tid: nat, order: Order)
    | Sync(tid: nat, loc: nat, first: Option<Act>)
    | Spawn(tid: nat, loc: nat)
    | Defer(tid: nat)  // a change point put the action back; its sequence number is lost

  ghost predicate Step(s: State, l: Label, t: State) {
    l.tid < s.threads &&
    match l
    case Load(tid, loc, order, rf, history, budget) => LoadStep(s, tid, loc, order, rf, history, budget, t)
    case Store(tid, loc, order, value) => StoreStep(s, tid, loc, order, value, t)
    case Update(tid, loc, order, p, rf, history, value) => RmwStep(s, tid, loc, order, p, rf, history, value, t)
    case FailedSwap(tid, loc, order, p, rf, history) => FailedSwapStep(s, tid, loc, order, p, rf, history, t)
    case FenceOp(tid, order) => FenceStep(s, tid, order, t)
    case Sync(tid, loc, first) => SyncStep(s, tid, loc, first, t)
    case Spawn(tid, loc) => SpawnStep(s, tid, loc, t)
    case Defer(_) => t == s.(used := s.used + 1)
  }

  /** A run: states `ss` linked by the steps `ls`, from the initial state. */
  ghost predicate IsRun(ss: seq<State>, ls: seq<Label>) {
    && |ss| == |ls| + 1 && ss[0] == Init()
    && forall i :: 0 <= i < |ls| ==> Step(ss[i], ls[i], ss[i + 1])
  }
}
