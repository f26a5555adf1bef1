/**
 Which thread waits for which: pending joins and locks, and the check for a deadlock at each
 thread switch.
 */
module WaitGraph {
  import opened Options

  /** What a thread has announced it will do next. `Other` stands for everything that cannot block. */
  datatype Pending = Join(target: nat) | Lock(mutex: nat) | TryLock(mutex: nat) | Unlock(mutex: nat) | Finish | Other

  /** `pending` and `owner` have no entry where the source has NULL. */
  datatype Threads = Threads(pending: map<nat, Pending>, owner: map<nat, nat>, done: set<nat>, count: nat)

  /** `Thread::waiting_on`. */
  function WaitingOn(s: Threads, t: nat): Option<nat> {
    if t !in s.pending then None
    else match s.pending[t]
      case Join(u) => Some(u)
      case Lock(m) => if m in s.owner then Some(s.owner[m]) else None
      case _ => None
  }

  /** Following the chain of waiting threads `n` times. */
  function After(s: Threads, t: nat, n: nat): Option<nat>
    decreases n
  {
    if n == 0 then Some(t)
    else match WaitingOn(s, t)
      case None => None
      case Some(u) => After(s, u, n - 1)
  }

  /** `t` waits for `u`, directly or through others. */
  ghost predicate Waits(s: Threads, t: nat, u: nat) {
    exists n {:trigger After(s, t, n)} :: n > 0 && After(s, t, n) == Some(u)
  }

  ghost predicate Acyclic(s: Threads) {
    forall t: nat :: !Waits(s, t, t)
  }

  /** Whoever is on a cycle waits for `x`. */
  ghost predicate CyclesThrough(s: Threads, x: nat) {
    forall u: nat :: Waits(s, u, u) ==> Waits(s, u, x)
  }

  /** Only known threads are waited for. */
  ghost predicate Inside(s: Threads) {
    && (forall t :: t in s.pending ==> t < s.count && (s.pending[t].Join? ==> s.pending[t].target < s.count))
    && (forall m :: m in s.owner ==> s.owner[m] < s.count)
  }

  lemma {:induction false} AfterSum(s: Threads, t: nat, m: nat, n: nat)
    requires After(s, t, m).Some?
    ensures After(s, t, m + n) == After(s, After(s, t, m).value, n)
    decreases m
  {
    if m > 0 {
      AfterSum(s, WaitingOn(s, t).value, m - 1, n);
    }
  }

  lemma {:induction false} AfterPrefix(s: Threads, t: nat, m: nat, n: nat)
    requires m <= n && After(s, t, n).Some?
    ensures After(s, t, m).Some?
    decreases m
  {
    if m > 0 {
      AfterPrefix(s, WaitingOn(s, t).value, m - 1, n - 1);
    }
  }

  /** Chains agree as long as they avoid the thread whose wait changed. */
  lemma {:induction false} SameChain(s: Threads, s': Threads, x: nat, t: nat, n: nat)
    requires forall u :: u != x ==> WaitingOn(s', u) == WaitingOn(s, u)
    requires forall m :: 0 <= m < n ==> After(s', t, m) != Some(x)
    ensures After(s, t, n) == After(s', t, n)
    decreases n
  {
    if n > 0 {
      assert After(s', t, 0) == Some(t);
      var w := WaitingOn(s', t);
      if w.Some? {
        forall m | 0 <= m < n - 1 ensures After(s', w.value, m) != Some(x) {
          assert After(s', t, m + 1) == After(s', w.value, m);
        }
        SameChain(s, s', x, w.value, n - 1);
      }
    }
  }

  /** If only the wait of `x` changed, a cycle there is now goes through `x`. */
  lemma CycleThrough(s: Threads, s': Threads, x: nat, t: nat)
    requires Acyclic(s) && (forall u :: u != x ==> WaitingOn(s', u) == WaitingOn(s, u)) && Waits(s', t, t)
    ensures Waits(s', x, x) && Waits(s', t, x)
  {
    var n: nat :| n > 0 && After(s', t, n) == Some(t);
    if forall m :: 0 <= m < n ==> After(s', t, m) != Some(x) {
      assert After(s, t, n) == Some(t) ==> Waits(s, t, t);
      SameChain(s, s', x, t, n);
      assert false;
    }
    var m :| 0 <= m < n && After(s', t, m) == Some(x);
    AfterSum(s', t, m, n - m);
    AfterSum(s', t, n, m);
    AfterSum(s', x, n - m, m);
    assert After(s', x, n) == Some(x);
    assert m == 0 ==> After(s', t, n) == Some(x);
  }

  /** Fewer waits cannot close a cycle. */
  lemma {:induction false} FewerChain(s: Threads, s': Threads, t: nat, n: nat)
    requires forall u :: WaitingOn(s', u).Some? ==> WaitingOn(s', u) == WaitingOn(s, u)
    requires After(s', t, n).Some?
    ensures After(s, t, n) == After(s', t, n)
    decreases n
  {
    if n > 0 {
      FewerChain(s, s', WaitingOn(s', t).value, n - 1);
    }
  }

  lemma FewerAcyclic(s: Threads, s': Threads)
    requires Acyclic(s) && forall u :: WaitingOn(s', u).Some? ==> WaitingOn(s', u) == WaitingOn(s, u)
    ensures Acyclic(s')
  {
    forall t: nat ensures !Waits(s', t, t) {
      if Waits(s', t, t) {
        var n: nat :| n > 0 && After(s', t, n) == Some(t);
        FewerChain(s, s', t, n);
        assert Waits(s, t, t);
      }
    }
  }

  /** A chain that meets a thread that waits for nobody stops there. */
  lemma {:induction false} IntoFree(s: Threads, s': Threads, x: nat, t: nat, n: nat)
    requires WaitingOn(s', x).None? && n > 0
    requires forall u :: WaitingOn(s', u) == WaitingOn(s, u) || WaitingOn(s', u) == Some(x)
    ensures After(s', t, n) in {None, Some(x), After(s, t, n)}
    decreases n
  {
    var wait := WaitingOn(s', t);
    if wait.Some? && n > 1 {
      IntoFree(s, s', x, wait.value, n - 1);
      assert wait.value == x ==> After(s', t, n) == None;
    }
  }

  /** New waits for a thread that waits for nobody cannot close a cycle. */
  lemma IntoFreeAcyclic(s: Threads, s': Threads, x: nat)
    requires Acyclic(s) && WaitingOn(s', x).None?
    requires forall u :: WaitingOn(s', u) == WaitingOn(s, u) || WaitingOn(s', u) == Some(x)
    ensures Acyclic(s')
  {
    forall t: nat, n: nat | n > 0 ensures After(s', t, n) != Some(t) {
      IntoFree(s, s', x, t, n);
      assert After(s, t, n) == Some(t) ==> Waits(s, t, t);
    }
  }

  // ----- steps -----

  datatype Step = Switch(t: nat, op: Pending) | Take(t: nat) | Spawn | Defer(t: nat)

  /** `check_action_enabled`, for mutexes that are not recursive. */
  predicate Enabled(s: Threads, op: Pending) {
    match op
    case Lock(m) => m !in s.owner
    case Join(u) => u in s.done
    case _ => true
  }

  /** `switch_thread` stashes the thread's next action. */
  function Stashed(s: Threads, t: nat, op: Pending): Threads {
    s.(pending := s.pending[t := op])
  }

  /** `take_step` on the pending action of `t`: the cases of `process_mutex` and of a finishing thread. */
  function Taken(s: Threads, t: nat): Threads
    requires t in s.pending
  {
    var s' := s.(pending := s.pending - {t});
    match s.pending[t]
    case Lock(m) => s'.(owner := s.owner[m := t])
    case TryLock(m) => if m in s.owner then s' else s'.(owner := s.owner[m := t])
    case Unlock(m) => s'.(owner := s.owner - {m})
    case Finish => s'.(done := s.done + {t})
    case _ => s'
  }

  ghost predicate CanStep(s: Threads, l: Step) {
    match l
    case Switch(t, op) => t < s.count && t !in s.pending && t !in s.done && (op.Join? ==> op.target < s.count)
    case Take(t) => t in s.pending && Enabled(s, s.pending[t])
    case Spawn => true
    case Defer(t) => t in s.pending && Enabled(s, s.pending[t])
  }

  function Next(s: Threads, l: Step): Threads {
    match l
    case Switch(t, op) => Stashed(s, t, op)
    case Take(t) => if t in s.pending then Taken(s, t) else s
    case Spawn => s.(count := s.count + 1)
    case Defer(_) => s  // a change point put the action back
  }

  /** A deadlock is reported at a switch that leaves the thread waiting for itself. */
  ghost predicate Reports(s: Threads, l: Step) {
    l.Switch? && Waits(Next(s, l), l.t, l.t)
  }

  ghost predicate WaitInv(s: Threads) {
    Acyclic(s) && Inside(s)
  }

  lemma TakenAcyclic(s: Threads, t: nat)
    requires WaitInv(s) && t in s.pending && Enabled(s, s.pending[t])
    ensures WaitInv(Taken(s, t))
  {
    var s' := Taken(s, t);
    if s.pending[t].Lock? || (s.pending[t].TryLock? && s.pending[t].mutex !in s.owner) {
      IntoFreeAcyclic(s.(pending := s.pending - {t}), s', t) by {
        FewerAcyclic(s, s.(pending := s.pending - {t}));
      }
    } else {
      FewerAcyclic(s, s');
    }
  }

  /** Each step keeps the wait-for graph acyclic, unless it is the switch that reports the deadlock. */
  lemma StepKeeps(s: Threads, l: Step)
    requires WaitInv(s) && CanStep(s, l)
    ensures Reports(s, l) || WaitInv(Next(s, l))
    ensures Reports(s, l) <==> !Acyclic(Next(s, l))
    ensures l.Switch? ==> Inside(Next(s, l)) && CyclesThrough(Next(s, l), l.t)
  {
    match l
    case Switch(t, op) =>
      var s' := Next(s, l);
      forall u: nat | Waits(s', u, u) ensures Waits(s', u, t) && Waits(s', t, t) {
        CycleThrough(s, s', t, u);
      }
    case Take(t) => TakenAcyclic(s, t);
    case Spawn => FewerAcyclic(s, Next(s, l));
    case Defer(_) =>
  }

  ghost predicate IsRun(ss: seq<Threads>, ls: seq<Step>) {
    && |ss| == |ls| + 1 && ss[0] == Threads(map[], map[], {}, 2)
    && forall i :: 0 <= i < |ls| ==> CanStep(ss[i], ls[i]) && ss[i + 1] == Next(ss[i], ls[i])
  }

  /**
   In every run the wait-for graph is acyclic as long as no deadlock has been reported, and
   the switch that closes a cycle reports it.
   */
  lemma {:induction false} RunAcyclic(ss: seq<Threads>, ls: seq<Step>, i: nat)
    requires IsRun(ss, ls) && i < |ss|
    requires forall j :: 0 <= j < i ==> !Reports(ss[j], ls[j])
    ensures WaitInv(ss[i])
    ensures i < |ls| ==> (Reports(ss[i], ls[i]) <==> !Acyclic(ss[i + 1]))
  {
    if i == 0 {
      forall t: nat ensures !Waits(ss[0], t, t) {
        forall n: nat | n > 0 ensures After(ss[0], t, n) == None {
        }
      }
    } else {
      RunAcyclic(ss, ls, i - 1);
      StepKeeps(ss[i - 1], ls[i - 1]);
    }
    if i < |ls| {
      StepKeeps(ss[i], ls[i]);
    }
  }

  // ----- where the state comes from -----

  /** Step `l` gives mutex `m` to thread `t`. */
  predicate Grants(s: Threads, l: Step, m: nat, t: nat) {
    l == Take(t) && t in s.pending && (s.pending[t] == Lock(m) || (s.pending[t] == TryLock(m) && m !in s.owner))
  }

  /** Step `l` unlocks mutex `m`. */
  predicate Unlocks(s: Threads, l: Step, m: nat) {
    l.Take? && l.t in s.pending && s.pending[l.t] == Unlock(m)
  }

  ghost predicate GrantedAt(ss: seq<Threads>, ls: seq<Step>, i: nat, m: nat, t: nat, j: nat)
    requires i <= |ls| <= |ss|
  {
    j < i && Grants(ss[j], ls[j], m, t) && forall k :: j < k < i ==> !Unlocks(ss[k], ls[k], m)
  }

  ghost predicate PendingSince(ls: seq<Step>, i: nat, t: nat, op: Pending, j: nat)
    requires i <= |ls|
  {
    j < i && ls[j] == Switch(t, op) && forall k :: j < k < i ==> ls[k] != Take(t)
  }

  /** A thread owns a mutex exactly when it was the last to get it and nobody unlocked it since. */
  lemma {:induction false} RunOwner(ss: seq<Threads>, ls: seq<Step>, i: nat, m: nat, t: nat)
    requires IsRun(ss, ls) && i < |ss|
    ensures m in ss[i].owner && ss[i].owner[m] == t <==> exists j :: GrantedAt(ss, ls, i, m, t, j)
  {
    if i > 0 {
      var s, l := ss[i - 1], ls[i - 1];
      assert CanStep(s, l) && ss[i] == Next(s, l);
      RunOwner(ss, ls, i - 1, m, t);
      if Grants(s, l, m, t) {
        assert GrantedAt(ss, ls, i, m, t, i - 1);
      } else {
        if j :| GrantedAt(ss, ls, i, m, t, j) {
          assert !Unlocks(s, l, m) && GrantedAt(ss, ls, i - 1, m, t, j);
        }
        if m in ss[i].owner && ss[i].owner[m] == t {
          assert !Unlocks(s, l, m) && m in s.owner && s.owner[m] == t;
          var j :| GrantedAt(ss, ls, i - 1, m, t, j);
          assert GrantedAt(ss, ls, i, m, t, j);
        }
      }
    }
  }

  /** An operation is pending exactly from the switch that announced it until it is taken. */
  lemma {:induction false} RunPending(ss: seq<Threads>, ls: seq<Step>, i: nat, t: nat, op: Pending)
    requires IsRun(ss, ls) && i < |ss|
    ensures t in ss[i].pending && ss[i].pending[t] == op <==> exists j :: PendingSince(ls, i, t, op, j)
  {
    if i > 0 {
      var s, l := ss[i - 1], ls[i - 1];
      assert CanStep(s, l) && ss[i] == Next(s, l);
      RunPending(ss, ls, i - 1, t, op);
      if l == Switch(t, op) {
        assert PendingSince(ls, i, t, op, i - 1);
      } else {
        if j :| PendingSince(ls, i, t, op, j) {
          assert l != Take(t) && PendingSince(ls, i - 1, t, op, j);
        }
        if t in ss[i].pending && ss[i].pending[t] == op {
          assert l != Take(t) && t in s.pending && s.pending[t] == op;
          var j :| PendingSince(ls, i - 1, t, op, j);
          assert PendingSince(ls, i, t, op, j);
        }
      }
    }
  }

  /** A thread is done exactly when it took its finishing operation. */
  lemma {:induction false} RunDone(ss: seq<Threads>, ls: seq<Step>, i: nat, t: nat)
    requires IsRun(ss, ls) && i < |ss|
    ensures t in ss[i].done <==> exists j :: 0 <= j < i && ls[j] == Take(t) && t in ss[j].pending && ss[j].pending[t].Finish?
  {
    if i > 0 {
      RunDone(ss, ls, i - 1, t);
    }
  }

  // ----- walking the chain -----

  /** The threads met after 1 to `n` waits. */
  function Met(s: Threads, t: nat, n: nat): set<nat> {
    if n == 0 then {} else Met(s, t, n - 1) + if After(s, t, n).Some? then {After(s, t, n).value} else {}
  }

  lemma {:induction false} MetIs(s: Threads, t: nat, n: nat, u: nat) returns (m: nat)
    requires u in Met(s, t, n)
    ensures 0 < m <= n && After(s, t, m) == Some(u)
  {
    if After(s, t, n) == Some(u) {
      m := n;
    } else {
      m := MetIs(s, t, n - 1, u);
    }
  }

  lemma {:induction false} MetInside(s: Threads, t: nat, n: nat)
    requires Inside(s)
    ensures forall u :: u in Met(s, t, n) ==> u < s.count
  {
    if n > 0 {
      MetInside(s, t, n - 1);
      if After(s, t, n).Some? {
        AfterPrefix(s, t, n - 1, n);
        AfterSum(s, t, n - 1, 1);
        assert After(s, After(s, t, n - 1).value, 1) == WaitingOn(s, After(s, t, n - 1).value);
      }
    }
  }

  lemma {:induction false} BoundedSize(a: set<nat>, n: nat)
    requires forall u :: u in a ==> u < n
    ensures |a| <= n
  {
    if n > 0 {
      BoundedSize(a - {n - 1}, n - 1);
      assert a <= (a - {n - 1}) + {n - 1};
    } else {
      assert a == {};
    }
  }

  /** Going round a cycle meets only what is on it. */
  lemma {:induction false} CycleStays(s: Threads, u: nat, p: nat, x: nat, k: nat)
    requires p > 0 && After(s, u, p) == Some(u) && forall j :: 0 <= j < p ==> After(s, u, j) != Some(x)
    ensures After(s, u, k) != Some(x)
    decreases k
  {
    if k >= p {
      AfterSum(s, u, p, k - p);
      CycleStays(s, u, p, x, k - p);
    }
  }

  /** A chain that has not met `x` meets a new thread each time. */
  lemma MeetsNew(s: Threads, t: nat, x: nat, n: nat)
    requires CyclesThrough(s, x) && n > 0 && After(s, t, n).Some?
    requires forall m :: 0 < m <= n ==> After(s, t, m) != Some(x)
    ensures After(s, t, n).value !in Met(s, t, n - 1)
  {
    var u := After(s, t, n).value;
    if u in Met(s, t, n - 1) {
      var m := MetIs(s, t, n - 1, u);
      AfterSum(s, t, m, n - m);
      assert Waits(s, u, u);
      var k: nat :| k > 0 && After(s, u, k) == Some(x);
      forall j | 0 <= j < n - m ensures After(s, u, j) != Some(x) {
        AfterSum(s, t, m, j);
        assert After(s, t, m + j) != Some(x);
      }
      CycleStays(s, u, n - m, x, k);
    }
  }

  lemma MetGrows(s: Threads, t: nat, x: nat, n: nat)
    requires CyclesThrough(s, x) && Inside(s) && n > 0 && After(s, t, n).Some?
    requires forall m :: 0 < m <= n ==> After(s, t, m) != Some(x)
    ensures |Met(s, t, n)| == |Met(s, t, n - 1)| + 1 <= s.count
  {
    MeetsNew(s, t, x, n);
    MetInside(s, t, n);
    BoundedSize(Met(s, t, n), s.count);
  }

  lemma NoneMet(s: Threads, t: nat)
    ensures |Met(s, t, 0)| == 0
  {
  }

  lemma AfterNext(s: Threads, t: nat, n: nat)
    requires After(s, t, n).Some?
    ensures After(s, t, n + 1) == WaitingOn(s, After(s, t, n).value)
  {
    AfterSum(s, t, n, 1);
    var u := After(s, t, n).value;
    assert WaitingOn(s, u).Some? ==> After(s, WaitingOn(s, u).value, 0) == WaitingOn(s, u);
  }

  /** A chain that ended without meeting `x` never meets it. */
  lemma NeverMet(s: Threads, t: nat, x: nat, n: nat)
    requires n > 0 && After(s, t, n).None? && forall m :: 0 < m < n ==> After(s, t, m) != Some(x)
    ensures !Waits(s, t, x)
  {
    forall m: nat | m >= n ensures After(s, t, m).None? {
      if After(s, t, m).Some? {
        AfterPrefix(s, t, n, m);
      }
    }
  }

  // ----- deadlock, from the pending operations and the owners alone -----

  /** `t` is about to join a thread of `d`, or to lock a mutex that a thread of `d` owns. */
  ghost predicate Blocked(s: Threads, d: set<nat>, t: nat) {
    && t in s.pending
    && (match s.pending[t]
        case Join(u) => u in d
        case Lock(m) => m in s.owner && s.owner[m] in d
        case _ => false)
  }

  /** A set of threads each of which waits for one of them. */
  ghost predicate Deadlocked(s: Threads, d: set<nat>) {
    d != {} && forall t :: t in d ==> Blocked(s, d, t)
  }

  ghost predicate HasDeadlock(s: Threads) {
    exists d :: Deadlocked(s, d)
  }

  /** An operation that cannot be taken is a join of a live thread or a lock of an owned mutex. */
  lemma NotEnabled(s: Threads, op: Pending)
    ensures !Enabled(s, op) <==> (op.Join? && op.target !in s.done) || (op.Lock? && op.mutex in s.owner)
  {
  }

  lemma {:induction false} MetAt(s: Threads, t: nat, n: nat, m: nat)
    requires 0 < m <= n && After(s, t, m).Some?
    ensures After(s, t, m).value in Met(s, t, n)
  {
    if m < n {
      MetAt(s, t, n - 1, m);
    }
  }

  /** The threads on a cycle are deadlocked. */
  lemma CycleDeadlocked(s: Threads, t: nat, n: nat)
    requires n > 0 && After(s, t, n) == Some(t)
    ensures t in Met(s, t, n) && Deadlocked(s, Met(s, t, n))
  {
    var d := Met(s, t, n);
    MetAt(s, t, n, n);
    forall u | u in d ensures Blocked(s, d, u) {
      var m := MetIs(s, t, n, u);
      var next := if m < n then m + 1 else 1;
      AfterPrefix(s, t, next, n);
      MetAt(s, t, n, next);
      AfterNext(s, t, if m < n then m else 0);
      assert WaitingOn(s, u) == After(s, t, next);
    }
  }

  lemma {:induction false} StaysIn(s: Threads, d: set<nat>, t: nat, n: nat)
    requires Deadlocked(s, d) && t in d
    ensures After(s, t, n).Some? && After(s, t, n).value in d && Met(s, t, n) <= d
  {
    if n > 0 {
      StaysIn(s, d, t, n - 1);
      AfterNext(s, t, n - 1);
      assert Blocked(s, d, After(s, t, n - 1).value);
    }
  }

  /** Without a cycle every wait meets a new thread. */
  lemma AcyclicNew(s: Threads, t: nat, n: nat)
    requires Acyclic(s) && n > 0 && After(s, t, n).Some?
    ensures After(s, t, n).value !in Met(s, t, n - 1)
  {
    var u := After(s, t, n).value;
    if u in Met(s, t, n - 1) {
      var m := MetIs(s, t, n - 1, u);
      AfterSum(s, t, m, n - m);
      assert Waits(s, u, u);
    }
  }

  lemma {:induction false} AcyclicMeets(s: Threads, t: nat, n: nat)
    requires Acyclic(s) && After(s, t, n).Some?
    ensures |Met(s, t, n)| == n
  {
    hide Acyclic;
    hide After;
    if n > 0 {
      AfterPrefix(s, t, n - 1, n);
      AcyclicMeets(s, t, n - 1);
      AcyclicNew(s, t, n);
    }
  }

  lemma SubsetSize(a: set<nat>, b: set<nat>)
    requires a <= b
    ensures |a| <= |b|
  {
    assert b == a + (b - a);
  }

  /** Some threads are deadlocked if and only if the wait-for graph has a cycle. */
  lemma DeadlockedIffCycle(s: Threads)
    ensures HasDeadlock(s) <==> !Acyclic(s)
  {
    if HasDeadlock(s) {
      var d :| Deadlocked(s, d);
      var t :| t in d;
      StaysIn(s, d, t, |d| + 1);
      if Acyclic(s) {
        AcyclicMeets(s, t, |d| + 1);
        SubsetSize(Met(s, t, |d| + 1), d);
      }
    }
    if !Acyclic(s) {
      var t: nat :| Waits(s, t, t);
      var n: nat :| n > 0 && After(s, t, n) == Some(t);
      CycleDeadlocked(s, t, n);
    }
  }

  /**
   Deadlock detection is exact: in every run in which nothing has been reported so far no threads
   are deadlocked, and a step reports if and only if it leaves some threads deadlocked.
   */
  lemma RunDeadlockExact(ss: seq<Threads>, ls: seq<Step>, i: nat)
    requires IsRun(ss, ls) && i < |ss|
    requires forall j :: 0 <= j < i ==> !Reports(ss[j], ls[j])
    ensures !HasDeadlock(ss[i])
    ensures i < |ls| ==> (Reports(ss[i], ls[i]) <==> HasDeadlock(ss[i + 1]))
  {
    hide HasDeadlock;
    RunAcyclic(ss, ls, i);
    DeadlockedIffCycle(ss[i]);
    if i < |ls| {
      DeadlockedIffCycle(ss[i + 1]);
    }
  }

  /** Finished threads have nothing pending. */
  ghost predicate PendingAlive(s: Threads) {
    forall t :: t in s.pending ==> t !in s.done
  }

  lemma {:induction false} RunPendingAlive(ss: seq<Threads>, ls: seq<Step>, i: nat)
    requires IsRun(ss, ls) && i < |ss|
    ensures PendingAlive(ss[i])
  {
    if i > 0 {
      RunPendingAlive(ss, ls, i - 1);
    }
  }

  /** In every run no deadlocked thread can take its pending operation. */
  lemma RunDeadlockBlocks(ss: seq<Threads>, ls: seq<Step>, i: nat, d: set<nat>, t: nat)
    requires IsRun(ss, ls) && i < |ss| && Deadlocked(ss[i], d) && t in d
    ensures t in ss[i].pending && !Enabled(ss[i], ss[i].pending[t])
  {
    RunPendingAlive(ss, ls, i);
    var s := ss[i];
    assert Blocked(s, d, t);
    if s.pending[t].Join? {
      assert Blocked(s, d, s.pending[t].target);
    }
  }

  /** Each thread of `p` is about to join the next one, or to lock a mutex that the next one owns. */
  ghost predicate WaitPath(s: Threads, p: seq<nat>) {
    p != [] && forall k :: 0 <= k < |p| - 1 ==> Blocked(s, {p[k + 1]}, p[k])
  }

  lemma {:induction false} PathOf(s: Threads, t: nat, n: nat) returns (p: seq<nat>)
    requires After(s, t, n).Some?
    ensures WaitPath(s, p) && |p| == n + 1 && p[0] == t && p[n] == After(s, t, n).value
    decreases n
  {
    p := [t];
    if n > 0 {
      var rest := PathOf(s, WaitingOn(s, t).value, n - 1);
      p := [t] + rest;
      forall k | 0 <= k < |p| - 1 ensures Blocked(s, {p[k + 1]}, p[k]) {
        assert k > 0 ==> Blocked(s, {rest[k]}, rest[k - 1]);
      }
    }
  }

  lemma {:induction false} PathAfter(s: Threads, p: seq<nat>)
    requires WaitPath(s, p)
    ensures After(s, p[0], |p| - 1) == Some(p[|p| - 1])
    decreases |p|
  {
    if |p| > 1 {
      assert Blocked(s, {p[1]}, p[0]);
      forall k | 0 <= k < |p| - 2 ensures Blocked(s, {p[1..][k + 1]}, p[1..][k]) {
        assert Blocked(s, {p[k + 2]}, p[k + 1]);
      }
      PathAfter(s, p[1..]);
    }
  }

  /** Waiting means a chain of joins of the next thread and locks of mutexes it owns. */
  lemma WaitsIffPath(s: Threads, t: nat, u: nat)
    ensures Waits(s, t, u) <==> exists p :: WaitPath(s, p) && |p| > 1 && p[0] == t && p[|p| - 1] == u
  {
    if Waits(s, t, u) {
      var n: nat :| n > 0 && After(s, t, n) == Some(u);
      var p := PathOf(s, t, n);
    }
    if p :| WaitPath(s, p) && |p| > 1 && p[0] == t && p[|p| - 1] == u {
      PathAfter(s, p);
    }
  }

  /**
   In every run in which nothing has been reported, whoever is waiting waits in the end for a
   thread that can go on, or that has announced nothing: it runs, or it finished owning a mutex.
   */
  lemma RunUnblocked(ss: seq<Threads>, ls: seq<Step>, i: nat, t: nat) returns (p: seq<nat>)
    requires IsRun(ss, ls) && i < |ss| && t in ss[i].pending
    requires forall j :: 0 <= j < i ==> !Reports(ss[j], ls[j])
    ensures WaitPath(ss[i], p) && p[0] == t
    ensures var u := p[|p| - 1]; u !in ss[i].pending || Enabled(ss[i], ss[i].pending[u])
  {
    var s := ss[i];
    RunAcyclic(ss, ls, i);
    p := [t];
    var n := 0;
    while p[n] in s.pending && !Enabled(s, s.pending[p[n]])
      invariant 0 <= n <= s.count && |p| == n + 1 && p[0] == t && WaitPath(s, p)
      decreases s.count - n
    {
      var u := WaitingOn(s, p[n]).value;
      forall k | 0 <= k < n + 1 ensures Blocked(s, {(p + [u])[k + 1]}, (p + [u])[k]) {
        assert k < n ==> Blocked(s, {p[k + 1]}, p[k]);
      }
      p, n := p + [u], n + 1;
      PathAfter(s, p);
      AcyclicMeets(s, t, n);
      MetInside(s, t, n);
      BoundedSize(Met(s, t, n), s.count);
    }
  }

  /**
   `is_waiting_on`: decides whether one thread waits for another, and ends even in a state that
   has a cycle, as the state of a closing switch does. With `relocks`, the pending action of `t`
   locks a recursive mutex, and then it does not count as waiting for the mutex's own holder.
   */
  method IsWaitingOn(s: Threads, t: nat, x: nat, relocks: bool) returns (waits: bool)
    requires Inside(s) && CyclesThrough(s, x)
    ensures waits <==> Waits(s, t, x) && !(relocks && WaitingOn(s, t) == Some(x))
  {
    hide Inside;
    hide CyclesThrough;
    hide WaitingOn;
    hide Met;
    if WaitingOn(s, t) == Some(x) && relocks {
      return false;
    }
    var wait := WaitingOn(s, t);
    ghost var n := 1;
    AfterNext(s, t, 0);
    NoneMet(s, t);
    while wait.Some?
      invariant n > 0 && wait == After(s, t, n)
      invariant forall m :: 0 < m < n ==> After(s, t, m) != Some(x)
      invariant |Met(s, t, n - 1)| <= s.count
      decreases s.count - |Met(s, t, n - 1)|, wait.Some?
    {
      if wait.value == x {
        return true;
      }
      MetGrows(s, t, x, n);
      AfterNext(s, t, n);
      wait := WaitingOn(s, wait.value);
      n := n + 1;
    }
    NeverMet(s, t, x, n);
    waits := false;
  }
}
