/**
 What an execution records about each action, the happens-before test on clock vectors, and
 the clock a release sequence carries.
 */
module Actions {
  import opened Options
  import opened Clocks
  import opened MoGraph

  datatype Order = Relaxed | Consume | Acquire | Release | AcqRel | SeqCst {
    predicate IsAcquire() { Acquire? || AcqRel? || SeqCst? }
    predicate IsRelease() { Release? || AcqRel? || SeqCst? }
  }

  /** `Other` stands for thread, mutex and bookkeeping actions. A failed compare-and-swap is a `Read`. */
  datatype Kind = Read | Write | Rmw | Fence | Other

  /** The mutable part of an action: `rf` is what it reads from, `fence` its thread's last release fence. */
  datatype Info = Info(kind: Kind, order: Order, value: nat, rf: Option<Act>, cv: Clock, fence: Option<Act>) {
    predicate IsRead() { kind.Read? || kind.Rmw? }
    predicate IsWrite() { kind.Write? || kind.Rmw? }
    predicate IsMem() { IsRead() || IsWrite() }
  }

  type Infos = map<Act, Info>

  predicate IsMem(m: Infos, a: Act) {
    a in m && m[a].IsMem()
  }

  predicate IsWrite(m: Infos, a: Act) {
    a in m && m[a].IsWrite()
  }

  /** The write an action stands for in modification order: itself, or what it read from. */
  function Writer(m: Infos, a: Act): Act
    requires a in m
  {
    if m[a].IsWrite() || m[a].rf.None? then a else m[a].rf.value
  }

  /** What an action observes: the write it reads from, or itself for a plain write. */
  function Observed(m: Infos, a: Act): Act
    requires a in m
  {
    if m[a].rf.Some? then m[a].rf.value else a
  }

  /** `ModelAction::happens_before`. */
  predicate HappensBefore(m: Infos, a: Act, b: Act)
    requires b in m
  {
    Since(m[b].cv, a.tid, a.seqno)
  }

  // ----- well-formed records -----

  ghost predicate WfClock(a: Act, cv: Clock) {
    Get(cv, a.tid) == a.seqno && forall t: nat :: Get(cv, t) <= a.seqno
  }

  ghost predicate WfRf(m: Infos, a: Act)
    requires a in m
  {
    && (m[a].IsRead() ==> m[a].rf.Some? && IsWrite(m, m[a].rf.value) && m[a].rf.value.loc == a.loc && m[a].rf.value.seqno < a.seqno)
    && (!m[a].IsRead() ==> m[a].rf.None?)
  }

  ghost predicate WfFence(m: Infos, a: Act)
    requires a in m
  {
    m[a].fence.Some? ==> m[a].fence.value in m && m[a].fence.value.tid == a.tid && m[a].fence.value.seqno < a.seqno
  }

  ghost predicate WfAct(m: Infos, used: nat, a: Act) {
    a in m ==> 1 <= a.seqno <= used && WfClock(a, m[a].cv) && WfRf(m, a) && WfFence(m, a)
  }

  /** An acquiring RMW has merged the clock of the release sequence it read from. */
  ghost predicate AcqMerged(m: Infos, a: Act) {
    a in m && m[a].kind.Rmw? && m[a].order.IsAcquire() && m[a].rf.Some? ==> Leq(RelClock(m, m[a].rf.value), m[a].cv)
  }

  /** Clocks only grow along a thread. */
  ghost predicate ThreadMono(m: Infos, a: Act, b: Act) {
    a in m && b in m && a.tid == b.tid && a.seqno <= b.seqno ==> Leq(m[a].cv, m[b].cv)
  }

  ghost predicate InfosInv(m: Infos, used: nat) {
    && UniqueSeq(m.Keys)
    && (forall a {:trigger WfAct(m, used, a)} :: WfAct(m, used, a))
    && (forall a, b {:trigger ThreadMono(m, a, b)} :: ThreadMono(m, a, b))
    && (forall a {:trigger AcqMerged(m, a)} :: AcqMerged(m, a))
  }

  // ----- the release-sequence clock -----

  /** What `w` itself contributes to whoever acquires from it. */
  function HeadClock(m: Infos, w: Act): Clock {
    if w !in m then []
    else if m[w].order.IsRelease() then m[w].cv
    else if m[w].fence.Some? && m[w].fence.value in m then m[m[w].fence.value].cv
    else []
  }

  /**
   The clock carried by the release sequence that ends in `w`: the contributions of every
   write from `w` back along the chain of RMWs to the first plain write.
   */
  function RelClock(m: Infos, w: Act): Clock
    decreases w.seqno
  {
    if w in m && m[w].kind.Rmw? && m[w].rf.Some? && m[w].rf.value.seqno < w.seqno
    then Join(RelClock(m, m[w].rf.value), HeadClock(m, w))
    else HeadClock(m, w)
  }

  /** `n` extends `m` with actions younger than everything in `m`. */
  ghost predicate Extends(m: Infos, n: Infos, used: nat) {
    (forall a :: a in m ==> a in n && n[a] == m[a]) && (forall a :: a in n && a !in m ==> a.seqno > used)
  }

  lemma {:induction false} RelClockStable(m: Infos, n: Infos, used: nat, w: Act)
    requires InfosInv(m, used) && Extends(m, n, used) && w in m
    ensures RelClock(n, w) == RelClock(m, w)
    decreases w.seqno
  {
    assert WfAct(m, used, w);
    if m[w].kind.Rmw? {
      RelClockStable(m, n, used, m[w].rf.value);
    }
  }

  /** Whatever a release sequence carries, its last write already happened after. */
  lemma HeadClockLeq(m: Infos, used: nat, w: Act)
    requires InfosInv(m, used) && w in m
    ensures Leq(HeadClock(m, w), m[w].cv)
  {
    assert WfAct(m, used, w);
    if !m[w].order.IsRelease() && m[w].fence.Some? {
      assert ThreadMono(m, m[w].fence.value, w);
    }
  }
}
