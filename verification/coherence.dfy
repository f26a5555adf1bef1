/**
 Coherence between happens-before and the modification-order graph, and how recording one
 more action extends it.
 */
module Coherence {
  import opened Options
  import opened Clocks
  import opened MoGraph
  import opened Actions

  /** If `a` happens before `b`, the write of `a` equals or reaches what `b` observes. */
  ghost predicate Ordered(m: Infos, g: Graph, a: Act, b: Act) {
    IsMem(m, a) && IsMem(m, b) && a != b && a.loc == b.loc && HappensBefore(m, a, b)
    ==> Reach(g, Writer(m, a), Observed(m, b))
  }

  ghost predicate Coherent(m: Infos, g: Graph) {
    forall a, b {:trigger Ordered(m, g, a, b)} :: Ordered(m, g, a, b)
  }

  ghost predicate RmwRecorded(m: Infos, g: Graph, r: Act) {
    r in m && m[r].kind.Rmw? && m[r].rf.Some? ==> RmwOf(g, m[r].rf.value, r)
  }

  /** The graph's RMW pointers are exactly the reads-from of the successful RMWs. */
  ghost predicate RmwLinked(m: Infos, g: Graph) {
    && (forall r {:trigger RmwRecorded(m, g, r)} :: RmwRecorded(m, g, r))
    && (forall n, r {:trigger RmwOf(g, n, r)} :: RmwOf(g, n, r) ==> r in m && m[r].kind.Rmw? && m[r].rf == Some(n))
  }

  ghost predicate NodesAreWrites(m: Infos, g: Graph) {
    forall n :: n in g ==> IsWrite(m, n)
  }

  ghost predicate MoInv(m: Infos, used: nat, g: Graph) {
    InfosInv(m, used) && GraphInv(g) && NodesAreWrites(m, g) && Coherent(m, g) && RmwLinked(m, g)
  }

  function WriteSet(m: Infos): set<Act> {
    set a | a in m && m[a].IsWrite()
  }

  lemma ObservedReachesWriter(m: Infos, used: nat, g: Graph, a: Act)
    requires MoInv(m, used, g) && IsMem(m, a)
    ensures Reach(g, Observed(m, a), Writer(m, a))
  {
    assert WfAct(m, used, a);
    if m[a].kind.Rmw? {
      assert RmwRecorded(m, g, a);
      ReachEdge(g, m[a].rf.value, a);
    } else {
      ReachRefl(g, Writer(m, a));
    }
  }

  /**
   Coherence as the standard states it (paragraphs 15 to 18 of section 1.10 of ISO/IEC
   14882:2011): happens-before between accesses of one location implies modification order
   between their writes.
   */
  lemma CoherentWriters(m: Infos, used: nat, g: Graph, a: Act, b: Act)
    requires MoInv(m, used, g)
    requires IsMem(m, a) && IsMem(m, b) && a.loc == b.loc && HappensBefore(m, a, b)
    ensures Reach(g, Writer(m, a), Writer(m, b))
  {
    if a == b {
      ReachRefl(g, Writer(m, a));
    } else {
      assert Ordered(m, g, a, b);
      ObservedReachesWriter(m, used, g, b);
      ReachTrans(g, Writer(m, a), Observed(m, b), Writer(m, b));
    }
  }

  lemma SameThreadHappensBefore(m: Infos, used: nat, a: Act, b: Act)
    requires InfosInv(m, used) && a in m && b in m && a.tid == b.tid && a.seqno <= b.seqno
    ensures HappensBefore(m, a, b)
  {
    assert WfAct(m, used, a) && WfAct(m, used, b);
    assert Get(m[b].cv, b.tid) == b.seqno;
  }

  /** The committed writes are attached in the sense the graph operations need. */
  lemma WritesAttached(m: Infos, used: nat, g: Graph, to: Act)
    requires MoInv(m, used, g) && to.seqno >= 1
    ensures Attached(g, WriteSet(m), to)
  {
    var s := WriteSet(m);
    forall a, b | a in s && b in s && a.tid == b.tid && a.loc == b.loc && a.seqno < b.seqno
      ensures Reach(g, a, b)
    {
      SameThreadHappensBefore(m, used, a, b);
      CoherentWriters(m, used, g, a, b);
    }
    forall a | a in s ensures a.seqno >= 1 {
      assert WfAct(m, used, a);
    }
    forall a, b | a in s && b in s && SameSeq(a, b) ensures a == b {
      assert a in m.Keys && b in m.Keys;
    }
  }

  /** A positive clock test between committed same-location writes always has a path behind it. */
  lemma CommittedTestSound(m: Infos, used: nat, g: Graph, a: Act, b: Act)
    requires MoInv(m, used, g) && a.loc == b.loc && Test(g, a, b)
    ensures Reach(g, a, b)
  {
    assert WfAct(m, used, a) && WfAct(m, used, b);
    WritesAttached(m, used, g, b);
    TestSound(g, WriteSet(m), a, b);
  }

  /** The clock of a release sequence only covers accesses ordered before its last write. */
  lemma {:induction false} RelClockOrdered(m: Infos, used: nat, g: Graph, w: Act, a: Act)
    requires MoInv(m, used, g) && IsWrite(m, w) && IsMem(m, a) && a.loc == w.loc
    requires Get(RelClock(m, w), a.tid) >= a.seqno
    ensures Reach(g, Writer(m, a), w)
    decreases w.seqno
  {
    assert WfAct(m, used, w) && WfAct(m, used, a);
    if Get(HeadClock(m, w), a.tid) >= a.seqno {
      HeadClockLeq(m, used, w);
      assert Get(HeadClock(m, w), a.tid) <= Get(m[w].cv, a.tid);
      CoherentWriters(m, used, g, a, w);
    } else {
      var r := m[w].rf.value;
      RelClockOrdered(m, used, g, r, a);
      ObservedReachesWriter(m, used, g, w);
      ReachTrans(g, Writer(m, a), r, w);
    }
  }

  // ----- recording one more action -----

  /** What the record of a new action must satisfy. */
  ghost predicate NewInfo(m: Infos, used: nat, curr: Act, info: Info) {
    && curr.seqno > used && WfClock(curr, info.cv)
    && (info.IsRead() ==> info.rf.Some? && IsWrite(m, info.rf.value) && info.rf.value.loc == curr.loc)
    && (!info.IsRead() ==> info.rf.None?)
    && (info.fence.Some? ==> info.fence.value in m && info.fence.value.tid == curr.tid)
    && (forall a :: a in m && a.tid == curr.tid ==> Leq(m[a].cv, info.cv))
    && (info.kind.Rmw? && info.order.IsAcquire() && info.rf.Some? ==> Leq(RelClock(m, info.rf.value), info.cv))
  }

  lemma NewIsFresh(m: Infos, used: nat, curr: Act, a: Act)
    requires InfosInv(m, used) && curr.seqno > used && a in m
    ensures curr !in m && a.seqno < curr.seqno && !SameSeq(a, curr)
  {
    assert WfAct(m, used, a);
    assert WfAct(m, used, curr);
  }

  lemma RecordInfos(m: Infos, used: nat, curr: Act, info: Info)
    requires InfosInv(m, used) && NewInfo(m, used, curr, info)
    ensures InfosInv(m[curr := info], curr.seqno)
    ensures Extends(m, m[curr := info], used)
  {
    var n := m[curr := info];
    assert WfAct(m, used, curr);
    forall a, b | a in n.Keys && b in n.Keys && SameSeq(a, b) ensures a == b {
      if a in m && b !in m { NewIsFresh(m, used, curr, a); }
      if b in m && a !in m { NewIsFresh(m, used, curr, b); }
    }
    forall a ensures WfAct(n, curr.seqno, a) {
      assert WfAct(m, used, a);
      if a == curr {
        if info.rf.Some? { assert WfAct(m, used, info.rf.value); }
        if info.fence.Some? { assert WfAct(m, used, info.fence.value); }
      }
    }
    forall a, b ensures ThreadMono(n, a, b) {
      assert ThreadMono(m, a, b);
      if b in m && a == curr { NewIsFresh(m, used, curr, b); }
    }
    forall a ensures AcqMerged(n, a) {
      assert AcqMerged(m, a);
      if a in n && n[a].kind.Rmw? && n[a].rf.Some? {
        assert WfAct(m, used, a);
        RelClockStable(m, n, used, n[a].rf.value);
      }
    }
  }

  /** The coherence obligation of a new action: everything its clock covers is ordered before what it observes. */
  ghost predicate NewOrdered(m: Infos, h: Graph, curr: Act, info: Info, a: Act) {
    IsMem(m, a) && a.loc == curr.loc && info.IsMem() && Get(info.cv, a.tid) >= a.seqno
    ==> Reach(h, Writer(m, a), if info.rf.Some? then info.rf.value else curr)
  }

  lemma RecordCoherent(m: Infos, used: nat, g: Graph, curr: Act, info: Info, h: Graph)
    requires InfosInv(m, used) && Coherent(m, g) && NewInfo(m, used, curr, info) && Embeds(g, h)
    requires forall a {:trigger NewOrdered(m, h, curr, info, a)} :: NewOrdered(m, h, curr, info, a)
    ensures Coherent(m[curr := info], h)
  {
    var n := m[curr := info];
    assert WfAct(m, used, curr);
    forall a, b ensures Ordered(n, h, a, b) {
      if IsMem(n, a) && IsMem(n, b) && a != b && a.loc == b.loc && HappensBefore(n, a, b) {
        if b == curr {
          assert NewOrdered(m, h, curr, info, a);
        } else {
          assert WfAct(m, used, b);
          assert a.seqno <= Get(m[b].cv, a.tid) <= b.seqno <= used;
          assert a != curr;
          assert Ordered(m, g, a, b);
          ReachEmbeds(g, h, Writer(m, a), Observed(m, b));
        }
      }
    }
  }
}
