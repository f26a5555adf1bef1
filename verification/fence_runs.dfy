/**
 Runs in which the engine does not keep a rule of paragraphs 4 and 5 of section 29.3 of ISO/IEC
 14882:2011. In both the reader's previous access to the location, made since the fence, lets the
 scan of the writer's thread be skipped, although that access had not looked at the writer.
 */
module FenceRuns {
  import opened Options
  import opened Clocks
  import opened MoGraph
  import opened Actions
  import opened ExecutionState
  import opened EngineClocks
  import opened EngineFences
  import opened SmallRuns
  import opened Counterexamples
  import opened CounterexampleRuns

  // ----- a seq_cst read after a relaxed one -----

  const F := Act(2, 6, 0)  // thread 2's fence, after its store X
  const E := Act(1, 7, 7)  // thread 1 reads W, relaxed
  const B := Act(1, 8, 7)  // thread 1 reads W again, seq_cst

  /** After thread 2's fence. */
  function V6(): View {
    View(6, [[], [W], [X]], [[], [W], [X]], [[], [0, 3], [0, 3, 6]],
         V5().info[F := FenceInfo([0, 3, 6])], [F], map[])
  }

  /** After thread 1's first load. */
  function V7(): View {
    View(7, [[], [W, E], [X]], [[], [W], [X]], [[], [0, 7], [0, 3, 6]],
         V6().info[E := ReadInfo(Relaxed, W, [0, 7])], [F], map[])
  }

  lemma AfterViews()
    ensures FencedView(V5(), 2, [0, 3, 6]) == V6() && ViewOf(V6(), 1, ReadInfo(Relaxed, W, [0, 7])) == V7()
    ensures Stamp([0, 3, 5], 2, 6) == [0, 3, 6] && Stamp([0, 3], 1, 7) == [0, 7] && Stamp([0, 7], 1, 8) == [0, 8]
  {
    assert [] + [F] == [F] && [W] + [E] == [W, E];
    assert FencedView(V5(), 2, [0, 3, 6]).cvs == V6().cvs;
    assert ViewOf(V6(), 1, ReadInfo(Relaxed, W, [0, 7])).lists == V7().lists;
  }

  lemma FirstTarget(s: State, c: Cur)
    requires Shows(s, V6(), G5()) && c == Cur(E, Relaxed, [0, 7])
    ensures OnlyTarget(s, c, W, Some(W))
  {
    assert LastFence([F], 1) == LastFence([F][..0], 1);
    assert LocalFence(s, c) == None;
    assert [X][..0] == [];
    assert !StopsRead(s, c, W, 2, X);
    assert ReadStop(s, c, W, 1, [W]) == Some(W) && ReadStop(s, c, W, 2, [X]) == None;
    forall t | 0 <= t < 3 ensures ReadTarget(s, c, W, t) == if t == 1 then Some(W) else None {
      assert ShowsThread(s, V6(), t) && ShowsThread(s, V6(), 1);
    }
  }

  lemma SecondTarget(s: State, c: Cur)
    requires Shows(s, V7(), G5()) && c == Cur(B, SeqCst, [0, 8])
    ensures OnlyTarget(s, c, W, Some(W))
  {
    assert LastFence([F], 1) == LastFence([F][..0], 1) && LastFence([F], 0) == LastFence([F][..0], 0);
    assert LocalFence(s, c) == None && LastFence(s.scFences, 2) == Some(F);
    assert ShowsThread(s, V7(), 1);
    assert ReadStop(s, c, W, 1, [W, E]) == Some(E);
    assert PrevSame(s, c, W) == Some(E);
    assert CvOf(s.info, E) == [0, 7];
    assert SkipsRead(s, c, W, 0) && SkipsRead(s, c, W, 2);
    assert ReadTarget(s, c, W, 1) == Some(W);
  }

  lemma AfterFenceStep(s: State) returns (t: State)
    requires Shows(s, V5(), G5()) && s.acqCv == map[]
    ensures Step(s, FenceOp(2, SeqCst), t) && Shows(t, V6(), G5())
  {
    hide Step;
    AfterViews();
    t := FenceTakes(s, V5(), G5(), 2, [0, 3, 6]);
  }

  lemma AfterFirst(s: State) returns (t: State)
    requires Shows(s, V6(), G5())
    ensures Step(s, Load(1, 7, Relaxed, W, 0, false), t) && Shows(t, V7(), G5())
  {
    hide Step;
    AfterViews();
    var c := Cur(E, Relaxed, [0, 7]);
    FirstTarget(s, c);
    AddNone(G5(), W);
    t := LoadTakes(s, V6(), G5(), E, Relaxed, [0, 7], W, 1, Some(W), [0, 7], G5());
  }

  lemma AfterSecond(s: State) returns (t: State)
    requires Shows(s, V7(), G5())
    ensures Step(s, Load(1, 7, SeqCst, W, 0, false), t) && t.graph == G5()
    ensures IsWrite(t.info, X) && ScFence(t.info, F) && IsMem(t.info, B) && t.info[B].order.SeqCst? && t.info[B].rf == Some(W)
  {
    hide Step;
    AfterViews();
    var c := Cur(B, SeqCst, [0, 8]);
    SecondTarget(s, c);
    AddNone(G5(), W);
    var cv := Join([0, 8], RelClock(s.info, W));
    t := LoadTakes(s, V7(), G5(), B, SeqCst, [0, 8], W, 1, Some(W), cv, G5());
    assert X in V7().info && F in V7().info;
  }

  lemma NotBack()
    ensures !Reach(G5(), X, W)
  {
    assert forall p, y :: Walk(G5(), X, p, y) ==> y == X;
  }

  /**
   Thread 2's store comes after thread 1's, and a fence of thread 2 after that. Thread 1's
   seq_cst read then still observes its own store, because a relaxed read came in between.
   */
  lemma RelaxedReadHidesFence() returns (ss: seq<State>, ls: seq<Label>)
    ensures IsRun(ss, ls) && |ls| == 8
    ensures IsWrite(ss[8].info, X) && ScFence(ss[8].info, F) && X.tid == F.tid && X.seqno < F.seqno < B.seqno && X.loc == B.loc
    ensures IsMem(ss[8].info, B) && ss[8].info[B].order.SeqCst? && !Reach(ss[8].graph, X, Observed(ss[8].info, B))
  {
    hide Step;
    hide Shows;
    ss, ls := StalePrefix();
    var s6 := AfterFenceStep(ss[5]);
    var s7 := AfterFirst(s6);
    var s8 := AfterSecond(s7);
    ss := ss + [s6, s7, s8];
    ls := ls + [FenceOp(2, SeqCst), Load(1, 7, Relaxed, W, 0, false), Load(1, 7, SeqCst, W, 0, false)];
    NotBack();
  }

  // ----- a read after a store and a fence -----

  const A := Act(2, 6, 7)  // thread 2's seq_cst store
  const G := Act(1, 7, 0)  // thread 1's fence
  const O := Act(1, 8, 7)  // thread 1's own store
  const Q := Act(3, 9, 7)  // thread 3's store
  const D := Act(1, 10, 7)  // thread 1 reads Q

  /** After thread 2's store. */
  function C6(): View {
    View(6, [[], [], [A], []], [[], [], [A], []], [[], [0, 4], [0, 2, 6], [0, 4, 0, 5]],
         map[A := WriteInfo(SeqCst, [0, 2, 6])], [], map[7 := A])
  }

  /** After thread 1's fence. */
  function C7(): View {
    View(7, [[], [], [A], []], [[], [], [A], []], [[], [0, 7], [0, 2, 6], [0, 4, 0, 5]],
         C6().info[G := FenceInfo([0, 7])], [G], map[7 := A])
  }

  /** After thread 1's store. */
  function C8(): View {
    View(8, [[], [O], [A], []], [[], [O], [A], []], [[], [0, 8], [0, 2, 6], [0, 4, 0, 5]],
         C7().info[O := WriteInfo(Relaxed, [0, 8])], [G], map[7 := A])
  }

  /** After thread 3's store. */
  function C9(): View {
    View(9, [[], [O], [A], [Q]], [[], [O], [A], [Q]], [[], [0, 8], [0, 2, 6], [0, 4, 0, 9]],
         C8().info[Q := WriteInfo(Relaxed, [0, 4, 0, 9])], [G], map[7 := A])
  }

  lemma BeforeViews()
    ensures ViewOf(B5(), 2, WriteInfo(SeqCst, [0, 2, 6])) == C6() && FencedView(C6(), 1, [0, 7]) == C7()
    ensures ViewOf(C7(), 1, WriteInfo(Relaxed, [0, 8])) == C8() && ViewOf(C8(), 3, WriteInfo(Relaxed, [0, 4, 0, 9])) == C9()
  {
    assert [] + [A] == [A] && [] + [G] == [G] && [] + [O] == [O] && [] + [Q] == [Q];
    assert ViewOf(B5(), 2, WriteInfo(SeqCst, [0, 2, 6])).lists == C6().lists;
    assert FencedView(C6(), 1, [0, 7]).cvs == C7().cvs;
    assert ViewOf(C7(), 1, WriteInfo(Relaxed, [0, 8])).lists == C8().lists;
    assert ViewOf(C8(), 3, WriteInfo(Relaxed, [0, 4, 0, 9])).lists == C9().lists;
  }

  lemma BeforeStamps()
    ensures Stamp([0, 2, 3], 2, 6) == [0, 2, 6] && Stamp([0, 4], 1, 7) == [0, 7] && Stamp([0, 7], 1, 8) == [0, 8]
    ensures Stamp([0, 4, 0, 5], 3, 9) == [0, 4, 0, 9] && Stamp([0, 8], 1, 10) == [0, 10]
  {
  }

  function GD(): Graph {
    map[O := Node([Q], [], None, [0, 8]), Q := Node([], [O], None, [0, 8, 0, 9])]
  }

  lemma GraphD()
    ensures AddedOne(map[], O, Q, false, GD())
  {
    var g := map[O := FreshNode(O), Q := FreshNode(Q)];
    assert WithNode(WithNode(map[], O), Q) == g;
    assert FreshNode(O).cv == [0, 8] && FreshNode(Q).cv == [0, 0, 0, 9];
    assert [] + [Q] == [Q] && [] + [O] == [O];
    var h := WithEdge(g, O, Q);
    assert Join([0, 8], [0, 0, 0, 9]) == [0, 8, 0, 9];
    assert Get(h[O].cv, 1) == 8;
    PushOne(h, O, Q, [0, 8, 0, 9]);
    assert h[Q := h[Q].(cv := [0, 8, 0, 9])] == GD();
    AddPlain(g, O, Q, GD());
  }

  lemma BeforeStore(s: State) returns (t: State)
    requires Shows(s, B5(), map[])
    ensures Step(s, Store(2, 7, SeqCst, 0), t) && Shows(t, C6(), map[]) && t.acqCv == s.acqCv
  {
    hide Step;
    BeforeViews();
    BeforeStamps();
    var c := Cur(A, SeqCst, [0, 2, 6]);
    forall k | 0 <= k < 4 ensures WriteTarget(s, c, false, k) == None {
      assert ShowsThread(s, B5(), k);
    }
    AddNone(map[], A);
    t := StoreTakes(s, B5(), map[], A, SeqCst, [0, 2, 6], 2, None, map[]);
  }

  lemma BeforeFenceStep(s: State) returns (t: State)
    requires Shows(s, C6(), map[]) && s.acqCv == map[]
    ensures Step(s, FenceOp(1, SeqCst), t) && Shows(t, C7(), map[])
  {
    hide Step;
    BeforeViews();
    BeforeStamps();
    t := FenceTakes(s, C6(), map[], 1, [0, 7]);
  }

  lemma FencesAre(s: State, c: Cur)
    requires s.scFences == [G] && c.act.tid == 1
    ensures LocalFence(s, c) == Some(G) && forall k :: FenceBeforeLocal(s, c, k) == None
    ensures forall k :: k != 1 ==> LastFence(s.scFences, k) == None
  {
    assert [G][..0] == [] && FencesBefore([G], G) == [];
  }

  lemma OwnStoreSource(s: State, c: Cur)
    requires Shows(s, C7(), map[]) && c == Cur(O, Relaxed, [0, 8])
    ensures OnlySource(s, c, false, 1, None)
  {
    FencesAre(s, c);
    assert !StopsWrite(s, c, 2, A);
    assert WriteStop(s, c, 2, [A]) == WriteStop(s, c, 2, [A][..0]) == None;
    forall k | 0 <= k < 4 ensures WriteTarget(s, c, false, k) == None {
      assert ShowsThread(s, C7(), k);
    }
  }

  lemma BeforeOwn(s: State) returns (t: State)
    requires Shows(s, C7(), map[])
    ensures Step(s, Store(1, 7, Relaxed, 0), t) && Shows(t, C8(), map[])
  {
    hide Step;
    BeforeViews();
    BeforeStamps();
    OwnStoreSource(s, Cur(O, Relaxed, [0, 8]));
    AddNone(map[], O);
    t := StoreTakes(s, C7(), map[], O, Relaxed, [0, 8], 1, None, map[]);
  }

  lemma ThirdSource(s: State, c: Cur)
    requires Shows(s, C8(), map[]) && c == Cur(Q, Relaxed, [0, 4, 0, 9])
    ensures OnlySource(s, c, false, 3, None)
  {
    assert LastFence([G], 3) == LastFence([G][..0], 3) && LocalFence(s, c) == None;
    assert !StopsWrite(s, c, 2, A) && !StopsWrite(s, c, 1, O);
    assert WriteStop(s, c, 2, [A]) == WriteStop(s, c, 2, [A][..0]) == None;
    assert WriteStop(s, c, 1, [O]) == WriteStop(s, c, 1, [O][..0]) == None;
    forall k | 0 <= k < 4 ensures WriteTarget(s, c, false, k) == None {
      assert ShowsThread(s, C8(), k);
    }
  }

  lemma BeforeThird(s: State) returns (t: State)
    requires Shows(s, C8(), map[])
    ensures Step(s, Store(3, 7, Relaxed, 0), t) && Shows(t, C9(), map[])
  {
    hide Step;
    BeforeViews();
    BeforeStamps();
    ThirdSource(s, Cur(Q, Relaxed, [0, 4, 0, 9]));
    AddNone(map[], Q);
    t := StoreTakes(s, C8(), map[], Q, Relaxed, [0, 4, 0, 9], 3, None, map[]);
  }

  lemma ReadQTarget(s: State, c: Cur)
    requires Shows(s, C9(), map[]) && c == Cur(D, Relaxed, [0, 10])
    ensures OnlyTarget(s, c, Q, Some(O))
  {
    FencesAre(s, c);
    assert ShowsThread(s, C9(), 1);
    assert ReadStop(s, c, Q, 1, [O]) == Some(O);
    assert PrevSame(s, c, Q) == Some(O);
    assert CvOf(s.info, O) == [0, 8];
    assert SkipsRead(s, c, Q, 0) && SkipsRead(s, c, Q, 2) && SkipsRead(s, c, Q, 3);
    assert ReadTarget(s, c, Q, 1) == Some(O);
  }

  lemma BeforeRead(s: State) returns (t: State)
    requires Shows(s, C9(), map[])
    ensures Step(s, Load(1, 7, Relaxed, Q, 0, false), t) && Shows(t, ViewOf(C9(), 1, ReadInfo(Relaxed, Q, [0, 10])), GD())
  {
    hide Step;
    hide AddedOne;
    hide ViewOf;
    hide OnlyTarget;
    BeforeViews();
    BeforeStamps();
    ReadQTarget(s, Cur(D, Relaxed, [0, 10]));
    GraphD();
    AddLast(map[], O, Q, false, GD());
    t := LoadTakes(s, C9(), map[], D, Relaxed, [0, 10], Q, 3, Some(O), [0, 10], GD());
  }

  lemma LastShows(t: State)
    requires Shows(t, ViewOf(C9(), 1, ReadInfo(Relaxed, Q, [0, 10])), GD())
    ensures t.graph == GD()
    ensures ScWrite(t.info, A) && ScFence(t.info, G) && IsMem(t.info, D) && t.info[D].IsRead() && t.info[D].rf == Some(Q)
  {
    assert A in C9().info && G in C9().info;
  }

  lemma NotBefore()
    ensures !Reach(GD(), A, Q)
  {
    assert forall p, y :: Walk(GD(), A, p, y) ==> y == A;
  }

  /**
   Thread 2 makes a seq_cst store, thread 1 takes a fence. Having stored itself in between,
   thread 1 then reads a third thread's store that nothing orders after thread 2's.
   */
  lemma StoreHidesSeqCst() returns (ss: seq<State>, ls: seq<Label>)
    ensures IsRun(ss, ls) && |ls| == 10
    ensures ScWrite(ss[10].info, A) && ScFence(ss[10].info, G) && G.tid == D.tid && A.seqno < G.seqno < D.seqno && A.loc == D.loc
    ensures IsMem(ss[10].info, D) && ss[10].info[D].IsRead() && !Reach(ss[10].graph, A, Observed(ss[10].info, D))
  {
    hide Step;
    hide Shows;
    ss, ls := ThreeStart();
    var s6 := BeforeStore(ss[5]);
    var s7 := BeforeFenceStep(s6);
    var s8 := BeforeOwn(s7);
    var s9 := BeforeThird(s8);
    var s10 := BeforeRead(s9);
    LastShows(s10);
    ss := ss + [s6, s7, s8, s9, s10];
    ls := ls + [Store(2, 7, SeqCst, 0), FenceOp(1, SeqCst), Store(1, 7, Relaxed, 0), Store(3, 7, Relaxed, 0), Load(1, 7, Relaxed, Q, 0, false)];
    NotBefore();
  }
}
