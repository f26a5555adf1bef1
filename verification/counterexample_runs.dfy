/**
 The runs of the engine that reach the graphs of `Counterexamples`: every thread, sequence
 number and accepted read in them is what the engine's steps give.
 */
module CounterexampleRuns {
  import opened Options
  import opened Clocks
  import opened MoGraph
  import opened Actions
  import opened ExecutionState
  import opened SmallRuns
  import opened Counterexamples

  function V0(): View {
    View(0, [[], []], [[], []], [[], []], map[], [], map[])
  }

  lemma InitShows()
    ensures Shows(Init(), V0(), map[])
  {
    forall t ensures ShowsThread(Init(), V0(), t) && Vacant(Init(), t) {
      assert t < 2 ==> t == 0 || t == 1;
    }
  }

  /** After thread 1's start. */
  function V1(): View {
    View(1, [[], []], [[], []], [[], [0, 1]], map[], [], map[])
  }

  lemma MainStart(s: State) returns (t: State)
    requires Shows(s, V0(), map[])
    ensures Step(s, Sync(1, 0, None), t) && Shows(t, V1(), map[]) && t.acqCv == s.acqCv
  {
    hide Step;
    assert Stamp([], 1, 1) == [0, 1];
    assert SyncedView(V0(), 1, [0, 1]) == V1();
    t := SyncTakes(s, V0(), map[], 1, None, [0, 1]);
  }

  // ----- the RMW that its own successor does not know about -----

  /** After thread 1's store. */
  function V2(): View {
    View(2, [[], [W]], [[], [W]], [[], [0, 2]], map[W := WriteInfo(Relaxed, [0, 2])], [], map[])
  }

  /** After thread 1 created thread 2. */
  function V3(): View {
    View(3, [[], [W], []], [[], [W], []], [[], [0, 3], [0, 3]], map[W := WriteInfo(Relaxed, [0, 2])], [], map[])
  }

  /** After thread 2's start. */
  function V4(): View {
    V3().(used := 4, cvs := [[], [0, 3], [0, 3, 4]])
  }

  /** After thread 2's store. */
  function V5(): View {
    View(5, [[], [W], [X]], [[], [W], [X]], [[], [0, 3], [0, 3, 5]],
         map[W := WriteInfo(Relaxed, [0, 2]), X := WriteInfo(Relaxed, [0, 3, 5])], [], map[])
  }

  function G5(): Graph {
    map[W := Node([X], [], None, [0, 2]), X := Node([], [W], None, [0, 2, 5])]
  }

  function G6(): Graph {
    map[W := Node([R], [], Some(R), [0, 2]), X := Node([], [R], None, [0, 2, 5]), R := Node([X], [W], None, [0, 6])]
  }

  lemma Views()
    ensures ViewOf(V1(), 1, WriteInfo(Relaxed, [0, 2])) == V2() && SpawnedView(V2(), 1, [0, 3]) == V3()
    ensures SyncedView(V3(), 2, [0, 3, 4]) == V4() && ViewOf(V4(), 2, WriteInfo(Relaxed, [0, 3, 5])) == V5()
    ensures Stamp([0, 1], 1, 2) == [0, 2] && Stamp([0, 2], 1, 3) == [0, 3] && Stamp([0, 3], 2, 4) == [0, 3, 4]
    ensures Stamp([0, 3, 4], 2, 5) == [0, 3, 5] && Stamp([0, 3], 1, 6) == [0, 6]
  {
    assert [] + [W] == [W] && [] + [X] == [X];
    assert ViewOf(V1(), 1, WriteInfo(Relaxed, [0, 2])).lists == V2().lists;
    assert SpawnedView(V2(), 1, [0, 3]).lists == V3().lists && SpawnedView(V2(), 1, [0, 3]).cvs == V3().cvs;
    assert SyncedView(V3(), 2, [0, 3, 4]).cvs == V4().cvs;
    assert ViewOf(V4(), 2, WriteInfo(Relaxed, [0, 3, 5])).lists == V5().lists;
  }

  lemma Graph5()
    ensures AddedPruned(map[], [W], X, G5())
  {
    var g := map[W := FreshNode(W), X := FreshNode(X)];
    assert FreshNode(W).cv == [0, 2] && FreshNode(X).cv == [0, 0, 5];
    var h := WithEdge(g, W, X);
    assert Join([0, 2], [0, 0, 5]) == [0, 2, 5];
    assert Get(g[W].cv, 1) == 2;
    PushOne(h, W, X, [0, 2, 5]);
    assert [] + [X] == [X] && [] + [W] == [W];
    assert h[X := h[X].(cv := [0, 2, 5])] == G5();
    AddPlain(g, W, X, G5());
    assert WithNode(WithNode(WithNode(map[], W), W), X) == g;
    AddSingle(map[], W, X, G5());
  }

  /** G6 before the edge from W to R. */
  function H6(): Graph {
    map[W := Node([], [], Some(R), [0, 2]), X := Node([], [R], None, [0, 2, 5]), R := Node([X], [], None, [0, 6])]
  }

  lemma Splice6()
    ensures FreshNode(R).cv == [0, 6] && Spliced(WithNode(WithNode(G5(), W), R), W, R, H6())
  {
    assert FreshNode(R).cv == [0, 6];
  }

  lemma Graph6()
    ensures AddedRmw(WithNode(WithNode(G5(), W), R), W, R, G6())
  {
    Splice6();
    hide Spliced;
    assert [] + [R] == [R] && [] + [W] == [W];
    assert WithEdge(H6(), W, R) == G6();
    PushNothing(G6(), W, R);
  }

  lemma StaleStore(s: State) returns (t: State)
    requires Shows(s, V1(), map[])
    ensures Step(s, Store(1, 7, Relaxed, 0), t) && Shows(t, V2(), map[]) && t.acqCv == s.acqCv
  {
    hide Step;
    Views();
    AddNone(map[], W);
    QuietSource(s, V1(), map[], Cur(W, Relaxed, [0, 2]), false, 1);
    t := StoreTakes(s, V1(), map[], W, Relaxed, [0, 2], 1, None, map[]);
  }

  lemma StaleSpawn(s: State) returns (s1: State, s2: State)
    requires Shows(s, V2(), map[])
    ensures Step(s, Spawn(1, 0), s1) && Step(s1, Sync(2, 0, None), s2) && Shows(s2, V4(), map[]) && s2.acqCv == s.acqCv
  {
    hide Step;
    Views();
    s1 := SpawnTakes(s, V2(), map[], 1, [0, 3]);
    s2 := SyncTakes(s1, V3(), map[], 2, None, [0, 3, 4]);
  }

  lemma StaleOther(s: State) returns (t: State)
    requires Shows(s, V4(), map[])
    ensures Step(s, Store(2, 7, Relaxed, 0), t) && Shows(t, V5(), G5()) && t.acqCv == s.acqCv
  {
    hide Step;
    hide AddedPruned;
    Views();
    Graph5();
    assert HbStop([0, 3, 5], V4().lists[1]) == Some(W);
    QuietSource(s, V4(), map[], Cur(X, Relaxed, [0, 3, 5]), false, 1);
    t := StoreTakes(s, V4(), map[], X, Relaxed, [0, 3, 5], 1, Some(W), G5());
  }

  lemma StaleUpdate(s: State) returns (t: State)
    requires Shows(s, V5(), G5())
    ensures Step(s, Update(1, 7, Relaxed, FetchOp, W, 0, 0), t) && t.graph == G6()
  {
    hide Step;
    hide AddedRmw;
    Views();
    Graph6();
    assert HbStop([0, 6], V5().lists[1]) == Some(W);
    assert HbStop([0, 6], V5().lists[2]) == HbStop([0, 6], []);
    QuietSource(s, V5(), G5(), Cur(R, Relaxed, [0, 6]), true, 1);
    QuietTarget(s, V5(), G5(), Cur(R, Relaxed, [0, 6]), W);
    t := UpdateTakes(s, V5(), G5(), R, [0, 6], W, 1, Some(W), G6());
  }

  /** Up to thread 2's store. */
  lemma StalePrefix() returns (ss: seq<State>, ls: seq<Label>)
    ensures IsRun(ss, ls) && |ls| == 5 && Shows(ss[5], V5(), G5()) && ss[5].acqCv == map[]
    ensures ls == [Sync(1, 0, None), Store(1, 7, Relaxed, 0), Spawn(1, 0), Sync(2, 0, None), Store(2, 7, Relaxed, 0)]
  {
    hide Step;
    hide Shows;
    InitShows();
    var s1 := MainStart(Init());
    var s2 := StaleStore(s1);
    var s3, s4 := StaleSpawn(s2);
    var s5 := StaleOther(s4);
    ss := [Init(), s1, s2, s3, s4, s5];
    ls := [Sync(1, 0, None), Store(1, 7, Relaxed, 0), Spawn(1, 0), Sync(2, 0, None), Store(2, 7, Relaxed, 0)];
  }

  /**
   A run of six steps, thread starts included: thread 1 stores and creates thread 2, thread 2
   stores, thread 1 updates its own store. The RMW reaches thread 2's store, and the clock test denies it.
   */
  lemma StaleRun() returns (ss: seq<State>, ls: seq<Label>)
    ensures IsRun(ss, ls) && |ls| == 6 && ls[5] == Update(1, 7, Relaxed, FetchOp, W, 0, 0)
    ensures Reach(ss[6].graph, R, X) && !Test(ss[6].graph, R, X)
  {
    hide Step;
    hide Shows;
    ss, ls := StalePrefix();
    var t := StaleUpdate(ss[5]);
    ss, ls := ss + [t], ls + [Update(1, 7, Relaxed, FetchOp, W, 0, 0)];
    ReachEdge(G6(), R, X);
  }

  // ----- the read that closes a cycle -----

  /** After thread 1 created thread 2. */
  function B2(): View {
    View(2, [[], [], []], [[], [], []], [[], [0, 2], [0, 2]], map[], [], map[])
  }

  /** After thread 2's start. */
  function B3(): View {
    B2().(used := 3, cvs := [[], [0, 2], [0, 2, 3]])
  }

  /** After thread 1 created thread 3. */
  function B4(): View {
    View(4, [[], [], [], []], [[], [], [], []], [[], [0, 4], [0, 2, 3], [0, 4]], map[], [], map[])
  }

  /** After thread 3's start. */
  function B5(): View {
    B4().(used := 5, cvs := [[], [0, 4], [0, 2, 3], [0, 4, 0, 5]])
  }

  /** After thread 1's store. */
  function B6(): View {
    View(6, [[], [P], [], []], [[], [P], [], []], [[], [0, 6], [0, 2, 3], [0, 4, 0, 5]], map[P := WriteInfo(Relaxed, [0, 6])], [], map[])
  }

  /** After thread 2's store. */
  function B7(): View {
    View(7, [[], [P], [Y], []], [[], [P], [Y], []], [[], [0, 6], [0, 2, 7], [0, 4, 0, 5]],
         map[P := WriteInfo(Relaxed, [0, 6]), Y := WriteInfo(Relaxed, [0, 2, 7])], [], map[])
  }

  /** After thread 3's RMW. */
  function B8(): View {
    View(8, [[], [P], [Y], [U]], [[], [P], [Y], [U]], [[], [0, 6], [0, 2, 7], [0, 4, 0, 8]],
         map[P := WriteInfo(Relaxed, [0, 6]), Y := WriteInfo(Relaxed, [0, 2, 7]), U := RmwInfo(P, [0, 4, 0, 8])], [], map[])
  }

  const L := Act(2, 9, 7)   // thread 2 reads the RMW
  const M := Act(1, 10, 7)  // thread 1 reads thread 2's store

  /** After thread 2's load. */
  function B9(): View {
    View(9, [[], [P], [Y, L], [U]], [[], [P], [Y], [U]], [[], [0, 6], [0, 2, 9], [0, 4, 0, 8]],
         B8().info[L := ReadInfo(Relaxed, U, [0, 2, 9])], [], map[])
  }

  /** After thread 1's load. */
  function B10(): View {
    View(10, [[], [P, M], [Y, L], [U]], [[], [P], [Y], [U]], [[], [0, 10], [0, 2, 9], [0, 4, 0, 8]],
         B9().info[M := ReadInfo(Relaxed, Y, [0, 10])], [], map[])
  }

  lemma ViewsA()
    ensures SpawnedView(V1(), 1, [0, 2]) == B2() && SyncedView(B2(), 2, [0, 2, 3]) == B3()
    ensures SpawnedView(B3(), 1, [0, 4]) == B4() && SyncedView(B4(), 3, [0, 4, 0, 5]) == B5()
  {
    assert SpawnedView(V1(), 1, [0, 2]).lists == B2().lists && SpawnedView(V1(), 1, [0, 2]).cvs == B2().cvs;
    assert SyncedView(B2(), 2, [0, 2, 3]).cvs == B3().cvs && SyncedView(B4(), 3, [0, 4, 0, 5]).cvs == B5().cvs;
    assert SpawnedView(B3(), 1, [0, 4]).lists == B4().lists && SpawnedView(B3(), 1, [0, 4]).cvs == B4().cvs;
  }

  lemma ViewsB()
    ensures ViewOf(B5(), 1, WriteInfo(Relaxed, [0, 6])) == B6() && ViewOf(B6(), 2, WriteInfo(Relaxed, [0, 2, 7])) == B7()
  {
    assert [] + [P] == [P] && [] + [Y] == [Y];
    assert ViewOf(B5(), 1, WriteInfo(Relaxed, [0, 6])).lists == B6().lists;
    assert ViewOf(B6(), 2, WriteInfo(Relaxed, [0, 2, 7])).lists == B7().lists;
  }

  lemma ViewsC()
    ensures ViewOf(B7(), 3, RmwInfo(P, [0, 4, 0, 8])) == B8() && ViewOf(B8(), 2, ReadInfo(Relaxed, U, [0, 2, 9])) == B9()
    ensures ViewOf(B9(), 1, ReadInfo(Relaxed, Y, [0, 10])) == B10()
  {
    assert [] + [U] == [U] && [Y] + [L] == [Y, L] && [P] + [M] == [P, M];
    assert ViewOf(B7(), 3, RmwInfo(P, [0, 4, 0, 8])).lists == B8().lists;
    assert ViewOf(B8(), 2, ReadInfo(Relaxed, U, [0, 2, 9])).lists == B9().lists;
    assert ViewOf(B9(), 1, ReadInfo(Relaxed, Y, [0, 10])).lists == B10().lists;
  }

  lemma Stamps()
    ensures Stamp([0, 1], 1, 2) == [0, 2] && Stamp([0, 2], 2, 3) == [0, 2, 3] && Stamp([0, 2], 1, 4) == [0, 4]
    ensures Stamp([0, 4], 3, 5) == [0, 4, 0, 5] && Stamp([0, 4], 1, 6) == [0, 6] && Stamp([0, 2, 3], 2, 7) == [0, 2, 7]
    ensures Stamp([0, 4, 0, 5], 3, 8) == [0, 4, 0, 8] && Stamp([0, 2, 7], 2, 9) == [0, 2, 9] && Stamp([0, 6], 1, 10) == [0, 10]
  {
  }

  function G8(): Graph {
    map[P := Node([U], [], Some(U), [0, 6]), U := Node([], [P], None, [0, 6, 0, 8])]
  }

  function G9(): Graph {
    map[P := Node([U], [], Some(U), [0, 6]), Y := Node([U], [], None, [0, 0, 7]), U := Node([], [P, Y], None, [0, 6, 7, 8])]
  }

  function G10(): Graph {
    map[P := Node([U], [], Some(U), [0, 6]), Y := Node([U], [U], None, [0, 6, 7, 8]), U := Node([Y], [P, Y], None, [0, 6, 7, 8])]
  }

  /** G8 before the edge from P to U. */
  function H8(): Graph {
    map[P := Node([], [], Some(U), [0, 6]), U := Node([], [], None, [0, 0, 0, 8])]
  }

  lemma Splice8()
    ensures Spliced(WithNode(WithNode(map[], P), U), P, U, H8())
  {
    assert FreshNode(P).cv == [0, 6] && FreshNode(U).cv == [0, 0, 0, 8];
  }

  lemma Graph8()
    ensures AddedRmw(WithNode(WithNode(map[], P), U), P, U, G8())
  {
    Splice8();
    hide Spliced;
    assert [] + [U] == [U] && [] + [P] == [P];
    var h := WithEdge(H8(), P, U);
    assert Join([0, 6], [0, 0, 0, 8]) == [0, 6, 0, 8];
    assert Get(h[P].cv, 1) == 6;
    PushOne(h, P, U, [0, 6, 0, 8]);
    assert h[U := h[U].(cv := [0, 6, 0, 8])] == G8();
  }

  lemma Graph9()
    ensures AddedOne(G8(), Y, U, false, G9())
  {
    var g := WithNode(WithNode(G8(), Y), U);
    assert FreshNode(Y).cv == [0, 0, 7];
    assert [] + [U] == [U] && [P] + [Y] == [P, Y];
    var h := WithEdge(g, Y, U);
    assert Join([0, 0, 7], [0, 6, 0, 8]) == [0, 6, 7, 8];
    assert Get(h[Y].cv, 2) == 7;
    PushOne(h, Y, U, [0, 6, 7, 8]);
    assert h[U := h[U].(cv := [0, 6, 7, 8])] == G9();
    AddPlain(g, Y, U, G9());
  }

  lemma Graph10()
    ensures AddedOne(G9(), P, Y, false, G10())
  {
    var g := G9();
    assert WithNode(WithNode(g, P), Y) == g;
    assert [] + [U] == [U] && [] + [Y] == [Y];
    var h := WithEdge(g, U, Y);
    assert Join([0, 6, 7, 8], [0, 0, 7]) == [0, 6, 7, 8];
    assert Get(h[U].cv, 1) == 6;
    PushOne(h, U, Y, [0, 6, 7, 8]);
    assert h[Y := h[Y].(cv := [0, 6, 7, 8])] == G10();
    AddBehind(g, P, U, Y, G10());
  }

  lemma CycleThreads(s: State) returns (s2: State, s3: State, s4: State, s5: State)
    requires Shows(s, V1(), map[])
    ensures Step(s, Spawn(1, 0), s2) && Step(s2, Sync(2, 0, None), s3) && Step(s3, Spawn(1, 0), s4) && Step(s4, Sync(3, 0, None), s5)
    ensures Shows(s5, B5(), map[]) && s5.acqCv == s.acqCv
  {
    hide Step;
    ViewsA();
    Stamps();
    s2 := SpawnTakes(s, V1(), map[], 1, [0, 2]);
    s3 := SyncTakes(s2, B2(), map[], 2, None, [0, 2, 3]);
    s4 := SpawnTakes(s3, B3(), map[], 1, [0, 4]);
    s5 := SyncTakes(s4, B4(), map[], 3, None, [0, 4, 0, 5]);
  }

  /** Thread 1 starts and creates threads 2 and 3, which start. */
  lemma ThreeStart() returns (ss: seq<State>, ls: seq<Label>)
    ensures IsRun(ss, ls) && |ls| == 5 && Shows(ss[5], B5(), map[]) && ss[5].acqCv == map[]
    ensures ls == [Sync(1, 0, None), Spawn(1, 0), Sync(2, 0, None), Spawn(1, 0), Sync(3, 0, None)]
  {
    hide Step;
    hide Shows;
    InitShows();
    var s1 := MainStart(Init());
    var s2, s3, s4, s5 := CycleThreads(s1);
    ss := [Init(), s1, s2, s3, s4, s5];
    ls := [Sync(1, 0, None), Spawn(1, 0), Sync(2, 0, None), Spawn(1, 0), Sync(3, 0, None)];
  }

  lemma CycleStore(s: State) returns (t: State)
    requires Shows(s, B5(), map[])
    ensures Step(s, Store(1, 7, Relaxed, 0), t) && Shows(t, B6(), map[])
  {
    hide Step;
    ViewsB();
    Stamps();
    AddNone(map[], P);
    QuietSource(s, B5(), map[], Cur(P, Relaxed, [0, 6]), false, 1);
    t := StoreTakes(s, B5(), map[], P, Relaxed, [0, 6], 1, None, map[]);
  }

  lemma CycleOther(s: State) returns (t: State)
    requires Shows(s, B6(), map[])
    ensures Step(s, Store(2, 7, Relaxed, 0), t) && Shows(t, B7(), map[])
  {
    hide Step;
    ViewsB();
    Stamps();
    AddNone(map[], Y);
    assert HbStop([0, 2, 7], B6().lists[1]) == HbStop([0, 2, 7], []);
    QuietSource(s, B6(), map[], Cur(Y, Relaxed, [0, 2, 7]), false, 2);
    t := StoreTakes(s, B6(), map[], Y, Relaxed, [0, 2, 7], 2, None, map[]);
  }

  lemma CycleUpdate(s: State) returns (t: State)
    requires Shows(s, B7(), map[])
    ensures Step(s, Update(3, 7, Relaxed, FetchOp, P, 0, 0), t) && Shows(t, B8(), G8())
  {
    hide Step;
    hide AddedRmw;
    ViewsC();
    Stamps();
    Graph8();
    assert HbStop([0, 4, 0, 8], B7().lists[1]) == HbStop([0, 4, 0, 8], []);
    assert HbStop([0, 4, 0, 8], B7().lists[2]) == HbStop([0, 4, 0, 8], []);
    QuietSource(s, B7(), map[], Cur(U, Relaxed, [0, 4, 0, 8]), true, 3);
    QuietTarget(s, B7(), map[], Cur(U, Relaxed, [0, 4, 0, 8]), P);
    t := UpdateTakes(s, B7(), map[], U, [0, 4, 0, 8], P, 1, None, G8());
  }

  lemma CycleLoad(s: State) returns (t: State)
    requires Shows(s, B8(), G8())
    ensures Step(s, Load(2, 7, Relaxed, U, 0, false), t) && Shows(t, B9(), G9()) && t.graph == G9()
  {
    hide Step;
    hide AddedOne;
    ViewsC();
    Stamps();
    Graph9();
    assert HbStop([0, 2, 9], B8().lists[1]) == HbStop([0, 2, 9], []);
    assert HbStop([0, 2, 9], B8().lists[3]) == HbStop([0, 2, 9], []);
    assert HbStop([0, 2, 9], B8().lists[2]) == Some(Y);
    QuietTarget(s, B8(), G8(), Cur(L, Relaxed, [0, 2, 9]), U);
    AddLast(G8(), Y, U, false, G9());
    t := LoadTakes(s, B8(), G8(), L, Relaxed, [0, 2, 9], U, 3, Some(Y), [0, 2, 9], G9());
  }

  lemma CycleClose(s: State) returns (t: State)
    requires Shows(s, B9(), G9())
    ensures Step(s, Load(1, 7, Relaxed, Y, 0, false), t) && t.graph == G10() && Shows(t, B10(), G10())
    ensures ReadAccepts(s, Begin(s, 1, 7, Relaxed), Y)
  {
    hide Step;
    hide AddedOne;
    ViewsC();
    Stamps();
    Graph10();
    assert HbStop([0, 10], [Y]) == HbStop([0, 10], []);
    assert B9().lists[2][..1] == [Y];
    assert HbStop([0, 10], B9().lists[2]) == HbStop([0, 10], [Y]);
    assert HbStop([0, 10], B9().lists[3]) == HbStop([0, 10], []);
    assert HbStop([0, 10], B9().lists[1]) == Some(P);
    QuietTarget(s, B9(), G9(), Cur(M, Relaxed, [0, 10]), Y);
    AddLast(G9(), P, Y, false, G10());
    BeginIs(s, B9(), G9(), M, Relaxed, [0, 10]);
    t := LoadTakes(s, B9(), G9(), M, Relaxed, [0, 10], Y, 2, Some(P), [0, 10], G10());
  }

  lemma CycleGraphs()
    ensures Acyclic(G9()) && !Acyclic(G10())
  {
    ChainedAcyclic(G9());
    ReachEdge(G10(), Y, U);
    assert Edge(G10(), U, Y);
  }

  lemma CyclePrefix() returns (ss: seq<State>, ls: seq<Label>)
    ensures IsRun(ss, ls) && |ls| == 9 && Shows(ss[9], B9(), G9())
  {
    hide Step;
    hide Shows;
    ss, ls := ThreeStart();
    var s6 := CycleStore(ss[5]);
    var s7 := CycleOther(s6);
    var s8 := CycleUpdate(s7);
    var s9 := CycleLoad(s8);
    ss := ss + [s6, s7, s8, s9];
    ls := ls + [Store(1, 7, Relaxed, 0), Store(2, 7, Relaxed, 0), Update(3, 7, Relaxed, FetchOp, P, 0, 0), Load(2, 7, Relaxed, U, 0, false)];
  }

  /**
   A run of ten steps: three threads start, thread 1 stores, thread 2 stores, thread 3 updates
   thread 1's store, thread 2 reads that RMW, and thread 1 reads thread 2's store. The
   last read passes its check on an acyclic graph, and leaves a cyclic one.
   */
  lemma CycleRun() returns (ss: seq<State>, ls: seq<Label>)
    ensures IsRun(ss, ls) && |ls| == 10 && ls[9] == Load(1, 7, Relaxed, Y, 0, false)
    ensures ReadAccepts(ss[9], Begin(ss[9], 1, 7, Relaxed), Y)
    ensures Acyclic(ss[9].graph) && !Acyclic(ss[10].graph)
    ensures Shows(ss[10], B10(), G10())
  {
    hide Step;
    hide Begin;
    hide ReadAccepts;
    hide Shows;
    hide Acyclic;
    ss, ls := CyclePrefix();
    assert ss[9].graph == G9() by {
      ShownGraph(ss[9], B9(), G9());
    }
    var t := CycleClose(ss[9]);
    ss, ls := ss + [t], ls + [Load(1, 7, Relaxed, Y, 0, false)];
    CycleGraphs();
  }

  lemma ShownGraph(s: State, v: View, g: Graph)
    requires Shows(s, v, g)
    ensures s.graph == g && s.used == v.used && s.threads == |v.lists|
  {
  }

  // ----- a read that rejects every candidate -----

  /** After thread 2's finish. */
  function B11(): View {
    B10().(used := 11, cvs := [[], [0, 10], [0, 2, 11], [0, 4, 0, 8]])
  }

  /** After thread 1 joined thread 2. */
  function B12(): View {
    B10().(used := 12, cvs := [[], [0, 12, 11], [0, 2, 11], [0, 4, 0, 8]])
  }

  lemma JoinSteps(s: State) returns (s1: State, s2: State)
    requires Shows(s, B10(), G10())
    ensures Step(s, Sync(2, 0, None), s1) && Step(s1, Sync(1, 0, Some(Act(2, 11, 0))), s2) && Shows(s2, B12(), G10())
  {
    hide Step;
    hide Shows;
    assert Stamp([0, 2, 9], 2, 11) == [0, 2, 11] && Stamp([0, 10], 1, 12) == [0, 12];
    assert Join([0, 12], [0, 2, 11]) == [0, 12, 11];
    assert SyncedView(B10(), 2, [0, 2, 11]).cvs == B11().cvs && SyncedView(B11(), 1, [0, 12, 11]).cvs == B12().cvs;
    ShownGraph(s, B10(), G10());
    s1 := SyncTakes(s, B10(), G10(), 2, None, [0, 2, 11]);
    ShownGraph(s1, B11(), G10());
    s2 := SyncTakes(s1, B11(), G10(), 1, Some(Act(2, 11, 0)), [0, 12, 11]);
  }

  lemma {:induction false} CandidateListed(s: State, c: Cur, p: Purpose, l: seq<Act>, history: int, w: Act)
    requires w in Candidates(s, c, p, l, history)
    ensures w in l
    decreases |l|
  {
    hide AllowsRead;
    if w != l[|l| - 1] {
      var rest := l[..|l| - 1];
      if w in Candidates(s, c, p, rest, history - 1) {
        CandidateListed(s, c, p, rest, history - 1, w);
      } else {
        CandidateListed(s, c, p, rest, history, w);
      }
    }
  }

  lemma {:induction false} CandidatesShown(s: State, v: View, g: Graph, c: Cur, p: Purpose, history: int, k: nat, w: Act) returns (t: nat)
    requires Shows(s, v, g) && c.act.loc == 7 && k <= s.threads && w in MayReadFrom(s, c, p, history, k)
    ensures t < s.threads && w in v.writes[t]
  {
    assert ShowsThread(s, v, k - 1);
    if w in Candidates(s, c, p, At(s.wlists, 7, k - 1), history) {
      CandidateListed(s, c, p, At(s.wlists, 7, k - 1), history, w);
      t := k - 1;
    } else {
      t := CandidatesShown(s, v, g, c, p, history, k - 1, w);
    }
  }

  /** Thread 1 knows its own read of Y and thread 2's read of U. */
  lemma JoinTargets(s: State, c: Cur, w: Act)
    requires Shows(s, B12(), G10()) && c == Cur(Act(1, 13, 7), Relaxed, [0, 13, 11])
    ensures ReadTarget(s, c, w, 1) == Some(Y) && ReadTarget(s, c, w, 2) == Some(U)
  {
    assert ShowsThread(s, B12(), 1) && ShowsThread(s, B12(), 2);
    assert M in B12().info && L in B12().info;
    assert ReadStop(s, c, w, 1, [P, M]) == Some(M) && ReadStop(s, c, w, 2, [Y, L]) == Some(L);
    assert LocalFence(s, c) == None;
    assert CvOf(s.info, M) == [0, 10];
    assert !SkipsRead(s, c, w, 2);
  }

  lemma Rejected(s: State, c: Cur, w: Act)
    requires Shows(s, B12(), G10()) && c == Cur(Act(1, 13, 7), Relaxed, [0, 13, 11]) && (w == P || w == Y || w == U)
    ensures !ReadAccepts(s, c, w)
  {
    ShownGraph(s, B12(), G10());
    JoinTargets(s, c, w);
    hide Shows;
    hide ReadTarget;
    assert !Passes(s, c, w, if w == Y then 2 else 1);
  }

  lemma AllRejected(s: State)
    requires Shows(s, B12(), G10())
    ensures Stuck(s, Begin(s, 1, 7, Relaxed), PlainRead, 0)
  {
    hide ReadAccepts;
    hide MayReadFrom;
    var c := Cur(Act(1, 13, 7), Relaxed, [0, 13, 11]);
    assert Stamp([0, 12, 11], 1, 13) == [0, 13, 11];
    ShownGraph(s, B12(), G10());
    BeginIs(s, B12(), G10(), c.act, Relaxed, c.cv);
    hide Shows;
    forall w | w in MayReadFrom(s, c, PlainRead, 0, s.threads) ensures !ReadAccepts(s, c, w) {
      var t := CandidatesShown(s, B12(), G10(), c, PlainRead, 0, s.threads, w);
      assert w == P || w == Y || w == U;
      Rejected(s, c, w);
    }
  }

  /**
   The same run with two more steps: thread 2 finishes and thread 1 joins it. Thread 1 now knows
   both writes on the cycle, and rejects every candidate of its next load.
   */
  lemma StuckRun() returns (ss: seq<State>, ls: seq<Label>)
    ensures IsRun(ss, ls) && |ls| == 12 && Stuck(ss[12], Begin(ss[12], 1, 7, Relaxed), PlainRead, 0)
    ensures IsWrite(ss[12].info, P) && IsWrite(ss[12].info, Y) && P.loc == Y.loc == 7
  {
    hide Step;
    hide Begin;
    hide Stuck;
    ss, ls := CycleRun();
    var s11, s12 := JoinSteps(ss[10]);
    ss, ls := ss + [s11, s12], ls + [Sync(2, 0, None), Sync(1, 0, Some(Act(2, 11, 0)))];
    AllRejected(s12);
    assert P in B12().info && Y in B12().info;
  }
}
