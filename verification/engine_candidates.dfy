/**
 Which writes a read may observe: the candidate set of `build_may_read_from`, in terms of the
 recorded actions and of happens-before alone.
 */
module EngineCandidates {
  import opened Options
  import opened Clocks
  import opened MoGraph
  import opened Actions
  import opened Coherence
  import opened ExecutionState
  import opened Engine
  import opened EngineClocks
  import opened EngineProgress
  import opened EngineSync
  import opened EngineValues

  /** `y` is the youngest seq_cst write of the location. */
  ghost predicate LastScWrite(m: Infos, loc: nat, y: Act) {
    ScWrite(m, y) && y.loc == loc && forall z :: ScWrite(m, z) && z.loc == loc ==> z.seqno <= y.seqno
  }

  /** Paragraph 3 of section 29.3: the last seq_cst write, or one that is neither seq_cst nor happens before it. */
  ghost predicate ScAllows(m: Infos, loc: nat, w: Act)
    requires w in m
  {
    forall y :: LastScWrite(m, loc, y) ==> w == y || (!m[w].order.SeqCst? && !HappensBefore(m, w, y))
  }

  /** What thread `t` knows: its own actions, and what happens before one of them or before its creation. */
  ghost predicate KnownTo(s: State, t: nat, x: Act) {
    || x.tid == t
    || (exists b :: b in s.info && b.tid == t && HappensBefore(s.info, x, b))
    || (t in s.creation && s.creation[t] in s.info && HappensBefore(s.info, x, s.creation[t]))
  }

  /** A later write of `w`'s thread to the location, known to the reader, hides `w`. */
  ghost predicate Hidden(s: State, t: nat, w: Act) {
    exists v :: IsWrite(s.info, v) && v.loc == w.loc && v.tid == w.tid && v.seqno > w.seqno && KnownTo(s, t, v)
  }

  ghost predicate ReadByRmw(m: Infos, w: Act) {
    exists r :: r in m && m[r].kind.Rmw? && m[r].rf == Some(w)
  }

  /** A read by thread `t` may observe `w`. */
  ghost predicate Readable(s: State, t: nat, loc: nat, order: Order, p: Purpose, w: Act) {
    && IsWrite(s.info, w) && w.loc == loc && !Hidden(s, t, w)
    && (order.SeqCst? ==> ScAllows(s.info, loc, w))
    && (Succeeds(s.info, w, p) ==> !ReadByRmw(s.info, w))
  }

  /** The readable writes of `w`'s thread that are more recent than `w`. */
  ghost function Newer(s: State, t: nat, loc: nat, order: Order, p: Purpose, w: Act): set<Act> {
    set v | v in s.info && Readable(s, t, loc, order, p, v) && v.tid == w.tid && v.seqno > w.seqno
  }

  // ----- the tests of the scan -----

  ghost predicate Prepared(s: State) {
    Inv(s) && SyncInv(s) && WritesInv(s) && ScInv(s)
  }

  lemma KnownIff(s: State, c: Cur, x: Act)
    requires c == Begin(s, c.act.tid, c.act.loc, c.order) && Inv(s) && SyncInv(s) && x in s.info
    ensures HbCur(c, x) <==> KnownTo(s, c.act.tid, x)
  {
    var tid := c.act.tid;
    assert WfAct(s.info, s.used, x);
    BeginOk(s, tid, c.act.loc, c.order);
    ParentOfNew(s, c);
    if HbCur(c, x) && x.tid != tid {
      assert x.seqno <= Get(ParentCv(s, tid), x.tid);
      if tid in s.last {
        assert HappensBefore(s.info, x, s.last[tid]);
      }
    }
    if b :| b in s.info && b.tid == tid && HappensBefore(s.info, x, b) {
      assert Get(s.info[b].cv, x.tid) <= Get(c.cv, x.tid);
    }
    if tid in s.creation && s.creation[tid] in s.info && HappensBefore(s.info, x, s.creation[tid]) {
      assert Get(CvOf(s.info, s.creation[tid]), x.tid) <= Get(c.cv, x.tid);
    }
  }

  lemma LastScIs(s: State, loc: nat, y: Act)
    requires Inv(s) && ScInv(s)
    ensures LastScWrite(s.info, loc, y) <==> loc in s.lastSc && y == s.lastSc[loc]
  {
    if LastScWrite(s.info, loc, y) {
      assert ScLast(s, y);
      assert !SameSeq(y, s.lastSc[loc]) || y == s.lastSc[loc];
    }
    forall z | loc in s.lastSc && ScWrite(s.info, z) && z.loc == loc ensures z.seqno <= s.lastSc[loc].seqno {
      assert ScLast(s, z);
    }
  }

  lemma HasRmwIff(s: State, w: Act)
    requires Inv(s)
    ensures HasRmw(s.graph, w) <==> ReadByRmw(s.info, w)
  {
    if HasRmw(s.graph, w) {
      assert RmwOf(s.graph, w, s.graph[w].rmw.value);
    }
    if r :| r in s.info && s.info[r].kind.Rmw? && s.info[r].rf == Some(w) {
      assert RmwRecorded(s.info, s.graph, r);
      assert RmwOf(s.graph, w, r);
    }
  }

  /** The two exclusions, in terms of what is recorded. */
  ghost predicate Allowed(s: State, loc: nat, order: Order, p: Purpose, w: Act)
    requires w in s.info
  {
    (order.SeqCst? ==> ScAllows(s.info, loc, w)) && (Succeeds(s.info, w, p) ==> !ReadByRmw(s.info, w))
  }

  lemma AllowedIff(s: State, c: Cur, p: Purpose, w: Act)
    requires Inv(s) && ScInv(s) && IsWrite(s.info, w) && w.loc == c.act.loc
    ensures AllowsRead(s, c, p, w) <==> Allowed(s, c.act.loc, c.order, p, w)
  {
    HasRmwIff(s, w);
    SucceedsIff(s.info, w, p);
    forall y ensures LastScWrite(s.info, c.act.loc, y) <==> c.act.loc in s.lastSc && y == s.lastSc[c.act.loc] {
      LastScIs(s, c.act.loc, y);
    }
    if SeqCstAct(s.info, w) {
      assert ScLast(s, w);
    }
    hide Inv;
    hide ScInv;
    hide Succeeds;
    hide LastScWrite;
    if c.act.loc in s.lastSc {
      assert LastScWrite(s.info, c.act.loc, s.lastSc[c.act.loc]);
    }
  }

  // ----- one list -----

  ghost function AllowedAfter(s: State, c: Cur, p: Purpose, l: seq<Act>, w: Act): set<Act> {
    set v | v in l && AllowsRead(s, c, p, v) && v.seqno > w.seqno
  }

  ghost predicate Taken(s: State, c: Cur, p: Purpose, l: seq<Act>, history: int, w: Act) {
    && w in l && AllowsRead(s, c, p, w) && (forall v :: v in l && v.seqno > w.seqno ==> !HbCur(c, v))
    && (history > 0 ==> |AllowedAfter(s, c, p, l, w)| < history)
  }

  /** What the most recent write of a list does to the others. */
  lemma TakenSnoc(s: State, c: Cur, p: Purpose, rest: seq<Act>, x: Act, history: int, w: Act)
    requires w != x && forall v :: v in rest ==> v.seqno < x.seqno
    ensures Taken(s, c, p, rest + [x], history, w) <==>
            !HbCur(c, x) && (AllowsRead(s, c, p, x) ==> history != 1)
            && Taken(s, c, p, rest, if AllowsRead(s, c, p, x) then history - 1 else history, w)
  {
    hide AllowsRead;
    hide HbCur;
    var l := rest + [x];
    var more := AllowedAfter(s, c, p, l, w);
    if w in rest {
      assert x in l && forall v :: v in l <==> v in rest || v == x;
      if AllowsRead(s, c, p, x) {
        assert more == AllowedAfter(s, c, p, rest, w) + {x};
      } else {
        assert more == AllowedAfter(s, c, p, rest, w);
      }
    } else {
      assert w !in l;
    }
  }

  lemma TakenLast(s: State, c: Cur, p: Purpose, rest: seq<Act>, x: Act, history: int)
    requires forall v :: v in rest ==> v.seqno < x.seqno
    ensures Taken(s, c, p, rest + [x], history, x) <==> AllowsRead(s, c, p, x)
  {
    hide AllowsRead;
    hide HbCur;
    var l := rest + [x];
    assert l[|l| - 1] == x;
    assert AllowedAfter(s, c, p, l, x) == {};
  }

  lemma {:induction false} CandidatesExact(s: State, c: Cur, p: Purpose, l: seq<Act>, history: int, w: Act)
    requires Sorted(l)
    ensures w in Candidates(s, c, p, l, history) <==> Taken(s, c, p, l, history, w)
    decreases |l|
  {
    hide AllowsRead;
    hide HbCur;
    if l != [] {
      var x, rest := l[|l| - 1], l[..|l| - 1];
      assert l == rest + [x] && forall v :: v in rest ==> v.seqno < x.seqno;
      CandidatesExact(s, c, p, rest, if AllowsRead(s, c, p, x) then history - 1 else history, w);
      hide Taken;
      if w == x {
        TakenLast(s, c, p, rest, x, history);
        LastIn(s, c, p, l, history);
      } else {
        TakenSnoc(s, c, p, rest, x, history, w);
      }
    }
  }

  lemma LastIn(s: State, c: Cur, p: Purpose, l: seq<Act>, history: int)
    requires l != [] && Sorted(l)
    ensures l[|l| - 1] in Candidates(s, c, p, l, history) <==> AllowsRead(s, c, p, l[|l| - 1])
  {
    hide AllowsRead;
    hide HbCur;
    if !AllowsRead(s, c, p, l[|l| - 1]) && l[|l| - 1] in Candidates(s, c, p, l, history) {
      CandidatesAllowed(s, c, p, l, history, l[|l| - 1]);
    }
  }

  // ----- all lists -----

  lemma {:induction false} FromOwnList(s: State, c: Cur, p: Purpose, history: int, k: nat, w: Act)
    requires Inv(s)
    ensures w in MayReadFrom(s, c, p, history, k) <==> w.tid < k && w in Candidates(s, c, p, At(s.wlists, c.act.loc, w.tid), history)
  {
    hide Candidates;
    if k > 0 {
      FromOwnList(s, c, p, history, k - 1, w);
      if w in Candidates(s, c, p, At(s.wlists, c.act.loc, k - 1), history) {
        CandidatesAllowed(s, c, p, At(s.wlists, c.act.loc, k - 1), history, w);
        assert WriteListOk(s, c.act.loc, k - 1);
      }
    }
  }

  lemma ListIs(s: State, loc: nat, t: nat, v: Act)
    requires Inv(s) && WritesInv(s)
    ensures v in At(s.wlists, loc, t) <==> IsWrite(s.info, v) && v.loc == loc && v.tid == t
    ensures Sorted(At(s.wlists, loc, t))
  {
    var l := At(s.wlists, loc, t);
    assert WriteListed(s, v) && WriteListOk(s, loc, t);
    if l != [] {
      assert l[0] in l && WriteListed(s, l[0]);
    }
  }

  /** No write known to the reader follows `w` in its thread's list: that is what being visible means. */
  lemma HiddenIff(s: State, c: Cur, w: Act)
    requires Prepared(s) && c == Begin(s, c.act.tid, c.act.loc, c.order) && w.loc == c.act.loc
    ensures Hidden(s, c.act.tid, w) <==> exists v :: v in At(s.wlists, w.loc, w.tid) && v.seqno > w.seqno && HbCur(c, v)
  {
    var lst := At(s.wlists, w.loc, w.tid);
    forall v ensures v in lst <==> IsWrite(s.info, v) && v.loc == w.loc && v.tid == w.tid {
      ListIs(s, w.loc, w.tid, v);
    }
    forall v | v in s.info ensures HbCur(c, v) <==> KnownTo(s, c.act.tid, v) {
      KnownIff(s, c, v);
    }
    hide Prepared;
    hide KnownTo;
    hide HbCur;
    if Hidden(s, c.act.tid, w) {
      var v :| IsWrite(s.info, v) && v.loc == w.loc && v.tid == w.tid && v.seqno > w.seqno && KnownTo(s, c.act.tid, v);
      assert v in lst;
    }
  }

  /** One thread's list gives its readable writes, and with a bound the most recent of them. */
  lemma TakenReadable(s: State, c: Cur, p: Purpose, history: int, w: Act)
    requires Prepared(s) && c == Begin(s, c.act.tid, c.act.loc, c.order)
    ensures Taken(s, c, p, At(s.wlists, c.act.loc, w.tid), history, w) <==>
            Readable(s, c.act.tid, c.act.loc, c.order, p, w)
            && (history > 0 ==> |Newer(s, c.act.tid, c.act.loc, c.order, p, w)| < history)
  {
    var lst := At(s.wlists, c.act.loc, w.tid);
    ListIs(s, c.act.loc, w.tid, w);
    if w in lst {
      AllowedIff(s, c, p, w);
      HiddenIff(s, c, w);
      if !Hidden(s, c.act.tid, w) && Allowed(s, c.act.loc, c.order, p, w) {
        NewerIs(s, c, p, w);
      }
    }
  }

  /** Whatever follows a visible write in its list is visible too. */
  lemma NewerIs(s: State, c: Cur, p: Purpose, w: Act)
    requires Prepared(s) && c == Begin(s, c.act.tid, c.act.loc, c.order) && IsWrite(s.info, w) && w.loc == c.act.loc && !Hidden(s, c.act.tid, w)
    ensures AllowedAfter(s, c, p, At(s.wlists, w.loc, w.tid), w) == Newer(s, c.act.tid, c.act.loc, c.order, p, w)
  {
    var lst := At(s.wlists, w.loc, w.tid);
    forall v ensures v in AllowedAfter(s, c, p, lst, w) <==> v in Newer(s, c.act.tid, c.act.loc, c.order, p, w) {
      ListIs(s, w.loc, w.tid, v);
      if v in lst && v.seqno > w.seqno {
        AllowedIff(s, c, p, v);
        assert Hidden(s, c.act.tid, v) ==> Hidden(s, c.act.tid, w);
      }
    }
  }

  // ----- every run -----

  lemma RunPrepared(ss: seq<State>, ls: seq<Label>, i: nat)
    requires IsRun(ss, ls) && i < |ss|
    ensures Prepared(ss[i])
  {
    RunInv(ss, ls, i);
    RunSync(ss, ls, i);
    RunWrites(ss, ls, i);
    RunScInv(ss, ls, i);
  }

  lemma CandidateReadable(s: State, c: Cur, p: Purpose, history: int, w: Act)
    requires Prepared(s) && c == Begin(s, c.act.tid, c.act.loc, c.order)
    ensures w in MayReadFrom(s, c, p, history, s.threads) <==>
            Readable(s, c.act.tid, c.act.loc, c.order, p, w)
            && (history > 0 ==> |Newer(s, c.act.tid, c.act.loc, c.order, p, w)| < history)
  {
    hide Taken;
    hide Readable;
    FromOwnList(s, c, p, history, s.threads, w);
    ListIs(s, c.act.loc, w.tid, w);
    CandidatesExact(s, c, p, At(s.wlists, c.act.loc, w.tid), history, w);
    TakenReadable(s, c, p, history, w);
    ReadableIn(s, c, p, w);
  }

  /** `rfs` holds exactly the writes `c` may observe, or with a bound the most recent of each thread. */
  ghost predicate AllReadable(s: State, c: Cur, p: Purpose, history: int, rfs: seq<Act>) {
    forall w :: w in rfs <==>
      Readable(s, c.act.tid, c.act.loc, c.order, p, w)
      && (history > 0 ==> |Newer(s, c.act.tid, c.act.loc, c.order, p, w)| < history)
  }

  lemma CandidatesReadable(s: State, c: Cur, p: Purpose, history: int)
    ensures Prepared(s) && c == Begin(s, c.act.tid, c.act.loc, c.order) ==>
              AllReadable(s, c, p, history, MayReadFrom(s, c, p, history, s.threads))
  {
    hide Prepared;
    hide Readable;
    hide MayReadFrom;
    if Prepared(s) && c == Begin(s, c.act.tid, c.act.loc, c.order) {
      forall w {
        CandidateReadable(s, c, p, history, w);
      }
    }
  }

  lemma ReadableIn(s: State, c: Cur, p: Purpose, w: Act)
    requires Inv(s)
    ensures Readable(s, c.act.tid, c.act.loc, c.order, p, w) ==> w.tid < s.threads
  {
    assert LastCovers(s, w);
  }

  /**
   In every run the candidates of a read without a history bound are exactly the writes it may
   observe: recorded writes of the location that no later write of their thread, known to the
   reader, hides; for a seq_cst read only the last seq_cst write and those that paragraph 3 of
   section 29.3 leaves; and for a read that will write only those that no RMW has read. With a
   bound each thread gives the most recent of these.
   */
  lemma RunCandidates(ss: seq<State>, ls: seq<Label>, i: nat, tid: nat, loc: nat, order: Order, p: Purpose, history: int, w: Act)
    requires IsRun(ss, ls) && i < |ss|
    ensures w in MayReadFrom(ss[i], Begin(ss[i], tid, loc, order), p, history, ss[i].threads) <==>
            Readable(ss[i], tid, loc, order, p, w)
            && (history > 0 ==> |Newer(ss[i], tid, loc, order, p, w)| < history)
  {
    RunPrepared(ss, ls, i);
    CandidateReadable(ss[i], Begin(ss[i], tid, loc, order), p, history, w);
  }

  /** In every run what a step reads is a write it may observe. */
  lemma RunReadsReadable(ss: seq<State>, ls: seq<Label>, i: nat)
    requires IsRun(ss, ls) && i < |ls| && Reads(ls[i])
    ensures Readable(ss[i], ls[i].tid, ls[i].loc, ls[i].order, if ls[i].Load? then PlainRead else ls[i].purpose, ls[i].rf)
  {
    var l := ls[i];
    assert Step(ss[i], l, ss[i + 1]);
    var p := if l.Load? then PlainRead else l.purpose;
    assert l.rf in MayReadFrom(ss[i], Begin(ss[i], l.tid, l.loc, l.order), p, l.history, ss[i].threads);
    RunCandidates(ss, ls, i, l.tid, l.loc, l.order, p, l.history, l.rf);
  }

  /** `y` is the youngest seq_cst write of `a`'s location older than `a`. */
  ghost predicate ScWriteBefore(m: Infos, a: Act, y: Act) {
    && ScWrite(m, y) && y.loc == a.loc && y.seqno < a.seqno
    && forall z :: ScWrite(m, z) && z.loc == a.loc && z.seqno < a.seqno ==> z.seqno <= y.seqno
  }

  /**
   In every run a seq_cst read observes the last seq_cst write to its location before it, or a write
   that is not seq_cst and does not happen before that one (paragraph 3 of section 29.3).
   */
  lemma RunScRead(ss: seq<State>, ls: seq<Label>, i: nat, a: Act, y: Act)
    requires IsRun(ss, ls) && i < |ss|
    requires a in ss[i].info && ss[i].info[a].rf.Some? && ss[i].info[a].order.SeqCst? && ScWriteBefore(ss[i].info, a, y)
    ensures var w := ss[i].info[a].rf.value;
            w in ss[i].info && (w == y || (!ss[i].info[w].order.SeqCst? && !HappensBefore(ss[i].info, w, y)))
  {
    hide Step;
    hide Inv;
    hide ClockOf;
    var j, n := RecordedAt(ss, ls, i, a);
    var s, m := ss[j], ss[i].info;
    assert Reads(ls[j]);
    RunReadsReadable(ss, ls, j);
    RunGrows(ss, ls, j, i);
    OlderThere(ss, ls, j, i, y);
    GrowsAt(s.info, m, y);
    GrowsAt(s.info, m, ls[j].rf);
    assert LastScWrite(s.info, a.loc, y) by {
      forall z | ScWrite(s.info, z) && z.loc == a.loc ensures z.seqno <= y.seqno {
        RunInv(ss, ls, j);
        SeqnoBound(s, z);
        GrowsAt(s.info, m, z);
        assert ScWrite(m, z);
      }
    }
  }

  lemma SeqnoBound(s: State, z: Act)
    requires Inv(s) && z in s.info
    ensures z.seqno <= s.used
  {
    assert WfAct(s.info, s.used, z);
  }
}
