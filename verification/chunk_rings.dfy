/**
 The rings that hold chunks of one size together through their `fd` and `bk` pointers.
 */
module ChunkRings {
  import opened Sequences
  import opened TreeBins

  type Rings = map<nat, seq<nat>>  // the chunks of each size in use, in ring order

  function NextIn(n: nat, k: nat): (j: nat)
    requires k < n
    ensures j < n
  {
    if k + 1 == n then 0 else k + 1
  }

  function PrevIn(n: nat, k: nat): (j: nat)
    requires k < n
    ensures j < n
  {
    if k == 0 then n - 1 else k - 1
  }

  ghost predicate RingLink(cs: Chunks, r: seq<nat>, s: nat, k: nat)
    requires k < |r|
  {
    r[k] in cs && cs[r[k]].size == s && cs[r[k]].fd == r[NextIn(|r|, k)] && cs[r[k]].bk == r[PrevIn(|r|, k)]
  }

  ghost predicate IsRing(cs: Chunks, r: seq<nat>, s: nat) {
    |r| > 0 && Distinct(r) && forall k {:trigger RingLink(cs, r, s, k)} :: 0 <= k < |r| ==> RingLink(cs, r, s, k)
  }

  ghost predicate RingOk(cs: Chunks, rings: Rings, s: nat) {
    s in rings ==> IsRing(cs, rings[s], s)
  }

  /** Rings do not notice changes to other chunks, or to fields other than their own. */
  lemma RingFrame(cs: Chunks, cs': Chunks, r: seq<nat>, s: nat)
    requires IsRing(cs, r, s)
    requires forall a :: a in r ==> a in cs && a in cs' && cs'[a].size == cs[a].size && cs'[a].fd == cs[a].fd && cs'[a].bk == cs[a].bk
    ensures IsRing(cs', r, s)
  {
    forall k | 0 <= k < |r| ensures RingLink(cs', r, s, k) {
      assert RingLink(cs, r, s, k) && r[k] in r;
    }
  }

  ghost predicate InRing(cs: Chunks, rings: Rings, a: nat) {
    a in cs ==> cs[a].size in rings && a in rings[cs[a].size]
  }

  ghost predicate RingsOk(cs: Chunks, rings: Rings) {
    && (forall s {:trigger RingOk(cs, rings, s)} :: RingOk(cs, rings, s))
    && (forall a {:trigger InRing(cs, rings, a)} :: InRing(cs, rings, a))
  }

  /** A chunk of a size not in use makes a ring of its own. */
  lemma Alone(cs: Chunks, rings: Rings, x: nat, c: TChunk)
    requires RingsOk(cs, rings) && x !in cs && c.size !in rings && c.fd == c.bk == x
    ensures RingsOk(cs[x := c], rings[c.size := [x]])
  {
    var cs', rings' := cs[x := c], rings[c.size := [x]];
    forall s ensures RingOk(cs', rings', s) {
      assert RingOk(cs, rings, s);
      if s in rings {
        RingElements(cs, rings[s], s);
        RingFrame(cs, cs', rings[s], s);
      } else if s == c.size {
        assert RingLink(cs', [x], s, 0);
      }
    }
    forall a ensures InRing(cs', rings', a) {
      assert InRing(cs, rings, a);
    }
  }

  /** `T->fd = F->bk = X; X->fd = F; X->bk = T`, where `F` is what followed `T`. */
  function Joined(cs: Chunks, t: nat, x: nat, c: TChunk): Chunks
    requires t in cs
  {
    var f := cs[t].fd;
    var m := cs[t := cs[t].(fd := x)];
    var m2 := if f in m then m[f := m[f].(bk := x)] else m;
    m2[x := c.(fd := f, bk := t)]
  }

  lemma RingElements(cs: Chunks, r: seq<nat>, s: nat)
    requires IsRing(cs, r, s)
    ensures forall a :: a in r ==> a in cs && cs[a].size == s
  {
    forall a | a in r ensures a in cs && cs[a].size == s {
      var k :| 0 <= k < |r| && r[k] == a;
      assert RingLink(cs, r, s, k);
    }
  }

  function InsertedAfter(r: seq<nat>, k: nat, x: nat): (m: seq<nat>)
    requires k < |r|
    ensures |m| == |r| + 1
    ensures forall j :: 0 <= j < |m| ==> m[j] == if j <= k then r[j] else if j == k + 1 then x else r[j - 1]
    ensures forall a :: a in m <==> a == x || a in r
  {
    var m := r[..k + 1] + [x] + r[k + 1..];
    assert forall a :: a in m <==> a in r[..k + 1] || a == x || a in r[k + 1..];
    assert r == r[..k + 1] + r[k + 1..];
    m
  }

  lemma DistinctAt(r: seq<nat>, i: nat, j: nat)
    requires Distinct(r) && i < |r| && j < |r|
    ensures r[i] == r[j] <==> i == j
  {
  }

  lemma JoinedIs(cs: Chunks, t: nat, x: nat, c: TChunk, a: nat)
    requires t in cs && x !in cs && a in cs
    ensures x in Joined(cs, t, x, c) && Joined(cs, t, x, c)[x] == c.(fd := cs[t].fd, bk := t)
    ensures cs[t].fd in cs ==> a in Joined(cs, t, x, c)
    ensures cs[t].fd in cs ==>
      Joined(cs, t, x, c)[a] == cs[a].(fd := if a == t then x else cs[a].fd, bk := if a == cs[t].fd then x else cs[a].bk)
  {
  }

  lemma JoinedNew(cs: Chunks, r: seq<nat>, s: nat, k: nat, x: nat, c: TChunk)
    requires IsRing(cs, r, s) && k < |r| && x !in cs && c.size == s && r[k] in cs
    ensures RingLink(Joined(cs, r[k], x, c), InsertedAfter(r, k, x), s, k + 1)
  {
    assert RingLink(cs, r, s, k);
    JoinedIs(cs, r[k], x, c, r[k]);
    hide Joined;
  }

  /** The neighbours of the old elements. */
  lemma InsertedLinks(r: seq<nat>, k: nat, x: nat, i: nat)
    requires k < |r| && i < |r|
    ensures var n, m, j := |r|, InsertedAfter(r, k, x), if i <= k then i else i + 1;
            && m[j] == r[i]
            && m[NextIn(n + 1, j)] == (if i == k then x else r[NextIn(n, i)])
            && m[PrevIn(n + 1, j)] == (if i == NextIn(n, k) then x else r[PrevIn(n, i)])
  {
  }

  lemma JoinedOld(cs: Chunks, r: seq<nat>, s: nat, k: nat, x: nat, c: TChunk, i: nat)
    requires IsRing(cs, r, s) && k < |r| && x !in cs && c.size == s && r[k] in cs && i < |r|
    ensures RingLink(Joined(cs, r[k], x, c), InsertedAfter(r, k, x), s, if i <= k then i else i + 1)
  {
    var n := |r|;
    assert RingLink(cs, r, s, k) && RingLink(cs, r, s, i) && RingLink(cs, r, s, NextIn(n, k));
    JoinedIs(cs, r[k], x, c, r[i]);
    DistinctAt(r, i, k);
    DistinctAt(r, i, NextIn(n, k));
    InsertedLinks(r, k, x, i);
    hide Joined;
    hide InsertedAfter;
    hide NextIn;
    hide PrevIn;
    hide IsRing;
    hide Distinct;
  }

  lemma JoinedLink(cs: Chunks, r: seq<nat>, s: nat, k: nat, x: nat, c: TChunk, j: nat)
    requires IsRing(cs, r, s) && k < |r| && x !in cs && c.size == s && r[k] in cs && j <= |r|
    ensures RingLink(Joined(cs, r[k], x, c), InsertedAfter(r, k, x), s, j)
  {
    if j == k + 1 {
      JoinedNew(cs, r, s, k, x, c);
    } else {
      JoinedOld(cs, r, s, k, x, c, if j <= k then j else j - 1);
    }
  }

  lemma InsertedDistinct(r: seq<nat>, k: nat, x: nat)
    requires Distinct(r) && k < |r| && x !in r
    ensures Distinct(InsertedAfter(r, k, x))
  {
    var m := InsertedAfter(r, k, x);
    forall i, j | 0 <= i < j < |m| ensures m[i] != m[j] {
      DistinctAt(r, if i <= k then i else i - 1, if j <= k then j else j - 1);
    }
  }

  lemma JoinedRing(cs: Chunks, r: seq<nat>, s: nat, k: nat, x: nat, c: TChunk)
    requires IsRing(cs, r, s) && k < |r| && x !in cs && c.size == s && r[k] in cs
    ensures IsRing(Joined(cs, r[k], x, c), InsertedAfter(r, k, x), s)
  {
    RingElements(cs, r, s);
    InsertedDistinct(r, k, x);
    var cs', m := Joined(cs, r[k], x, c), InsertedAfter(r, k, x);
    forall j | 0 <= j < |m| ensures RingLink(cs', m, s, j) {
      JoinedLink(cs, r, s, k, x, c, j);
    }
  }

  lemma JoinedOk(cs: Chunks, rings: Rings, t: nat, x: nat, c: TChunk)
    requires RingsOk(cs, rings) && t in cs && x !in cs && c.size == cs[t].size
    ensures cs[t].size in rings && t in rings[cs[t].size]
    ensures var s := cs[t].size;
            RingsOk(Joined(cs, t, x, c), rings[s := InsertedAfter(rings[s], IndexOf(rings[s], t), x)])
  {
    var s := cs[t].size;
    assert InRing(cs, rings, t) && RingOk(cs, rings, s);
    var r, k := rings[s], IndexOf(rings[s], t);
    JoinedRing(cs, r, s, k, x, c);
    RingElements(cs, r, s);
    assert RingLink(cs, r, s, k) && RingLink(cs, r, s, NextIn(|r|, k));
    var cs', rings' := Joined(cs, t, x, c), rings[s := InsertedAfter(r, k, x)];
    forall s' ensures RingOk(cs', rings', s') {
      assert RingOk(cs, rings, s');
      if s' != s && s' in rings {
        RingElements(cs, rings[s'], s');
        RingFrame(cs, cs', rings[s'], s');
      }
    }
    forall a ensures InRing(cs', rings', a) {
      assert InRing(cs, rings, a);
    }
  }

  // ----- leaving a ring -----

  /** `F->bk = R; R->fd = F`, for the neighbours of `x`. */
  function Bridged(cs: Chunks, x: nat): Chunks
    requires x in cs
  {
    var f, r := cs[x].fd, cs[x].bk;
    var m := if f in cs then cs[f := cs[f].(bk := r)] else cs;
    if r in m then m[r := m[r].(fd := f)] else m
  }

  function Skipped(r: seq<nat>, k: nat): (m: seq<nat>)
    requires k < |r|
    ensures |m| == |r| - 1
    ensures forall j :: 0 <= j < |m| ==> m[j] == if j < k then r[j] else r[j + 1]
  {
    r[..k] + r[k + 1..]
  }

  lemma BridgedIs(cs: Chunks, x: nat, a: nat)
    requires x in cs && a in cs && cs[x].fd in cs && cs[x].bk in cs
    ensures a in Bridged(cs, x)
    ensures Bridged(cs, x)[a] == cs[a].(fd := if a == cs[x].bk then cs[x].fd else cs[a].fd, bk := if a == cs[x].fd then cs[x].bk else cs[a].bk)
  {
  }

  lemma BridgedLink(cs: Chunks, r: seq<nat>, s: nat, k: nat, j: nat)
    requires IsRing(cs, r, s) && k < |r| && |r| > 1 && r[k] in cs && j < |r| - 1
    ensures RingLink(Bridged(cs, r[k]) - {r[k]}, Skipped(r, k), s, j)
  {
    var n, m := |r|, Skipped(r, k);
    var i := if j < k then j else j + 1;
    assert RingLink(cs, r, s, k) && RingLink(cs, r, s, i) && RingLink(cs, r, s, NextIn(n, k)) && RingLink(cs, r, s, PrevIn(n, k));
    BridgedIs(cs, r[k], r[i]);
    DistinctAt(r, i, k);
    DistinctAt(r, i, NextIn(n, k));
    DistinctAt(r, i, PrevIn(n, k));
    hide IsRing;
    hide Bridged;
    hide Skipped;
  }

  lemma SkippedDistinct(r: seq<nat>, k: nat)
    requires Distinct(r) && k < |r|
    ensures Distinct(Skipped(r, k))
  {
    var m := Skipped(r, k);
    forall i, j | 0 <= i < j < |m| ensures m[i] != m[j] {
      DistinctAt(r, if i < k then i else i + 1, if j < k then j else j + 1);
    }
  }

  lemma BridgedRing(cs: Chunks, r: seq<nat>, s: nat, k: nat)
    requires IsRing(cs, r, s) && k < |r| && |r| > 1 && r[k] in cs
    ensures IsRing(Bridged(cs, r[k]) - {r[k]}, Skipped(r, k), s)
  {
    SkippedDistinct(r, k);
    var cs', m := Bridged(cs, r[k]) - {r[k]}, Skipped(r, k);
    forall j | 0 <= j < |m| ensures RingLink(cs', m, s, j) {
      BridgedLink(cs, r, s, k, j);
    }
  }

  lemma SkippedMembers(r: seq<nat>, k: nat)
    requires k < |r| && Distinct(r)
    ensures forall a :: a in Skipped(r, k) <==> a in r && a != r[k]
  {
    assert r == r[..k] + [r[k]] + r[k + 1..];
    forall a ensures a in Skipped(r, k) <==> a in r && a != r[k] {
      assert a in r <==> a in r[..k] || a == r[k] || a in r[k + 1..];
    }
  }

  lemma BridgedOthers(cs: Chunks, rings: Rings, x: nat, s': nat)
    requires RingsOk(cs, rings) && x in cs && cs[x].size != s' && cs[x].fd in cs && cs[x].bk in cs
    requires cs[cs[x].fd].size == cs[x].size && cs[cs[x].bk].size == cs[x].size && s' in rings
    ensures IsRing(Bridged(cs, x) - {x}, rings[s'], s')
  {
    assert RingOk(cs, rings, s');
    RingElements(cs, rings[s'], s');
    RingFrame(cs, Bridged(cs, x) - {x}, rings[s'], s');
  }

  /** `X->bk != X`: some other chunk has the same size. */
  lemma BridgedOk(cs: Chunks, rings: Rings, x: nat)
    requires RingsOk(cs, rings) && x in cs && cs[x].bk != x
    ensures var s := cs[x].size; s in rings && x in rings[s] && |rings[s]| > 1 && cs[x].bk in cs && cs[cs[x].bk].size == s
    ensures var s := cs[x].size;
            RingsOk(Bridged(cs, x) - {x}, rings[s := Skipped(rings[s], IndexOf(rings[s], x))])
  {
    var s := cs[x].size;
    assert InRing(cs, rings, x) && RingOk(cs, rings, s);
    var r, k := rings[s], IndexOf(rings[s], x);
    assert RingLink(cs, r, s, k);
    RingElements(cs, r, s);
    BridgedRing(cs, r, s, k);
    SkippedMembers(r, k);
    var cs', rings' := Bridged(cs, x) - {x}, rings[s := Skipped(r, k)];
    forall s' ensures RingOk(cs', rings', s') {
      if s' != s && s' in rings {
        BridgedOthers(cs, rings, x, s');
      }
    }
    forall a ensures InRing(cs', rings', a) {
      hide IsRing;
      assert InRing(cs, rings, a);
    }
  }

  /** `X->bk == X`: the only chunk of its size. */
  lemma LastGone(cs: Chunks, rings: Rings, x: nat)
    requires RingsOk(cs, rings) && x in cs && cs[x].bk == x
    ensures RingsOk(cs - {x}, rings - {cs[x].size}) && forall a :: a in cs && a != x ==> cs[a].size != cs[x].size
  {
    var s := cs[x].size;
    assert InRing(cs, rings, x) && RingOk(cs, rings, s);
    var r, k := rings[s], IndexOf(rings[s], x);
    assert RingLink(cs, r, s, k);
    assert |r| == 1;
    forall a | a in cs && a != x ensures cs[a].size != s {
      assert InRing(cs, rings, a);
    }
    forall s' ensures RingOk(cs - {x}, rings - {s}, s') {
      assert RingOk(cs, rings, s');
      if s' != s && s' in rings {
        RingElements(cs, rings[s'], s');
        RingFrame(cs, cs - {x}, rings[s'], s');
      }
    }
    forall a ensures InRing(cs - {x}, rings - {s}, a) {
      assert InRing(cs, rings, a);
    }
  }
}
