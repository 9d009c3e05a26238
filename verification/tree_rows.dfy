/**
 How the steps of an insertion act on whole levels of the index: splitting a node opens a
 gap one level up, growing a root or linking the waiting node closes it.
 */
module TreeRows {
  import opened SortedView
  import opened TreeShape

  /** Node n of level lv was split off a right half. */
  ghost predicate SplitMem(m: Mem, g: seq<Info>, m': Mem, g': seq<Info>, n: int, junk: seq<int>)
    requires Sized(m, g) && 0 <= n < |g| && m.body[n].Inner? && |m.body[n].kc.keys| == |m.body[n].kc.data| == m.cap
  {
    && SplitStep(m.body, m.parent, g, m'.body, m'.parent, g', n, junk)
    && |junk| == m.cap - m.cap / 2
    && m'.cap == m.cap && m'.bound == m.bound && m'.root == m.root
    && |m'.next| == |m'.prev| == |m'.count| == |g'|
  }

  /** The right half's children are children of the split node. */
  lemma RightKidIsKid(b: Body, junk: seq<int>, c: int)
    requires b.Inner? && |b.kc.keys| == |b.kc.data| >= 3
    requires IsKid(RightHalf(b, junk), c)
    ensures IsKid(b, c)
  {
    var r := RightHalf(b, junk);
    if c in r.kc.data {
      var j :| 0 <= j < |r.kc.data| && r.kc.data[j] == c;
      assert b.kc.data[LeftCount(|b.kc.keys|) + j] == c;
    }
  }

  lemma KidFacts(b: seq<Body>, p: seq<int>, g: seq<Info>, cap: nat, n: int, l: int, x: int, c: int)
    requires 0 <= n < |b| == |p| == |g| && InnerOk(b, p, g, cap, n, l, x)
    requires IsKid(b[n], c)
    ensures 0 <= c < |b| && p[c] == n && g[c].level + 1 == g[n].level
    ensures g[n].lo <= g[c].lo
  {
    var i := KidIndex(b[n], c);
    assert KidOk(b, p, g, n, l, x, i);
    if i > 0 { PostsAscend(b, p, g, cap, n, l, x, 0, i); }
  }

  lemma SplitBase(m: Mem, g: seq<Info>, m': Mem, g': seq<Info>, n: int, junk: seq<int>)
    requires Base(m, g) && 0 <= n < |g| && m.body[n].Inner? && |m.body[n].kc.keys| == |m.body[n].kc.data| == m.cap
    requires SplitMem(m, g, m', g', n, junk) && n != m.root
    ensures Base(m', g')
  {
    forall c | 0 <= c < |g'| ensures KindOk(m'.body, g', m'.root, c) {
      assert KindOk(m.body, g, m.root, n);
      if c < |g| { assert KindOk(m.body, g, m.root, c); }
    }
  }

  /** The split level itself: the gap stays beside `l`, now under one of the halves. */
  lemma SplitRow(m: Mem, g: seq<Info>, m': Mem, g': seq<Info>, n: int, l: int, x: int, junk: seq<int>)
    requires Base(m, g) && 0 <= n < |g| && m.body[n].Inner? && |m.body[n].kc.keys| == |m.body[n].kc.data| == m.cap
    requires SplitMem(m, g, m', g', n, junk)
    requires Row(m, g, g[n].level, l, x) && 0 <= l < |g| && m.parent[l] == n && x < |g|
    ensures forall c {:trigger InnerOk(m'.body, m'.parent, g', m'.cap, c, l, x)} ::
              0 <= c < |g'| && g'[c].level == g[n].level ==> InnerOk(m'.body, m'.parent, g', m'.cap, c, l, x)
  {
    var b, p, b', p' := m.body, m.parent, m'.body, m'.parent;
    assert InnerOk(b, p, g, m.cap, n, l, x);
    forall c | 0 <= c < |g'| && g'[c].level == g[n].level ensures InnerOk(b', p', g', m'.cap, c, l, x) {
      if c == n {
        SplitLeftOk(b, p, g, b', p', g', m.cap, n, l, x, junk);
      } else if c == |g| {
        SplitRightOk(b, p, g, b', p', g', m.cap, n, l, x, junk);
      } else {
        assert InnerOk(b, p, g, m.cap, c, l, x);
        forall d | 0 <= d < |b| && p[d] == c && IsKid(b[c], d) && g[d].level + 1 == g[c].level
          ensures p'[d] == c && g'[d] == g[d] && d != l
        {
          if IsKid(b'[|b|], d) {
            RightKidIsKid(b[n], junk, d);
            KidFacts(b, p, g, m.cap, n, l, x, d);
          }
        }
        InnerFrame(b, p, g, b', p', g', m.cap, c, l, x, l, x);
      }
    }
  }

  lemma SplitUps(m: Mem, g: seq<Info>, m': Mem, g': seq<Info>, n: int, l: int, x: int, junk: seq<int>)
    requires Base(m, g) && 0 <= n < |g| && m.body[n].Inner? && |m.body[n].kc.keys| == |m.body[n].kc.data| == m.cap
    requires SplitMem(m, g, m', g', n, junk)
    requires Row(m, g, g[n].level, l, x)
    ensures forall c {:trigger UpOk(m'.body, m'.parent, g', m'.root, c)} ::
              0 <= c < |g'| && g'[c].level + 1 == g[n].level && c != x ==> UpOk(m'.body, m'.parent, g', m'.root, c)
  {
    var b, p, b', p' := m.body, m.parent, m'.body, m'.parent;
    assert InnerOk(b, p, g, m.cap, n, l, x);
    HalvesKids(b[n], junk, m.cap);
    forall c | 0 <= c < |g'| && g'[c].level + 1 == g[n].level && c != x ensures UpOk(b', p', g', m'.root, c) {
      assert c < |g| && c != n;
      assert UpOk(b, p, g, m.root, c);
      assert KindOk(b, g, m.root, n);
      if IsKid(b'[|b|], c) {
        RightKidIsKid(b[n], junk, c);
        KidFacts(b, p, g, m.cap, n, l, x, c);
      }
    }
  }

  /** One level above the split: the right half waits beside the left one. */
  lemma SplitGap(m: Mem, g: seq<Info>, m': Mem, g': seq<Info>, n: int, l: int, x: int, junk: seq<int>, c: int)
    requires Base(m, g) && 0 <= n < |g| && m.body[n].Inner? && |m.body[n].kc.keys| == |m.body[n].kc.data| == m.cap
    requires SplitMem(m, g, m', g', n, junk)
    requires InnerOk(m.body, m.parent, g, m.cap, n, l, x)
    requires 0 <= c < |g| && g[c].level == g[n].level + 1 && InnerOk(m.body, m.parent, g, m.cap, c, NIL, NIL)
    ensures InnerOk(m'.body, m'.parent, g', m'.cap, c, n, |g|)
  {
    var b, p, b', p' := m.body, m.parent, m'.body, m'.parent;
    HalfEnds(b, p, g, m.cap, n, l, x, junk);
    forall i | 0 <= i < NumKids(b'[c]) ensures KidOk(b', p', g', c, n, |g|, i) {
      assert KidOk(b, p, g, c, NIL, NIL, i);
      var d := Kid(b[c], i);
      if IsKid(b'[|b|], d) {
        RightKidIsKid(b[n], junk, d);
        KidFacts(b, p, g, m.cap, n, l, x, d);
      }
    }
  }

  /** The levels above the split. */
  lemma SplitAbove(m: Mem, g: seq<Info>, m': Mem, g': seq<Info>, n: int, l: int, x: int, junk: seq<int>)
    requires Base(m, g) && 0 <= n < |g| && m.body[n].Inner? && |m.body[n].kc.keys| == |m.body[n].kc.data| == m.cap
    requires SplitMem(m, g, m', g', n, junk) && n != m.root
    requires InnerOk(m.body, m.parent, g, m.cap, n, l, x) && Rows(m, g, g[n].level + 1)
    ensures Row(m', g', g[n].level + 1, n, |g|) && Rows(m', g', g[n].level + 2)
  {
    var b, p, b', p', lv := m.body, m.parent, m'.body, m'.parent, g[n].level;
    SplitBase(m, g, m', g', n, junk);
    forall c | 0 <= c < |g'| && g'[c].level == lv + 1 ensures InnerOk(b', p', g', m'.cap, c, n, |g|) {
      assert c < |g| && c != n;
      assert InnerOk(b, p, g, m.cap, c, NIL, NIL);
      SplitGap(m, g, m', g', n, l, x, junk, c);
    }
    forall c | 0 <= c < |g'| && g'[c].level >= lv + 2 ensures InnerOk(b', p', g', m'.cap, c, NIL, NIL) {
      assert c < |g| && c != n;
      SplitFar(m, g, m', g', n, l, x, junk, c);
    }
    forall c | 0 <= c < |g'| && g'[c].level >= lv && c != |g| ensures UpOk(b', p', g', m'.root, c) {
      assert UpOk(b, p, g, m.root, c);
      if IsKid(b'[|b|], c) {
        RightKidIsKid(b[n], junk, c);
        KidFacts(b, p, g, m.cap, n, l, x, c);
      }
    }
  }

  lemma SplitFar(m: Mem, g: seq<Info>, m': Mem, g': seq<Info>, n: int, l: int, x: int, junk: seq<int>, c: int)
    requires Base(m, g) && 0 <= n < |g| && m.body[n].Inner? && |m.body[n].kc.keys| == |m.body[n].kc.data| == m.cap
    requires SplitMem(m, g, m', g', n, junk)
    requires InnerOk(m.body, m.parent, g, m.cap, n, l, x) && Rows(m, g, g[n].level + 1)
    requires 0 <= c < |g| && g[c].level >= g[n].level + 2
    ensures InnerOk(m'.body, m'.parent, g', m'.cap, c, NIL, NIL)
  {
    var b, p, b', p' := m.body, m.parent, m'.body, m'.parent;
    assert InnerOk(b, p, g, m.cap, c, NIL, NIL);
    forall d | 0 <= d < |b| && p[d] == c && IsKid(b[c], d) && g[d].level + 1 == g[c].level
      ensures p'[d] == c && g'[d] == g[d]
    {
      if IsKid(b'[|b|], d) {
        RightKidIsKid(b[n], junk, d);
        KidFacts(b, p, g, m.cap, n, l, x, d);
      }
    }
    InnerFrame(b, p, g, b', p', g', m.cap, c, NIL, NIL, NIL, NIL);
  }

  // ---- linking ----

  /** Linking the waiting node under its sibling's parent closes the gap of that level. */
  lemma LinkRows(m: Mem, g: seq<Info>, m': Mem, lv: nat, l: int, x: int)
    requires Base(m, g) && Row(m, g, lv, l, x) && Rows(m, g, lv + 1)
    requires 0 <= l < |g| && 0 <= x < |g| && l != x && g[l].level + 1 == lv
    requires 0 <= m.parent[l] < |g| && g[m.parent[l]].level == lv
    requires m.body[m.parent[l]].Inner? && IsKid(m.body[m.parent[l]], l) && !IsFull(m.body[m.parent[l]].kc)
    requires m.parent[x] == NIL && x != m.root && g[x].level == g[l].level
    requires |m.body[m.parent[l]].kc.keys| == |m.body[m.parent[l]].kc.data|
    requires m' == m.(body := m.body[m.parent[l] := Linked(m.body[m.parent[l]], g[x].lo, x)],
                      parent := m.parent[x := m.parent[l]])
    ensures Base(m', g) && Rows(m', g, lv)
  {
    var b, p, t := m.body, m.parent, m.parent[l];
    var b', p' := m'.body, m'.parent;
    assert InnerOk(b, p, g, m.cap, t, l, x);
    SeparatorIsNew(b, p, g, m.cap, t, l, x);
    LinkInner(b, p, g, m.cap, t, l, x);
    LinkedKids(b[t], g[x].lo, x, Passed(b[t].kc.keys, g[x].lo));
    forall c | 0 <= c < |g| ensures KindOk(b', g, m'.root, c) {
      assert KindOk(b, g, m.root, c);
    }
    forall c | 0 <= c < |g| && g[c].level >= lv ensures InnerOk(b', p', g, m'.cap, c, NIL, NIL) {
      if c != t { LinkFar(m, g, m', lv, l, x, c); }
    }
    forall c | 0 <= c < |g| && g[c].level + 1 >= lv ensures UpOk(b', p', g, m'.root, c) {
      if c != x { assert UpOk(b, p, g, m.root, c); }
    }
  }

  lemma LinkFar(m: Mem, g: seq<Info>, m': Mem, lv: nat, l: int, x: int, c: int)
    requires Base(m, g) && Row(m, g, lv, l, x) && Rows(m, g, lv + 1)
    requires 0 <= l < |g| && 0 <= x < |g| && g[l].level + 1 == lv
    requires 0 <= m.parent[l] < |g|
    requires m.parent[x] == NIL
    requires |m'.body| == |m'.parent| == |g| && m'.cap == m.cap
    requires m'.parent == m.parent[x := m.parent[l]]
    requires 0 <= c < |g| && g[c].level >= lv && c != m.parent[l] && m'.body[c] == m.body[c]
    ensures InnerOk(m'.body, m'.parent, g, m'.cap, c, NIL, NIL)
  {
    var b, p, b', p' := m.body, m.parent, m'.body, m'.parent;
    if g[c].level == lv {
      assert InnerOk(b, p, g, m.cap, c, l, x);
      InnerFrame(b, p, g, b', p', g, m.cap, c, l, x, NIL, NIL);
    } else {
      assert InnerOk(b, p, g, m.cap, c, NIL, NIL);
      InnerFrame(b, p, g, b', p', g, m.cap, c, NIL, NIL, NIL, NIL);
    }
  }

  // ---- the level below a finished insertion ----

  /** What an insertion at level `lv` leaves alone: every node below, and who its parent is. */
  ghost predicate Below(m: Mem, g: seq<Info>, m': Mem, g': seq<Info>, lv: nat) {
    && Shaped(m, g) && Shaped(m', g')
    && |g| <= |g'| && m'.cap == m.cap && m'.bound == m.bound
    && (forall c {:trigger g'[c]} :: 0 <= c < |g| ==> g'[c].level == g[c].level)
    && (forall c {:trigger g'[c]} {:trigger m'.body[c]} {:trigger m'.count[c]} :: 0 <= c < |g| && g[c].level < lv ==>
          m'.body[c] == m.body[c] && g'[c] == g[c] && m'.count[c] == m.count[c])
    && (forall c {:trigger m'.parent[c]} :: 0 <= c < |g| && g[c].level + 1 < lv ==> m'.parent[c] == m.parent[c])
    && (forall c {:trigger g'[c]} :: |g| <= c < |g'| ==> g'[c].level >= lv)
    && (forall c {:trigger m'.next[c]} {:trigger m'.prev[c]} :: 0 <= c < |g| ==>
         m'.next[c] == m.next[c] && m'.prev[c] == m.prev[c])
  }

  /** The row below an insertion is as it was. */
  lemma RowBelow(m: Mem, g: seq<Info>, m': Mem, g': seq<Info>, lv: nat, l: int, x: int)
    requires Base(m, g) && Base(m', g') && lv >= 1
    requires Below(m, g, m', g', lv + 1)
    requires forall c {:trigger InnerOk(m.body, m.parent, g, m.cap, c, l, x)} ::
               0 <= c < |g| && g[c].level == lv ==> InnerOk(m.body, m.parent, g, m.cap, c, l, x)
    requires forall c {:trigger UpOk(m.body, m.parent, g, m.root, c)} ::
               0 <= c < |g| && g[c].level + 1 == lv && c != x ==> UpOk(m.body, m.parent, g, m.root, c)
    requires 0 <= x < |g| && g[x].level + 1 == lv
    requires m'.root == m.root || m'.root >= |g|
    requires g[m.root].level >= lv
    ensures Row(m', g', lv, l, x)
  {
    var b, p, b', p' := m.body, m.parent, m'.body, m'.parent;
    forall c | 0 <= c < |g'| && g'[c].level == lv ensures InnerOk(b', p', g', m'.cap, c, l, x) {
      assert c < |g|;
      assert InnerOk(b, p, g, m.cap, c, l, x);
      InnerFrameGap(b, p, g, b', p', g', m.cap, c, l, x);
    }
    forall c | 0 <= c < |g'| && g'[c].level + 1 == lv && c != x ensures UpOk(b', p', g', m'.root, c) {
      assert c < |g|;
      assert UpOk(b, p, g, m.root, c);
    }
  }

  // ---- a new root ----

  /** The old root n and its right half became the two children of a new root. */
  ghost predicate GrownMem(m: Mem, g: seq<Info>, m': Mem, g': seq<Info>, n: int, r: int, mid: int)
    requires |m.body| == |m.parent| == |g| && 0 <= n < |g| && 0 <= r < |g|
  {
    var q := |g|;
    && |m'.body| == |m'.parent| == |m'.next| == |m'.prev| == |m'.count| == |g'| == |g| + 1
    && m'.cap == m.cap && m'.bound == m.bound && m'.root == q
    && m'.body[q].Inner? && m'.body[q].left == n
    && m'.body[q].kc.keys == [mid] && m'.body[q].kc.data == [r] && |m'.body[q].kc.stale| == m.cap - 1
    && g'[q] == Info(0, m.bound, g[n].level + 1)
    && (forall c {:trigger m'.body[c]} {:trigger g'[c]} :: 0 <= c < |g| ==> m'.body[c] == m.body[c] && g'[c] == g[c])
    && m'.parent[q] == NIL && m'.parent[n] == q && m'.parent[r] == q
    && (forall c {:trigger m'.parent[c]} :: 0 <= c < |g| && c != n && c != r ==> m'.parent[c] == m.parent[c])
  }

  lemma LevelBound(m: Mem, g: seq<Info>, n: int)
    requires Base(m, g) && 0 <= n < |g|
    ensures g[n].level <= g[m.root].level
  {
    assert KindOk(m.body, g, m.root, n);
  }

  /** Only the root is on the top level. */
  lemma TopIsRoot(m: Mem, g: seq<Info>, c: int)
    requires Base(m, g) && Rows(m, g, g[m.root].level + 1) && 0 <= c < |g|
    requires g[c].level >= g[m.root].level
    ensures c == m.root
  {
    assert UpOk(m.body, m.parent, g, m.root, c);
    if c != m.root { LevelBound(m, g, m.parent[c]); }
  }

  lemma GrowRows(m: Mem, g: seq<Info>, m1: Mem, g1: seq<Info>, m2: Mem, g2: seq<Info>, l: int, x: int, junk: seq<int>)
    requires Base(m, g) && m.body[m.root].Inner?
    requires |m.body[m.root].kc.keys| == |m.body[m.root].kc.data| == m.cap
    requires SplitMem(m, g, m1, g1, m.root, junk)
    requires InnerOk(m.body, m.parent, g, m.cap, m.root, l, x) && Rows(m, g, g[m.root].level + 1)
    requires GrownMem(m1, g1, m2, g2, m.root, |g|, MidKey(m.body[m.root]))
    ensures Base(m2, g2) && Rows(m2, g2, g[m.root].level + 1)
  {
    var n, r, q, lv := m.root, |g|, |g| + 1, g[m.root].level;
    HalfEnds(m.body, m.parent, g, m.cap, n, l, x, junk);
    assert m2.body[n] == LeftHalf(m.body[n]);
    forall c | 0 <= c < |g2| ensures KindOk(m2.body, g2, q, c) {
      assert KindOk(m.body, g, m.root, n);
      if c < |g| { assert KindOk(m.body, g, m.root, c); }
    }
    forall i | 0 <= i < 2 ensures KidOk(m2.body, m2.parent, g2, q, NIL, NIL, i) {}
    forall c | 0 <= c < |g2| && g2[c].level >= lv + 1 ensures InnerOk(m2.body, m2.parent, g2, m2.cap, c, NIL, NIL) {
      if c < |g| { TopIsRoot(m, g, c); }
    }
    forall c | 0 <= c < |g2| && g2[c].level >= lv ensures UpOk(m2.body, m2.parent, g2, q, c) {
      if c < |g| { TopIsRoot(m, g, c); }
    }
  }

  /** The row below the new root keeps its gap. */
  lemma GrowRow(m1: Mem, g1: seq<Info>, m2: Mem, g2: seq<Info>, n: int, r: int, mid: int, l: int, x: int)
    requires |m1.body| == |m1.parent| == |g1| && 0 <= n < |g1| && 0 <= r < |g1| && g1[r].level == g1[n].level
    requires GrownMem(m1, g1, m2, g2, n, r, mid) && Sized(m2, g2)
    requires forall c {:trigger InnerOk(m1.body, m1.parent, g1, m1.cap, c, l, x)} ::
               0 <= c < |g1| && g1[c].level == g1[n].level ==> InnerOk(m1.body, m1.parent, g1, m1.cap, c, l, x)
    requires forall c {:trigger UpOk(m1.body, m1.parent, g1, n, c)} ::
               0 <= c < |g1| && g1[c].level + 1 == g1[n].level && c != x ==> UpOk(m1.body, m1.parent, g1, n, c)
    requires x < |g1|
    ensures Row(m2, g2, g1[n].level, l, x)
  {
    forall c | 0 <= c < |g2| && g2[c].level == g1[n].level ensures InnerOk(m2.body, m2.parent, g2, m2.cap, c, l, x) {
      assert InnerOk(m1.body, m1.parent, g1, m1.cap, c, l, x);
      InnerFrameGap(m1.body, m1.parent, g1, m2.body, m2.parent, g2, m1.cap, c, l, x);
    }
    forall c | 0 <= c < |g2| && g2[c].level + 1 == g1[n].level && c != x
      ensures UpOk(m2.body, m2.parent, g2, m2.root, c)
    {
      assert UpOk(m1.body, m1.parent, g1, n, c);
    }
  }
}
