/**
 The steps of `put_to_internal_node`, as lemmas about the memory before and after each:
 a node that splits hands its right half to its parent, the levels above take it in, and
 the waiting child is then linked under the half that its sibling went to.
 */
module TreeCascade {
  import opened SortedView
  import opened TreeShape
  import opened TreeRows
  import opened TreeCounts

  function Arr(b: Body): SArr<int> {
    if b.Leaf? then b.kv else b.kc
  }

  /** A raw pointer to a key slot: the node whose arena it points into, and the slot. */
  datatype KeyPtr = KeyPtr(node: int, pos: int)

  predicate PtrOk(m: Mem, q: KeyPtr) {
    0 <= q.node < |m.body| && 0 <= q.pos < |Arr(m.body[q.node]).keys| + |Arr(m.body[q.node]).stale|
  }

  function Deref(m: Mem, q: KeyPtr): int
    requires PtrOk(m, q)
  {
    Slot(Arr(m.body[q.node]), q.pos)
  }

  /** Node x waits to be linked under `node`, right of its sibling l; the pointer q, into a node of
      a lower level, designates its separator. */
  ghost predicate Pending(m: Mem, g: seq<Info>, node: int, q: KeyPtr, x: int, l: int) {
    && Base(m, g) && 0 <= node < |g| && g[node].level >= 1
    && Row(m, g, g[node].level, l, x) && Rows(m, g, g[node].level + 1)
    && 0 <= l < |g| && 0 <= x < |g| && l != x && x != m.root && l != m.root
    && g[l].level + 1 == g[x].level + 1 == g[node].level
    && m.parent[l] == node && m.parent[x] == NIL
    && PtrOk(m, q) && g[q.node].level < g[node].level && Deref(m, q) == g[x].lo
  }

  /** The parents from `path[0]`, on level lv, up to the fence. */
  ghost predicate PathOk(m: Mem, g: seq<Info>, path: seq<int>, lv: nat, fence: int) {
    && |m.parent| == |g|
    && |path| >= 1 && path[|path| - 1] == fence
    && (fence == NIL || (0 <= fence < |g| && g[fence].level == lv + |path| - 1))
    && (forall i {:trigger path[i]} :: 0 <= i < |path| - 1 ==>
          0 <= path[i] < |g| && g[path[i]].level == lv + i && m.parent[path[i]] == path[i + 1])
  }

  /** The insertion is finished: x is linked beside l and all levels from lv up are in order. */
  ghost predicate Inserted(m: Mem, g: seq<Info>, m': Mem, g': seq<Info>, lv: nat, x: int, l: int, fence: int,
                           path: seq<int>) {
    && Base(m, g) && Base(m', g') && Rows(m', g', lv)
    && Below(m, g, m', g', lv)
    && (m'.root == m.root || m'.root >= |g|)
    && 0 <= x < |g| && 0 <= l < |g|
    && m'.parent[x] == m'.parent[l] && 0 <= m'.parent[x] < |g'| && g'[m'.parent[x]].level == lv
    && PathOk(m', g', path, lv, fence) && path[0] == m'.parent[x]
  }

  lemma PathStep(m: Mem, g: seq<Info>, path: seq<int>, plv: nat, fence: int, i: nat)
    requires PathOk(m, g, path, plv, fence) && i < |path| && path[i] != fence
    ensures i < |path| - 1 && 0 <= path[i] < |g| && g[path[i]].level == plv + i && m.parent[path[i]] == path[i + 1]
    ensures path[i] !in path[..i]
  {
    forall j | 0 <= j < i ensures path[j] != path[i] {
      assert g[path[j]].level == plv + j;
    }
  }

  lemma PathEnd(m: Mem, g: seq<Info>, path: seq<int>, plv: nat, fence: int, i: nat)
    requires PathOk(m, g, path, plv, fence) && i < |path| && path[i] == fence
    ensures i == |path| - 1
  {
  }

  /** Facts a pending insertion starts from. */
  lemma PendingFacts(m: Mem, g: seq<Info>, node: int, q: KeyPtr, x: int, l: int)
    requires Pending(m, g, node, q, x, l)
    ensures InnerOk(m.body, m.parent, g, m.cap, node, l, x) && IsKid(m.body[node], l)
    ensures |m.body[node].kc.keys| == |m.body[node].kc.data| <= m.cap
            && |m.body[node].kc.keys| + |m.body[node].kc.stale| == m.cap
    ensures !Found(m.body[node].kc.keys, g[x].lo)
    ensures node != m.root ==> 0 <= m.parent[node] < |g| && g[m.parent[node]].level == g[node].level + 1
    ensures (node == m.root) == (m.parent[node] == NIL)
  {
    assert InnerOk(m.body, m.parent, g, m.cap, node, l, x);
    assert UpOk(m.body, m.parent, g, m.root, l);
    assert UpOk(m.body, m.parent, g, m.root, node);
    SeparatorIsNew(m.body, m.parent, g, m.cap, node, l, x);
  }

  /** The node has room: linking finishes the insertion. */
  lemma LinkStep(m: Mem, g: seq<Info>, node: int, q: KeyPtr, x: int, l: int, m': Mem)
    requires Pending(m, g, node, q, x, l)
    requires m.body[node].Inner? && |m.body[node].kc.keys| == |m.body[node].kc.data| && !IsFull(m.body[node].kc)
    requires m' == m.(body := m.body[node := Linked(m.body[node], Deref(m, q), x)], parent := m.parent[x := node])
    ensures Inserted(m, g, m', g, g[node].level, x, l, node, [node])
  {
    PendingFacts(m, g, node, q, x, l);
    LinkRows(m, g, m', g[node].level, l, x);
  }

  /** The linked child's parent lacks its count. */
  lemma LinkCounts(exact: bool, m: Mem, g: seq<Info>, node: int, q: KeyPtr, x: int, l: int, m': Mem, f: int, owed: int)
    requires Pending(m, g, node, q, x, l)
    requires m.body[node].Inner? && |m.body[node].kc.keys| == |m.body[node].kc.data| && !IsFull(m.body[node].kc)
    requires m' == m.(body := m.body[node := Linked(m.body[node], Deref(m, q), x)], parent := m.parent[x := node])
    requires Balanced(exact, m, g, g[node].level, NIL, 0, f, owed)
    ensures Balanced(exact, m', g, g[node].level, node, m.count[x], f, owed)
  {
    PendingFacts(m, g, node, q, x, l);
    LinkBalance(exact, m, g, m', g[node].level, l, x, f, owed);
  }

  /** Node was split into node and right, and both recounted. */
  ghost predicate Halved(m: Mem, g: seq<Info>, m': Mem, g': seq<Info>, node: int, junk: seq<int>)
    requires Sized(m, g) && 0 <= node < |g| && m.body[node].Inner?
             && |m.body[node].kc.keys| == |m.body[node].kc.data| == m.cap
  {
    && SplitMem(m, g, m', g', node, junk)
    && m'.count == m.count[node := Sum(m.count, m'.body[node])] + [Sum(m.count, m'.body[|g|])]
    && m'.next == m.next + [NIL] && m'.prev == m.prev + [NIL]
  }

  lemma HalvedNotNegative(m: Mem, g: seq<Info>, m': Mem, g': seq<Info>, node: int, junk: seq<int>)
    requires Sized(m, g) && 0 <= node < |g| && m.body[node].Inner?
    requires |m.body[node].kc.keys| == |m.body[node].kc.data| == m.cap
    requires Halved(m, g, m', g', node, junk) && NoneNegative(m.count)
    requires m'.body[node].Inner? && m'.body[|g|].Inner?
    ensures NoneNegative(m'.count)
  {
    SumNotNegative(m.count, m'.body[node], NumKids(m'.body[node]));
    SumNotNegative(m.count, m'.body[|g|], NumKids(m'.body[|g|]));
  }

  /** While its node is ahead by `owed`, a split leaves both halves together short of the old count by that. */
  lemma HalvesOwe(exact: bool, m: Mem, g: seq<Info>, m': Mem, g': seq<Info>, node: int, l: int, x: int,
                  junk: seq<int>, owed: int)
    requires Base(m, g) && 0 <= node < |g| && m.body[node].Inner?
    requires |m.body[node].kc.keys| == |m.body[node].kc.data| == m.cap
    requires InnerOk(m.body, m.parent, g, m.cap, node, l, x)
    requires Halved(m, g, m', g', node, junk) && Balanced(exact, m, g, g[node].level, NIL, 0, node, owed)
    ensures AtMost(exact, m.count[node] - owed, m'.count[node] + m'.count[|g|])
  {
    SumHalves(m.count, m.body[node], junk, m.cap, NumKids(m'.body[|g|]));
    assert BalOk(exact, m, node, NIL, 0, node, owed);
  }

  lemma MidPtr(m: Mem, node: int, cap: nat, m': Mem)
    requires 0 <= node < |m.body| && m.body[node].Inner? && Wf(m.body[node].kc, cap)
             && |m.body[node].kc.keys| == cap >= 3
    requires node < |m'.body| && m'.body[node] == LeftHalf(m.body[node])
    ensures PtrOk(m', KeyPtr(node, LeftCount(cap) - 1))
            && Deref(m', KeyPtr(node, LeftCount(cap) - 1)) == MidKey(m.body[node])
  {
  }

  lemma SplitKeepsParent(m: Mem, g: seq<Info>, node: int, q: KeyPtr, x: int, l: int, m': Mem, g': seq<Info>,
                         junk: seq<int>)
    requires Pending(m, g, node, q, x, l)
    requires m.body[node].Inner? && |m.body[node].kc.keys| == |m.body[node].kc.data| == m.cap
    requires Halved(m, g, m', g', node, junk)
    ensures m'.parent[node] == m.parent[node]
    ensures (m.parent[node] == NIL) == (node == m.root)
  {
    PendingFacts(m, g, node, q, x, l);
    KidOfNode(m, g, node, l, x, junk, node);
  }

  /** A split node other than the root asks its parent to take in the right half. */
  lemma AfterSplit(m: Mem, g: seq<Info>, node: int, q: KeyPtr, x: int, l: int, m': Mem, g': seq<Info>, junk: seq<int>)
    requires Pending(m, g, node, q, x, l) && node != m.root
    requires m.body[node].Inner? && |m.body[node].kc.keys| == |m.body[node].kc.data| == m.cap
    requires Halved(m, g, m', g', node, junk)
    ensures 0 <= m.parent[node] < |g| && m'.parent[node] == m.parent[node]
    ensures Pending(m', g', m.parent[node], KeyPtr(node, LeftCount(m.cap) - 1), |g|, node)
  {
    PendingFacts(m, g, node, q, x, l);
    SplitBase(m, g, m', g', node, junk);
    SplitAbove(m, g, m', g', node, l, x, junk);
    MidPtr(m, node, m.cap, m');
    KidOfNode(m, g, node, l, x, junk, node);
  }

  /** Only children move to the right half. */
  lemma KidOfNode(m: Mem, g: seq<Info>, node: int, l: int, x: int, junk: seq<int>, c: int)
    requires 0 <= node < |m.body| == |m.parent| == |g| && InnerOk(m.body, m.parent, g, m.cap, node, l, x)
    requires |m.body[node].kc.keys| >= 3
    requires 0 <= c < |g| && m.parent[c] != node
    ensures !IsKid(RightHalf(m.body[node], junk), c)
  {
    if IsKid(RightHalf(m.body[node], junk), c) {
      RightKidIsKid(m.body[node], junk, c);
      KidFacts(m.body, m.parent, g, m.cap, node, l, x, c);
    }
  }

  /** Adjusting counts from level lv up does not undo an insertion there. */
  lemma InsertedCounts(m: Mem, g: seq<Info>, m': Mem, g': seq<Info>, lv: nat, x: int, l: int, fence: int,
                       path: seq<int>, m'': Mem)
    requires Inserted(m, g, m', g', lv, x, l, fence, path)
    requires m'' == m'.(count := m''.count) && |m''.count| == |m'.count|
    requires forall c {:trigger m''.count[c]} :: 0 <= c < |g'| && g'[c].level < lv ==> m''.count[c] == m'.count[c]
    ensures Inserted(m, g, m'', g', lv, x, l, fence, path)
  {
    forall c | 0 <= c < |g| && g[c].level < lv ensures m''.count[c] == m.count[c] {
      assert g'[c] == g[c];
    }
  }

  /** The situation after the levels above took in the right half: x waits under the half that
      its sibling went to, and comparing its key with the promoted one tells which half that is. */
  ghost predicate Rejoined(m: Mem, g: seq<Info>, m': Mem, g': seq<Info>, node: int, q: KeyPtr, x: int, l: int,
                           fence: int, path: seq<int>)
    requires 0 <= node < |m.body| == |g| && m.body[node].Inner? && |m.body[node].kc.keys| >= 3
  {
    var mid, right, lv := MidKey(m.body[node]), |g|, g[node].level;
    && |g'| > right && |m'.body| == |m'.parent| == |g'| && 0 <= l < |g'|
    && Pending(m', g', m'.parent[l], q, x, l)
    && (m'.parent[l] == node || m'.parent[l] == right)
    && (Deref(m', q) < mid <==> m'.parent[l] == node) && Deref(m', q) != mid
    && PtrOk(m', KeyPtr(node, LeftCount(m.cap) - 1)) && Deref(m', KeyPtr(node, LeftCount(m.cap) - 1)) == mid
    && m'.body[m'.parent[l]].Inner? && !IsFull(m'.body[m'.parent[l]].kc)
    && |m'.body[m'.parent[l]].kc.keys| == |m'.body[m'.parent[l]].kc.data|
    && m'.parent[node] == m'.parent[right]
    && g'[node].level == g'[right].level == lv
    && PathOk(m', g', path, lv + 1, fence) && path[0] == m'.parent[node]
  }

  /** After the split, the sibling is under one of the halves; x is under nobody. */
  lemma SiblingHalf(m: Mem, g: seq<Info>, node: int, q: KeyPtr, x: int, l: int, m': Mem, g': seq<Info>, junk: seq<int>)
    requires Pending(m, g, node, q, x, l)
    requires m.body[node].Inner? && |m.body[node].kc.keys| == |m.body[node].kc.data| == m.cap
    requires Halved(m, g, m', g', node, junk)
    ensures m'.parent[l] == node || m'.parent[l] == |g|
    ensures m'.parent[x] == NIL
    ensures g'[x] == g[x] && g'[l] == g[l]
    ensures m'.body[q.node] == m.body[q.node] && g'[q.node] == g[q.node]
  {
    PendingFacts(m, g, node, q, x, l);
    KidOfNode(m, g, node, l, x, junk, x);
  }

  lemma HalfRoom(b: Body, junk: seq<int>, cap: nat)
    requires b.Inner? && Wf(b.kc, cap) && |b.kc.keys| == cap >= 3 && |junk| == cap - cap / 2
    ensures !IsFull(LeftHalf(b).kc) && !IsFull(RightHalf(b, junk).kc)
    ensures Wf(LeftHalf(b).kc, cap) && Wf(RightHalf(b, junk).kc, cap)
  {
    HalvesKids(b, junk, cap);
  }

  /** Which half takes x: its separator lies inside the interval of its sibling's parent. */
  lemma ChooseHalf(m: Mem, g: seq<Info>, m': Mem, g': seq<Info>, node: int, q: KeyPtr, x: int, l: int, junk: seq<int>)
    requires 0 <= l < |m'.parent| && Pending(m', g', m'.parent[l], q, x, l)
    requires 0 <= node < |m.body| == |g| < |g'| && m.body[node].Inner? && Wf(m.body[node].kc, m.cap)
    requires |m.body[node].kc.keys| == m.cap >= 3 && |junk| == m.cap - m.cap / 2
    requires m'.parent[l] == node || m'.parent[l] == |g|
    requires m'.body[node] == LeftHalf(m.body[node]) && m'.body[|g|] == RightHalf(m.body[node], junk)
    requires g'[node].hi == MidKey(m.body[node]) == g'[|g|].lo
    ensures var t := m'.parent[l];
            && (Deref(m', q) < MidKey(m.body[node]) <==> t == node)
            && Deref(m', q) != MidKey(m.body[node])
            && m'.body[t].Inner? && !IsFull(m'.body[t].kc) && |m'.body[t].kc.keys| == |m'.body[t].kc.data|
  {
    PendingFacts(m', g', m'.parent[l], q, x, l);
    SeparatorIsNew(m'.body, m'.parent, g', m'.cap, m'.parent[l], l, x);
    HalfRoom(m.body[node], junk, m.cap);
  }

  /** The row of the split node is as the split left it, whatever happened above. */
  lemma StillPending(m: Mem, g: seq<Info>, node: int, q: KeyPtr, x: int, l: int, m1: Mem, g1: seq<Info>, junk: seq<int>,
                     m2: Mem, g2: seq<Info>)
    requires Pending(m, g, node, q, x, l) && node != m.root
    requires m.body[node].Inner? && |m.body[node].kc.keys| == |m.body[node].kc.data| == m.cap
    requires Halved(m, g, m1, g1, node, junk)
    requires Base(m1, g1) && Base(m2, g2) && Rows(m2, g2, g[node].level + 1) && Below(m1, g1, m2, g2, g[node].level + 1)
    requires m2.root == m1.root || m2.root >= |g1|
    ensures Pending(m2, g2, m2.parent[l], q, x, l)
    ensures m2.parent[l] == node || m2.parent[l] == |g|
  {
    SiblingHalf(m, g, node, q, x, l, m1, g1, junk);
    SplitRow(m, g, m1, g1, node, l, x, junk);
    SplitUps(m, g, m1, g1, node, l, x, junk);
    LevelBound(m, g, node);
    RowBelow(m1, g1, m2, g2, g[node].level, l, x);
  }

  lemma Rejoin(m: Mem, g: seq<Info>, node: int, q: KeyPtr, x: int, l: int, m1: Mem, g1: seq<Info>, junk: seq<int>,
               m2: Mem, g2: seq<Info>, fence: int, path: seq<int>)
    requires Pending(m, g, node, q, x, l) && node != m.root
    requires m.body[node].Inner? && |m.body[node].kc.keys| == |m.body[node].kc.data| == m.cap
    requires Halved(m, g, m1, g1, node, junk)
    requires Inserted(m1, g1, m2, g2, g[node].level + 1, |g|, node, fence, path)
    ensures Rejoined(m, g, m2, g2, node, q, x, l, fence, path)
  {
    PendingFacts(m, g, node, q, x, l);
    StillPending(m, g, node, q, x, l, m1, g1, junk, m2, g2);
    MidPtr(m, node, m.cap, m2);
    ChooseHalf(m, g, m2, g2, node, q, x, l, junk);
  }

  lemma RejoinRoot(m: Mem, g: seq<Info>, node: int, q: KeyPtr, x: int, l: int, m1: Mem, g1: seq<Info>, junk: seq<int>,
                   m2: Mem, g2: seq<Info>)
    requires Pending(m, g, node, q, x, l) && node == m.root
    requires m.body[node].Inner? && |m.body[node].kc.keys| == |m.body[node].kc.data| == m.cap
    requires Halved(m, g, m1, g1, node, junk)
    requires GrownMem(m1, g1, m2, g2, node, |g|, MidKey(m.body[node]))
    ensures Rejoined(m, g, m2, g2, node, q, x, l, NIL, [m2.root, NIL])
  {
    var lv := g[node].level;
    PendingFacts(m, g, node, q, x, l);
    SiblingHalf(m, g, node, q, x, l, m1, g1, junk);
    SplitRow(m, g, m1, g1, node, l, x, junk);
    SplitUps(m, g, m1, g1, node, l, x, junk);
    GrowRows(m, g, m1, g1, m2, g2, l, x, junk);
    GrowRow(m1, g1, m2, g2, node, |g|, MidKey(m.body[node]), l, x);
    MidPtr(m, node, m.cap, m2);
    ChooseHalf(m, g, m2, g2, node, q, x, l, junk);
  }

  // ---- what lies below stays ----

  lemma BelowTrans(m: Mem, g: seq<Info>, m1: Mem, g1: seq<Info>, m2: Mem, g2: seq<Info>, lv: nat, lv1: nat)
    requires Below(m, g, m1, g1, lv) && Below(m1, g1, m2, g2, lv1) && lv <= lv1
    ensures Below(m, g, m2, g2, lv)
  {
    forall c | 0 <= c < |g| && g[c].level < lv
      ensures m2.body[c] == m.body[c] && g2[c] == g[c] && m2.count[c] == m.count[c]
    {
      assert m1.body[c] == m.body[c] && g1[c] == g[c] && m1.count[c] == m.count[c];
    }
    forall c | 0 <= c < |g| ensures g2[c].level == g[c].level {
      assert g1[c].level == g[c].level;
    }
    forall c | 0 <= c < |g| && g[c].level + 1 < lv ensures m2.parent[c] == m.parent[c] {
      assert g1[c].level == g[c].level && m1.parent[c] == m.parent[c];
    }
    forall c | |g| <= c < |g2| ensures g2[c].level >= lv {
      if c < |g1| { assert g1[c].level >= lv && g2[c].level == g1[c].level; }
    }
    forall c | 0 <= c < |g| ensures m2.next[c] == m.next[c] && m2.prev[c] == m.prev[c] {
      assert m1.next[c] == m.next[c] && m1.prev[c] == m.prev[c];
    }
  }

  lemma SplitBelow(m: Mem, g: seq<Info>, node: int, q: KeyPtr, x: int, l: int, m': Mem, g': seq<Info>, junk: seq<int>)
    requires Pending(m, g, node, q, x, l)
    requires m.body[node].Inner? && |m.body[node].kc.keys| == |m.body[node].kc.data| == m.cap
    requires Halved(m, g, m', g', node, junk)
    ensures Below(m, g, m', g', g[node].level)
  {
    PendingFacts(m, g, node, q, x, l);
    forall c | 0 <= c < |g| && g[c].level + 1 < g[node].level ensures m'.parent[c] == m.parent[c] {
      if IsKid(m'.body[|g|], c) {
        RightKidIsKid(m.body[node], junk, c);
        KidFacts(m.body, m.parent, g, m.cap, node, l, x, c);
      }
    }
  }

  lemma GrowBelow(m1: Mem, g1: seq<Info>, m2: Mem, g2: seq<Info>, n: int, r: int, mid: int)
    requires Shaped(m1, g1) && 0 <= n < |g1| && 0 <= r < |g1| && g1[r].level == g1[n].level
    requires GrownMem(m1, g1, m2, g2, n, r, mid)
    requires m2.count == m1.count + [m1.count[n] + m1.count[r]]
    requires m2.next == m1.next + [NIL] && m2.prev == m1.prev + [NIL]
    ensures Below(m1, g1, m2, g2, g1[n].level + 1)
  {
  }

  lemma LinkBelow(m: Mem, g: seq<Info>, m': Mem, g': seq<Info>, lv: nat, m'': Mem, t: int, b: Body, x: int)
    requires Below(m, g, m', g', lv)
    requires 0 <= t < |g'| && g'[t].level >= lv && 0 <= x < |g'| && g'[x].level + 1 >= lv
    requires m'' == m'.(body := m'.body[t := b], parent := m'.parent[x := t])
    ensures Below(m, g, m'', g', lv)
  {
    forall c | 0 <= c < |g| && g[c].level < lv
      ensures m''.body[c] == m.body[c] && g'[c] == g[c] && m''.count[c] == m.count[c]
    {
      assert m'.body[c] == m.body[c] && g'[c] == g[c];
    }
    forall c | 0 <= c < |g| && g[c].level + 1 < lv ensures m''.parent[c] == m.parent[c] {
      assert g'[c].level == g[c].level && m'.parent[c] == m.parent[c];
    }
  }

  /** The last link, seen from before the split. */
  lemma FinishSplit(m: Mem, g: seq<Info>, node: int, q: KeyPtr, x: int, l: int, m2: Mem, g2: seq<Info>,
                    fence: int, path: seq<int>, m3: Mem)
    requires Pending(m, g, node, q, x, l)
    requires m.body[node].Inner? && |m.body[node].kc.keys| == |m.body[node].kc.data| == m.cap
    requires Rejoined(m, g, m2, g2, node, q, x, l, fence, path)
    requires Below(m, g, m2, g2, g[node].level)
    requires m2.root == m.root || m2.root >= |g|
    requires var t := m2.parent[l];
             m3 == m2.(body := m2.body[t := Linked(m2.body[t], Deref(m2, q), x)], parent := m2.parent[x := t])
    ensures Inserted(m, g, m3, g2, g[node].level, x, l, fence, [m2.parent[l]] + path)
  {
    var t, lv := m2.parent[l], g[node].level;
    LinkStep(m2, g2, t, q, x, l, m3);
    LinkBelow(m, g, m2, g2, lv, m3, t, m3.body[t], x);
    var path' := [t] + path;
    forall i | 0 <= i < |path'| - 1
      ensures 0 <= path'[i] < |g2| && g2[path'[i]].level == lv + i && m3.parent[path'[i]] == path'[i + 1]
    {
      if i > 0 {
        assert path'[i] == path[i - 1];
        assert g2[path[i - 1]].level == lv + 1 + (i - 1);
      }
    }
  }

  /** Once the levels above are balanced but for the fence, so is the level of the split. */
  lemma CascadeBalance(exact: bool, m: Mem, g: seq<Info>, node: int, q: KeyPtr, x: int, l: int, m1: Mem,
                       g1: seq<Info>, junk: seq<int>,
                       m2: Mem, g2: seq<Info>, fence: int, owed: int)
    requires Pending(m, g, node, q, x, l)
    requires m.body[node].Inner? && |m.body[node].kc.keys| == |m.body[node].kc.data| == m.cap
    requires Halved(m, g, m1, g1, node, junk)
    requires Below(m1, g1, m2, g2, g[node].level + 1)
    requires Balanced(exact, m, g, g[node].level, NIL, 0, node, owed)
    requires Balanced(exact, m2, g2, g[node].level + 1, NIL, 0, fence, owed)
    requires fence == NIL || (0 <= fence < |g2| && g2[fence].level > g[node].level)
    ensures Balanced(exact, m2, g2, g[node].level, NIL, 0, fence, owed)
  {
    PendingFacts(m, g, node, q, x, l);
    SplitBalance(exact, m, g, m1, g1, node, l, x, junk, owed);
    SplitRow(m, g, m1, g1, node, l, x, junk);
    BalanceBelow(exact, m1, g1, m2, g2, g[node].level, l, x, fence, owed);
  }

  lemma SplitOwes(exact: bool, m: Mem, g: seq<Info>, node: int, q: KeyPtr, x: int, l: int, m1: Mem, g1: seq<Info>,
                  junk: seq<int>, owed: int)
    requires Pending(m, g, node, q, x, l) && node != m.root
    requires m.body[node].Inner? && |m.body[node].kc.keys| == |m.body[node].kc.data| == m.cap
    requires Halved(m, g, m1, g1, node, junk)
    requires Balanced(exact, m, g, g[node].level, NIL, 0, node, owed)
    ensures Balanced(exact, m1, g1, g[node].level + 1, NIL, 0, m.parent[node], owed + m1.count[|g|])
  {
    PendingFacts(m, g, node, q, x, l);
    SplitBalance(exact, m, g, m1, g1, node, l, x, junk, owed);
  }

  /** Propagation touches only nodes from the path's level up. */
  lemma PathCounts(m: Mem, g: seq<Info>, path: seq<int>, lv: nat, fence: int)
    requires PathOk(m, g, path, lv, fence)
    ensures forall c {:trigger g[c]} :: 0 <= c < |g| && g[c].level < lv ==> c !in path[..|path| - 1]
  {
    forall c | 0 <= c < |g| && c in path[..|path| - 1] ensures g[c].level >= lv {
      var i :| 0 <= i < |path| - 1 && path[i] == c;
    }
  }

  lemma TopLevels(m: Mem, g: seq<Info>)
    requires Base(m, g)
    ensures forall c :: 0 <= c < |g| ==> g[c].level <= g[m.root].level
  {
    forall c | 0 <= c < |g| ensures g[c].level <= g[m.root].level { LevelBound(m, g, c); }
  }

  /** What the recursive call one level up needs. */
  lemma BeforeTake(exact: bool, m: Mem, g: seq<Info>, node: int, q: KeyPtr, x: int, l: int, m1: Mem, g1: seq<Info>,
                   junk: seq<int>, owed: int)
    requires Pending(m, g, node, q, x, l) && node != m.root
    requires m.body[node].Inner? && |m.body[node].kc.keys| == |m.body[node].kc.data| == m.cap
    requires Halved(m, g, m1, g1, node, junk)
    requires Balanced(exact, m, g, g[node].level, NIL, 0, node, owed)
    ensures 0 <= m.parent[node] < |g| && g[m.parent[node]].level == g[node].level + 1 <= g[m.root].level
    ensures g1[m.parent[node]] == g[m.parent[node]] && m1.root == m.root && g1[m.root].level == g[m.root].level
    ensures Pending(m1, g1, m.parent[node], KeyPtr(node, LeftCount(m.cap) - 1), |g|, node)
    ensures Balanced(exact, m1, g1, g[node].level + 1, NIL, 0, m.parent[node], owed + m1.count[|g|])
  {
    AfterSplit(m, g, node, q, x, l, m1, g1, junk);
    PendingFacts(m, g, node, q, x, l);
    LevelBound(m, g, m.parent[node]);
    SplitOwes(exact, m, g, node, q, x, l, m1, g1, junk, owed);
  }

  /** What the recursive call and the propagation give. */
  lemma AfterTake(m: Mem, g: seq<Info>, node: int, q: KeyPtr, x: int, l: int, m1: Mem, g1: seq<Info>, junk: seq<int>,
                  m2: Mem, g2: seq<Info>, fence: int, path: seq<int>, inc: int, m3: Mem)
    requires Pending(m, g, node, q, x, l) && node != m.root
    requires m.body[node].Inner? && |m.body[node].kc.keys| == |m.body[node].kc.data| == m.cap
    requires Halved(m, g, m1, g1, node, junk)
    requires Inserted(m1, g1, m2, g2, g[node].level + 1, |g|, node, fence, path)
    requires m3 == m2.(count := m3.count) && |m3.count| == |m2.count|
    requires forall c {:trigger m3.count[c]} :: 0 <= c < |g2| ==>
               m3.count[c] == m2.count[c] + if c in path[..|path| - 1] then inc else 0
    ensures Rejoined(m, g, m3, g2, node, q, x, l, fence, path)
    ensures Below(m1, g1, m3, g2, g[node].level + 1)
    ensures m3.root == m.root || m3.root >= |g|
  {
    PathCounts(m2, g2, path, g[node].level + 1, fence);
    InsertedCounts(m1, g1, m2, g2, g[node].level + 1, |g|, node, fence, path, m3);
    Rejoin(m, g, node, q, x, l, m1, g1, junk, m3, g2, fence, path);
  }

  /** Seen from before the split: what lies below is as it was, and only the fence is ahead. */
  lemma BeforeLink(exact: bool, m: Mem, g: seq<Info>, node: int, q: KeyPtr, x: int, l: int, m1: Mem, g1: seq<Info>,
                   junk: seq<int>,
                   m2: Mem, g2: seq<Info>, fence: int, path: seq<int>, owed: int)
    requires Pending(m, g, node, q, x, l)
    requires m.body[node].Inner? && |m.body[node].kc.keys| == |m.body[node].kc.data| == m.cap
    requires Halved(m, g, m1, g1, node, junk)
    requires Below(m1, g1, m2, g2, g[node].level + 1)
    requires PathOk(m2, g2, path, g[node].level + 1, fence)
    requires Balanced(exact, m, g, g[node].level, NIL, 0, node, owed)
    requires Balanced(exact, m2, g2, g[node].level + 1, NIL, 0, fence, owed)
    ensures Below(m, g, m2, g2, g[node].level)
    ensures Balanced(exact, m2, g2, g[node].level, NIL, 0, fence, owed)
  {
    SplitBelow(m, g, node, q, x, l, m1, g1, junk);
    BelowTrans(m, g, m1, g1, m2, g2, g[node].level, g[node].level + 1);
    CascadeBalance(exact, m, g, node, q, x, l, m1, g1, junk, m2, g2, fence, owed);
  }
}
