/**
 How deep the tree gets. Every internal node but the initial root separates at least two children,
 so a tree of height h has at least 2^h leaves, and only a put adds a leaf.
 */
module TreeHeight {
  import opened Arithmetic
  import opened SortedView
  import opened TreeShape
  import opened TreeRows
  import opened TreeLeaves

  /** Internal nodes have a key, except possibly e. */
  ghost predicate Bushy(b: seq<Body>, e: int) {
    forall n {:trigger b[n]} :: 0 <= n < |b| && n != e && b[n].Inner? ==> |b[n].kc.keys| > 0
  }

  /** The initial root has a single child until the first leaf is split. */
  ghost predicate Branching(m: Mem) {
    Bushy(m.body, if |m.body| == 2 then m.root else NIL)
  }

  lemma Wider(b: seq<Body>, e: int)
    requires Bushy(b, NIL)
    ensures Bushy(b, e)
  {
  }

  lemma LinkBushy(b: seq<Body>, node: int, key: int, x: int, b': seq<Body>)
    requires 0 <= node < |b| && b[node].Inner? && |b[node].kc.keys| == |b[node].kc.data|
    requires Found(b[node].kc.keys, key) || !IsFull(b[node].kc)
    requires b' == b[node := Linked(b[node], key, x)] && Bushy(b, node)
    ensures Bushy(b', NIL)
  {
  }

  lemma SplitBushy(m: Mem, g: seq<Info>, m': Mem, g': seq<Info>, node: int, l: int, x: int, junk: seq<int>)
    requires Base(m, g) && 0 <= node < |g| && InnerOk(m.body, m.parent, g, m.cap, node, l, x)
    requires |m.body[node].kc.keys| == |m.body[node].kc.data| == m.cap
    requires SplitMem(m, g, m', g', node, junk) && Bushy(m.body, node)
    ensures Bushy(m'.body, NIL)
  {
    HalvesKids(m.body[node], junk, m.cap);
  }

  lemma GrowBushy(m: Mem, g: seq<Info>, m': Mem, g': seq<Info>, n: int, r: int, mid: int)
    requires |m.body| == |m.parent| == |g| && 0 <= n < |g| && 0 <= r < |g|
    requires GrownMem(m, g, m', g', n, r, mid) && Bushy(m.body, NIL)
    ensures Bushy(m'.body, NIL)
  {
  }

  /** Leaves do not matter. */
  lemma LeafBushy(m: Mem, m': Mem, leaf: int)
    requires |m.body| == |m'.body| && m'.root == m.root && 0 <= leaf < |m.body| && m'.body[leaf].Leaf?
    requires forall c {:trigger m'.body[c]} :: 0 <= c < |m.body| && c != leaf ==> m'.body[c] == m.body[c]
    requires Branching(m)
    ensures Branching(m')
  {
  }

  /** After a leaf split, at most the parent has no key. */
  lemma LeafSplitBushy(m: Mem, g: seq<Info>, m': Mem, leaf: int)
    requires Base(m, g) && Rows(m, g, 1) && Branching(m) && 0 <= leaf < |g| && g[leaf].level == 0
    requires |m'.body| == |m.body| + 1 && m'.body[leaf].Leaf? && m'.body[|m.body|].Leaf?
    requires forall c {:trigger m'.body[c]} :: 0 <= c < |m.body| && c != leaf ==> m'.body[c] == m.body[c]
    ensures Bushy(m'.body, m.parent[leaf])
  {
    assert UpOk(m.body, m.parent, g, m.root, leaf);
    if |m.body| == 2 { assert m.parent[leaf] == m.root; }
  }

  // ---- leaves ----

  ghost function LeafSet(g: seq<Info>): set<int> {
    set c | 0 <= c < |g| && g[c].level == 0
  }

  lemma NewLeaf(g: seq<Info>, g': seq<Info>)
    requires |g'| == |g| + 1 && g'[|g|].level == 0
    requires forall c {:trigger g'[c]} :: 0 <= c < |g| ==> g'[c].level == g[c].level
    ensures |LeafSet(g')| == |LeafSet(g)| + 1
  {
    assert LeafSet(g') == LeafSet(g) + {|g|};
  }

  lemma SameLeaves(m: Mem, g: seq<Info>, m': Mem, g': seq<Info>)
    requires Below(m, g, m', g', 1)
    ensures LeafSet(g') == LeafSet(g)
  {
  }

  /** The leaves in the interval of a node. */
  ghost function LeavesIn(g: seq<Info>, n: int): (s: set<int>)
    requires 0 <= n < |g|
    ensures s <= LeafSet(g)
  {
    set c | c in LeafSet(g) && g[n].lo <= g[c].lo < g[n].hi
  }

  /** A node of level h has at least 2^h leaves below it. */
  lemma {:induction false} ManyLeaves(m: Mem, g: seq<Info>, model: map<int, int>, n: int)
    requires TreeOk(m, g, model) && Bushy(m.body, NIL) && 0 <= n < |g|
    ensures |LeavesIn(g, n)| >= Pow2(g[n].level)
    decreases g[n].level
  {
    assert KindOk(m.body, g, m.root, n);
    if g[n].level == 0 {
      assert LeafOk(m.body, g, m.cap, model, n);
      assert n in LeavesIn(g, n);
    } else {
      TwoKids(m, g, n);
      var a, b := Kid(m.body[n], 0), Kid(m.body[n], 1);
      ManyLeaves(m, g, model, a);
      ManyLeaves(m, g, model, b);
      DisjointUnion(LeavesIn(g, a), LeavesIn(g, b), LeavesIn(g, n));
    }
  }

  /** The first two children of a node serve disjoint parts of its interval. */
  lemma TwoKids(m: Mem, g: seq<Info>, n: int)
    requires Base(m, g) && Rows(m, g, 1) && Bushy(m.body, NIL) && 0 <= n < |g| && g[n].level > 0
    ensures m.body[n].Inner? && NumKids(m.body[n]) >= 2
    ensures var a, b := Kid(m.body[n], 0), Kid(m.body[n], 1);
            && 0 <= a < |g| && 0 <= b < |g| && g[a].level + 1 == g[b].level + 1 == g[n].level
            && g[n].lo <= g[a].lo && g[a].hi <= g[b].lo && g[b].hi <= g[n].hi && g[a].hi <= g[n].hi
               && g[n].lo <= g[b].lo
  {
    assert InnerOk(m.body, m.parent, g, m.cap, n, NIL, NIL);
    assert KidOk(m.body, m.parent, g, n, NIL, NIL, 0) && KidOk(m.body, m.parent, g, n, NIL, NIL, 1);
    var k := NumKids(m.body[n]);
    PostsAscend(m.body, m.parent, g, m.cap, n, NIL, NIL, 0, 1);
    PostsAscend(m.body, m.parent, g, m.cap, n, NIL, NIL, 1, 2);
    if k > 2 { PostsAscend(m.body, m.parent, g, m.cap, n, NIL, NIL, 2, k); }
  }

  lemma DisjointUnion(a: set<int>, b: set<int>, c: set<int>)
    requires a !! b && a <= c && b <= c
    ensures |a| + |b| <= |c|
  {
    Subset(a + b, c);
  }

  lemma Subset(a: set<int>, c: set<int>)
    requires a <= c
    ensures |a| <= |c|
  {
    assert c == a + (c - a);
  }

  /** The height of the index is at most the binary logarithm of the number of leaves. */
  lemma HeightBound(m: Mem, g: seq<Info>, model: map<int, int>)
    requires TreeOk(m, g, model) && Branching(m)
    ensures g[m.root].level <= 1 || Pow2(g[m.root].level) <= |LeafSet(g)|
  {
    if |m.body| == 2 {
      TwoNodes(m, g);
    } else {
      ManyLeaves(m, g, model, m.root);
      Subset(LeavesIn(g, m.root), LeafSet(g));
    }
  }

  lemma LeftKid(m: Mem, g: seq<Info>, n: int) returns (c: int)
    requires Base(m, g) && Rows(m, g, 1) && 0 <= n < |g| && g[n].level > 0
    ensures 0 <= c < |g| && g[c].level + 1 == g[n].level
  {
    assert InnerOk(m.body, m.parent, g, m.cap, n, NIL, NIL);
    assert KidOk(m.body, m.parent, g, n, NIL, NIL, 0);
    c := m.body[n].left;
  }

  lemma TwoNodes(m: Mem, g: seq<Info>)
    requires Base(m, g) && Rows(m, g, 1) && |m.body| == 2
    ensures g[m.root].level == 1
  {
    var c := LeftKid(m, g, m.root);
    if g[c].level > 0 {
      var d := LeftKid(m, g, c);
      assert false;
    }
  }
}
