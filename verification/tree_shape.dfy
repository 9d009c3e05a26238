/**
 The memory of `nldb_array_tree` and the shape its nodes must keep.

 A node is an index. `Mem` keeps one sequence per node field, so that an assignment
 through a node pointer is an update of one sequence. Nodes are never freed.
 */
module TreeShape {
  import opened SortedView

  const NIL: int := -1

  /** The part of a node that depends on its kind. Leaves map keys to values, internal
      nodes map keys to the child on the right of the key. */
  datatype Body = Leaf(kv: SArr<int>) | Inner(left: int, kc: SArr<int>)

  datatype Mem = Mem(
    cap: nat,            // keys that fit into a node
    bound: int,          // every key lies in [0, bound)
    root: int,
    body: seq<Body>,
    parent: seq<int>,
    next: seq<int>,
    prev: seq<int>,
    count: seq<int>)     // key_count_

  /** What a node serves: the keys of [lo, hi), `level` edges above the leaves. */
  datatype Info = Info(lo: int, hi: int, level: nat)

  function NumKids(b: Body): nat
    requires b.Inner?
  {
    |b.kc.data| + 1
  }

  function Kid(b: Body, i: int): int
    requires b.Inner? && 0 <= i < NumKids(b)
  {
    if i == 0 then b.left else b.kc.data[i - 1]
  }

  predicate IsKid(b: Body, c: int) {
    b.Inner? && (c == b.left || c in b.kc.data)
  }

  /** The i-th of the keys lo, separators, hi: child i serves [Post(i), Post(i+1)). */
  function Post(b: Body, f: Info, i: int): int
    requires b.Inner? && 0 <= i <= |b.kc.keys| + 1
  {
    if i == 0 then f.lo else if i <= |b.kc.keys| then b.kc.keys[i - 1] else f.hi
  }

  /** Child i of node n points back to n and serves its share of n's interval. While the
      new right sibling `x` of child `l` waits to be linked, the two share the interval of `l`. */
  ghost predicate KidOk(b: seq<Body>, p: seq<int>, g: seq<Info>, n: int, l: int, x: int, i: int)
    requires 0 <= n < |b| == |p| == |g| && b[n].Inner? && |b[n].kc.keys| == |b[n].kc.data|
    requires 0 <= i < NumKids(b[n])
  {
    var c := Kid(b[n], i);
    && 0 <= c < |b|
    && p[c] == n
    && g[c].level + 1 == g[n].level
    && g[c].lo == Post(b[n], g[n], i)
    && (if c != l then g[c].hi == Post(b[n], g[n], i + 1) else
          && 0 <= x < |b|
          && g[x].lo == g[c].hi
          && g[x].level == g[c].level
          && g[c].lo < g[x].lo < g[x].hi
          && g[x].hi == Post(b[n], g[n], i + 1))
  }

  ghost predicate InnerOk(b: seq<Body>, p: seq<int>, g: seq<Info>, cap: nat, n: int, l: int, x: int)
    requires 0 <= n < |b| == |p| == |g|
  {
    && b[n].Inner?
    && Wf(b[n].kc, cap)
    && g[n].lo < g[n].hi
    && (|b[n].kc.keys| > 0 ==> g[n].lo < b[n].kc.keys[0])
    && (|b[n].kc.keys| > 0 ==> b[n].kc.keys[|b[n].kc.keys| - 1] < g[n].hi)
    && (forall i {:trigger KidOk(b, p, g, n, l, x, i)} :: 0 <= i < NumKids(b[n]) ==> KidOk(b, p, g, n, l, x, i))
  }

  /** A node other than the root is among the children of its parent, one level up. */
  ghost predicate UpOk(b: seq<Body>, p: seq<int>, g: seq<Info>, root: int, n: int)
    requires 0 <= n < |b| == |p| == |g|
  {
    if n == root then p[n] == NIL else
      0 <= p[n] < |b| && IsKid(b[p[n]], n) && g[p[n]].level == g[n].level + 1
  }

  ghost predicate KindOk(b: seq<Body>, g: seq<Info>, root: int, n: int)
    requires 0 <= n < |b| == |g| && 0 <= root < |b|
  {
    && (b[n].Leaf? <==> g[n].level == 0)
    && g[n].level <= g[root].level
  }

  ghost predicate Shaped(m: Mem, g: seq<Info>) {
    |m.body| == |m.parent| == |m.next| == |m.prev| == |m.count| == |g|
  }

  ghost predicate Sized(m: Mem, g: seq<Info>) {
    && Shaped(m, g)
    && 0 <= m.root < |m.body|
    && g[m.root].lo == 0 && g[m.root].hi == m.bound && g[m.root].level >= 1
    && m.cap >= 3
  }

  ghost predicate Base(m: Mem, g: seq<Info>) {
    && Sized(m, g)
    && (forall n {:trigger KindOk(m.body, g, m.root, n)} :: 0 <= n < |g| ==> KindOk(m.body, g, m.root, n))
  }

  /** The internal nodes of one level, with `x` waiting beside `l` (NIL: nobody waits). */
  ghost predicate Row(m: Mem, g: seq<Info>, lv: nat, l: int, x: int) {
    && Sized(m, g)
    && (forall n {:trigger InnerOk(m.body, m.parent, g, m.cap, n, l, x)} ::
          0 <= n < |g| && g[n].level == lv ==> InnerOk(m.body, m.parent, g, m.cap, n, l, x))
    && (forall n {:trigger UpOk(m.body, m.parent, g, m.root, n)} ::
          0 <= n < |g| && g[n].level + 1 == lv && n != x ==> UpOk(m.body, m.parent, g, m.root, n))
  }

  /** The index structure from level `lv` upwards. */
  ghost predicate Rows(m: Mem, g: seq<Info>, lv: nat) {
    && Sized(m, g)
    && (forall n {:trigger InnerOk(m.body, m.parent, g, m.cap, n, NIL, NIL)} ::
          0 <= n < |g| && g[n].level >= lv ==> InnerOk(m.body, m.parent, g, m.cap, n, NIL, NIL))
    && (forall n {:trigger UpOk(m.body, m.parent, g, m.root, n)} ::
          0 <= n < |g| && g[n].level + 1 >= lv ==> UpOk(m.body, m.parent, g, m.root, n))
  }

  // ---- facts about one internal node ----

  /** The posts of a node ascend strictly. */
  lemma PostsAscend(b: seq<Body>, p: seq<int>, g: seq<Info>, cap: nat, n: int, l: int, x: int, i: int, j: int)
    requires 0 <= n < |b| == |p| == |g| && InnerOk(b, p, g, cap, n, l, x)
    requires 0 <= i < j <= NumKids(b[n])
    ensures Post(b[n], g[n], i) < Post(b[n], g[n], j)
  {
    var ks := b[n].kc.keys;
    if i > 0 {
      assert i < |ks| ==> Less(ks, i - 1, |ks| - 1);
      if j <= |ks| { assert Less(ks, i - 1, j - 1); }
    } else {
      assert 1 < j <= |ks| ==> Less(ks, 0, j - 1);
    }
  }

  /** A node occurs once among the children. */
  lemma KidsDistinct(b: seq<Body>, p: seq<int>, g: seq<Info>, cap: nat, n: int, l: int, x: int, i: int, j: int)
    requires 0 <= n < |b| == |p| == |g| && InnerOk(b, p, g, cap, n, l, x)
    requires 0 <= i < j < NumKids(b[n])
    ensures Kid(b[n], i) != Kid(b[n], j)
  {
    PostsAscend(b, p, g, cap, n, l, x, i, j);
    assert KidOk(b, p, g, n, l, x, i) && KidOk(b, p, g, n, l, x, j);
  }

  ghost function KidIndex(b: Body, c: int): (i: int)
    requires IsKid(b, c)
    ensures 0 <= i < NumKids(b) && Kid(b, i) == c
  {
    if c == b.left then 0 else
      var j :| 0 <= j < |b.kc.data| && b.kc.data[j] == c;
      j + 1
  }

  /** Being unchanged where it looks, an internal node beside the gap stays well formed. */
  lemma InnerFrame(b: seq<Body>, p: seq<int>, g: seq<Info>, b': seq<Body>, p': seq<int>, g': seq<Info>,
                   cap: nat, n: int, l: int, x: int, l': int, x': int)
    requires 0 <= n < |b| == |p| == |g| && InnerOk(b, p, g, cap, n, l, x)
    requires |b| <= |b'| == |p'| == |g'| && b'[n] == b[n] && g'[n] == g[n]
    requires forall c :: 0 <= c < |b| && p[c] == n && IsKid(b[n], c) && g[c].level + 1 == g[n].level ==>
               p'[c] == n && g'[c] == g[c] && c != l && c != l'
    ensures InnerOk(b', p', g', cap, n, l', x')
  {
    forall i | 0 <= i < NumKids(b'[n]) ensures KidOk(b', p', g', n, l', x', i) {
      assert KidOk(b, p, g, n, l, x, i);
      assert IsKid(b[n], Kid(b[n], i));
    }
  }

  /** The same where the gap is at the node and stays. */
  lemma InnerFrameGap(b: seq<Body>, p: seq<int>, g: seq<Info>, b': seq<Body>, p': seq<int>, g': seq<Info>,
                      cap: nat, n: int, l: int, x: int)
    requires 0 <= n < |b| == |p| == |g| && InnerOk(b, p, g, cap, n, l, x)
    requires |b| <= |b'| == |p'| == |g'| && b'[n] == b[n] && g'[n] == g[n]
    requires forall c :: 0 <= c < |b| && p[c] == n && IsKid(b[n], c) && g[c].level + 1 == g[n].level ==>
               p'[c] == n && g'[c] == g[c]
    requires 0 <= x < |b| ==> g'[x] == g[x]
    ensures InnerOk(b', p', g', cap, n, l, x)
  {
    forall i | 0 <= i < NumKids(b'[n]) ensures KidOk(b', p', g', n, l, x, i) {
      assert KidOk(b, p, g, n, l, x, i);
      assert IsKid(b[n], Kid(b[n], i));
    }
  }

  // ---- linking a waiting child ----

  function Linked(b: Body, key: int, x: int): Body
    requires b.Inner? && |b.kc.keys| == |b.kc.data|
    requires Found(b.kc.keys, key) || !IsFull(b.kc)
  {
    b.(kc := Put(b.kc, key, x))
  }

  /** The separator of the waiting child falls strictly between two posts of the parent, right
      behind its left sibling: it equals no key of the node. */
  lemma SeparatorIsNew(b: seq<Body>, p: seq<int>, g: seq<Info>, cap: nat, n: int, l: int, x: int)
    requires 0 <= n < |b| == |p| == |g| && InnerOk(b, p, g, cap, n, l, x)
    requires IsKid(b[n], l)
    ensures 0 <= x < |b|
    ensures Passed(b[n].kc.keys, g[x].lo) == KidIndex(b[n], l)
    ensures g[x].lo !in b[n].kc.keys && !Found(b[n].kc.keys, g[x].lo)
    ensures g[n].lo < g[x].lo < g[n].hi
  {
    var s := KidIndex(b[n], l);
    assert KidOk(b, p, g, n, l, x, s);
    PassedUnique(b[n].kc.keys, g[x].lo, s);
    FoundIsMember(b[n].kc.keys, g[x].lo);
    if s > 0 { PostsAscend(b, p, g, cap, n, l, x, 0, s); }
    if s + 1 < NumKids(b[n]) { PostsAscend(b, p, g, cap, n, l, x, s + 1, NumKids(b[n])); }
  }

  lemma LinkedKids(b: Body, key: int, x: int, s: nat)
    requires b.Inner? && |b.kc.keys| == |b.kc.data| && !IsFull(b.kc)
    requires s == Passed(b.kc.keys, key) && !Found(b.kc.keys, key)
    ensures var b' := Linked(b, key, x);
            && NumKids(b') == NumKids(b) + 1 && |b'.kc.keys| == |b'.kc.data|
            && (forall i {:trigger Kid(b', i)} :: 0 <= i < NumKids(b') ==>
                 Kid(b', i) == if i <= s then Kid(b, i) else if i == s + 1 then x else Kid(b, i - 1))
            && (forall f: Info, i {:trigger Post(b', f, i)} :: 0 <= i <= NumKids(b') ==>
                 Post(b', f, i) == if i <= s then Post(b, f, i) else if i == s + 1 then key else Post(b, f, i - 1))
            && (forall c :: IsKid(b, c) ==> IsKid(b', c))
            && IsKid(b', x)
            && (forall c :: IsKid(b', c) && c != x ==> IsKid(b, c))
  {
    var b' := Linked(b, key, x);
    assert b'.kc.data == InsertAt(b.kc.data, s, x);
    assert b'.kc.data[s] == x;
    forall c | c in b.kc.data ensures c in b'.kc.data {
      var j :| 0 <= j < |b.kc.data| && b.kc.data[j] == c;
      assert b'.kc.data[if j < s then j else j + 1] == c;
    }
  }

  /** Linking the waiting child closes the gap. */
  lemma LinkInner(b: seq<Body>, p: seq<int>, g: seq<Info>, cap: nat, n: int, l: int, x: int)
    requires 0 <= n < |b| == |p| == |g| && InnerOk(b, p, g, cap, n, l, x)
    requires IsKid(b[n], l) && !IsFull(b[n].kc)
    requires 0 <= x < |b| && p[x] == NIL
    ensures !Found(b[n].kc.keys, g[x].lo)
    ensures InnerOk(b[n := Linked(b[n], g[x].lo, x)], p[x := n], g, cap, n, NIL, NIL)
  {
    SeparatorIsNew(b, p, g, cap, n, l, x);
    var key, s := g[x].lo, KidIndex(b[n], l);
    LinkedKids(b[n], key, x, s);
    PutWf(b[n].kc, key, x, cap);
    assert KidOk(b, p, g, n, l, x, s);
    var b', p' := b[n := Linked(b[n], key, x)], p[x := n];
    forall i | 0 <= i < NumKids(b'[n]) ensures KidOk(b', p', g, n, NIL, NIL, i) {
      if i != s + 1 {
        var i0 := if i <= s then i else i - 1;
        assert KidOk(b, p, g, n, l, x, i0);
        if i0 < s { KidsDistinct(b, p, g, cap, n, l, x, i0, s); }
        if s < i0 { KidsDistinct(b, p, g, cap, n, l, x, s, i0); }
      }
    }
  }

  // ---- splitting an internal node ----

  function MidKey(b: Body): int
    requires b.Inner? && |b.kc.keys| >= 3
  {
    b.kc.keys[LeftCount(|b.kc.keys|) - 1]
  }

  function LeftHalf(b: Body): Body
    requires b.Inner? && |b.kc.keys| == |b.kc.data| >= 3
  {
    b.(kc := RemoveMax(SplitLeft(b.kc)))
  }

  function RightHalf(b: Body, junk: seq<int>): Body
    requires b.Inner? && |b.kc.keys| == |b.kc.data| >= 3
  {
    Inner(b.kc.data[LeftCount(|b.kc.data|) - 1], SplitRight(b.kc, junk))
  }

  /** The children of the halves, in order, are the children of the node; both keep a key; the
      promoted key stays readable in the first vacated slot of the left half. */
  lemma HalvesKids(b: Body, junk: seq<int>, cap: nat)
    requires b.Inner? && Wf(b.kc, cap) && |b.kc.keys| >= 3
    requires |junk| == cap - |b.kc.keys| / 2
    ensures var l, r, n := LeftHalf(b), RightHalf(b, junk), LeftCount(|b.kc.keys|);
            && Wf(l.kc, cap) && Wf(r.kc, cap)
            && NumKids(l) == n && NumKids(r) == NumKids(b) - n
            && |l.kc.keys| == n - 1 > 0 && |r.kc.keys| > 0 && !IsFull(l.kc) && !IsFull(r.kc)
            && Slot(l.kc, |l.kc.keys|) == MidKey(b)
            && (forall i {:trigger Kid(l, i)} :: 0 <= i < n ==> Kid(l, i) == Kid(b, i))
            && (forall i {:trigger Kid(r, i)} :: 0 <= i < NumKids(r) ==> Kid(r, i) == Kid(b, n + i))
            && (forall c :: IsKid(b, c) ==> IsKid(l, c) || IsKid(r, c))
  {
    var n := LeftCount(|b.kc.keys|);
    SplitWf(b.kc, junk, cap);
    SliceAscending(SplitLeft(b.kc).keys, 0, n - 1);
    var l, r := LeftHalf(b), RightHalf(b, junk);
    assert l.kc.keys == SplitLeft(b.kc).keys[0..n - 1];
    forall c | c in b.kc.data ensures IsKid(l, c) || IsKid(r, c) {
      var j :| 0 <= j < |b.kc.data| && b.kc.data[j] == c;
      if j < n - 1 { assert l.kc.data[j] == c; }
      if j > n - 1 { assert r.kc.data[j - n] == c; }
    }
  }

  lemma HalvesPosts(b: Body, junk: seq<int>, f: Info, i: int)
    requires b.Inner? && |b.kc.keys| == |b.kc.data| >= 3 && 0 <= i
    ensures var n := LeftCount(|b.kc.keys|);
            && (i <= n ==> Post(LeftHalf(b), f.(hi := MidKey(b)), i) == Post(b, f, i))
            && (i <= |b.kc.keys| - n + 1 ==> Post(RightHalf(b, junk), f.(lo := MidKey(b)), i) == Post(b, f, n + i))
  {
  }

  /** The memory after node n was split into n and the fresh node r. */
  ghost predicate SplitStep(b: seq<Body>, p: seq<int>, g: seq<Info>, b': seq<Body>, p': seq<int>, g': seq<Info>,
                            n: int, junk: seq<int>)
    requires 0 <= n < |b| == |p| == |g| && b[n].Inner? && |b[n].kc.keys| == |b[n].kc.data| >= 3
  {
    var mid, r := MidKey(b[n]), |b|;
    && |b'| == |p'| == |g'| == |b| + 1
    && b'[n] == LeftHalf(b[n]) && b'[r] == RightHalf(b[n], junk)
    && (forall c {:trigger b'[c]} :: 0 <= c < |b| && c != n ==> b'[c] == b[c])
    && g'[n] == g[n].(hi := mid) && g'[r] == g[n].(lo := mid)
    && (forall c {:trigger g'[c]} :: 0 <= c < |b| && c != n ==> g'[c] == g[c])
    && p'[r] == NIL
    && (forall c {:trigger p'[c]} :: 0 <= c < |b| ==> p'[c] == if IsKid(b'[r], c) then r else p[c])
  }

  /** Splitting a node divides its interval at the promoted key; children go with their half,
      the waiting child stays beside its sibling. */
  lemma SplitLeftOk(b: seq<Body>, p: seq<int>, g: seq<Info>, b': seq<Body>, p': seq<int>, g': seq<Info>,
                    cap: nat, n: int, l: int, x: int, junk: seq<int>)
    requires 0 <= n < |b| == |p| == |g| && InnerOk(b, p, g, cap, n, l, x)
    requires |b[n].kc.keys| == cap >= 3 && |junk| == cap - cap / 2
    requires SplitStep(b, p, g, b', p', g', n, junk)
    ensures InnerOk(b', p', g', cap, n, l, x)
    ensures g[n].lo < MidKey(b[n]) < g[n].hi
  {
    HalvesKids(b[n], junk, cap);
    HalfEnds(b, p, g, cap, n, l, x, junk);
    forall i | 0 <= i < NumKids(b'[n]) ensures KidOk(b', p', g', n, l, x, i) {
      assert KidOk(b, p, g, n, l, x, i);
      HalvesPosts(b[n], junk, g[n], i);
      HalvesPosts(b[n], junk, g[n], i + 1);
      LeftNotRight(b, p, g, cap, n, l, x, junk, i);
    }
  }

  lemma SplitRightOk(b: seq<Body>, p: seq<int>, g: seq<Info>, b': seq<Body>, p': seq<int>, g': seq<Info>,
                     cap: nat, n: int, l: int, x: int, junk: seq<int>)
    requires 0 <= n < |b| == |p| == |g| && InnerOk(b, p, g, cap, n, l, x)
    requires |b[n].kc.keys| == cap >= 3 && |junk| == cap - cap / 2
    requires SplitStep(b, p, g, b', p', g', n, junk)
    ensures InnerOk(b', p', g', cap, |b|, l, x)
  {
    var k := LeftCount(cap);
    HalvesKids(b[n], junk, cap);
    HalfEnds(b, p, g, cap, n, l, x, junk);
    var r := |b|;
    forall i | 0 <= i < NumKids(b'[r]) ensures KidOk(b', p', g', r, l, x, i) {
      assert KidOk(b, p, g, n, l, x, k + i);
      HalvesPosts(b[n], junk, g[n], i);
      HalvesPosts(b[n], junk, g[n], i + 1);
      assert IsKid(b'[r], Kid(b'[r], i));
    }
  }

  lemma HalfEnds(b: seq<Body>, p: seq<int>, g: seq<Info>, cap: nat, n: int, l: int, x: int, junk: seq<int>)
    requires 0 <= n < |b| == |p| == |g| && InnerOk(b, p, g, cap, n, l, x)
    requires |b[n].kc.keys| == cap >= 3
    ensures var lk, rk, mid := LeftHalf(b[n]).kc.keys, RightHalf(b[n], junk).kc.keys, MidKey(b[n]);
            && g[n].lo < lk[0] && lk[|lk| - 1] < mid < rk[0] && rk[|rk| - 1] < g[n].hi
            && g[n].lo < mid < g[n].hi
  {
    var ks, k := b[n].kc.keys, LeftCount(cap);
    assert Less(ks, k - 2, k - 1) && Less(ks, k - 1, k);
    assert Less(ks, 0, k - 1) && Less(ks, k - 1, |ks| - 1);
  }

  lemma LeftNotRight(b: seq<Body>, p: seq<int>, g: seq<Info>, cap: nat, n: int, l: int, x: int, junk: seq<int>, i: int)
    requires 0 <= n < |b| == |p| == |g| && InnerOk(b, p, g, cap, n, l, x)
    requires |b[n].kc.keys| == cap >= 3 && |junk| == cap - cap / 2
    requires 0 <= i < LeftCount(cap)
    ensures !IsKid(RightHalf(b[n], junk), Kid(b[n], i))
  {
    HalvesKids(b[n], junk, cap);
    var r, c := RightHalf(b[n], junk), Kid(b[n], i);
    if IsKid(r, c) {
      var j := KidIndex(r, c);
      KidsDistinct(b, p, g, cap, n, l, x, i, LeftCount(cap) + j);
    }
  }
}
