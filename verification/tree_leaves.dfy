/**
 The leaves: what they hold, the chain that links them, and how their cached counts
 determine the rank of every key.
 */
module TreeLeaves {
  import opened SortedView
  import opened TreeShape
  import opened TreeRows
  import opened TreeCounts
  import opened TreeCascade

  ghost predicate LeafOk(b: seq<Body>, g: seq<Info>, cap: nat, model: map<int, int>, n: int)
    requires 0 <= n < |b| == |g|
  {
    && b[n].Leaf? && Wf(b[n].kv, cap)
    && g[n].lo < g[n].hi
    && Holds(b[n].kv, model, g[n].lo, g[n].hi)
  }

  ghost predicate Leaves(m: Mem, g: seq<Info>, model: map<int, int>) {
    && |m.body| == |g|
    && forall n {:trigger LeafOk(m.body, g, m.cap, model, n)} ::
         0 <= n < |g| && g[n].level == 0 ==> LeafOk(m.body, g, m.cap, model, n)
  }

  /** The neighbours of a leaf serve the neighbouring intervals and link back. */
  ghost predicate ChainOk(next: seq<int>, prev: seq<int>, g: seq<Info>, bound: int, n: int)
    requires 0 <= n < |next| == |prev| == |g|
  {
    && (if g[n].hi == bound then next[n] == NIL else
          0 <= next[n] < |g| && g[next[n]].level == 0 && g[next[n]].lo == g[n].hi && prev[next[n]] == n)
    && (if g[n].lo == 0 then prev[n] == NIL else
          0 <= prev[n] < |g| && g[prev[n]].level == 0 && g[prev[n]].hi == g[n].lo && next[prev[n]] == n)
    && 0 <= g[n].lo && g[n].hi <= bound
  }

  ghost predicate Chain(m: Mem, g: seq<Info>) {
    && |m.next| == |m.prev| == |g|
    && forall n {:trigger ChainOk(m.next, m.prev, g, m.bound, n)} ::
         0 <= n < |g| && g[n].level == 0 ==> ChainOk(m.next, m.prev, g, m.bound, n)
  }

  /** A leaf's cached count is at most its number of keys, `a` being one key behind; if `exact`, it is that number. */
  ghost predicate LeafCountOk(exact: bool, m: Mem, n: int, a: int)
    requires 0 <= n < |m.body| == |m.count|
  {
    m.body[n].Leaf? ==>
      AtMost(exact, m.count[n], |m.body[n].kv.keys| - if n == a then 1 else 0)
  }

  ghost predicate LeafCounts(exact: bool, m: Mem, a: int) {
    && |m.body| == |m.count|
    && forall n {:trigger LeafCountOk(exact, m, n, a)} :: 0 <= n < |m.body| ==> LeafCountOk(exact, m, n, a)
  }

  /** The shape and contents of a tree that stores `model`. */
  ghost predicate TreeOk(m: Mem, g: seq<Info>, model: map<int, int>) {
    && Base(m, g) && Rows(m, g, 1) && Leaves(m, g, model) && Chain(m, g)
    && m.bound > 0
    && (forall k {:trigger k in model} :: k in model ==> 0 <= k < m.bound)
  }

  /** No cached count is larger than what lies below; if `exact`, each is the number of keys below. */
  ghost predicate Counts(exact: bool, m: Mem, g: seq<Info>) {
    Balanced(exact, m, g, 1, NIL, 0, NIL, 0) && LeafCounts(exact, m, NIL)
  }

  // ---- leaf split ----

  /** Leaf n was split into n and the fresh leaf r; then one of them took in a key. Only the two
      leaves and the chain around them changed. */
  ghost predicate LeafSplit(m: Mem, g: seq<Info>, m': Mem, g': seq<Info>, n: int, mid: int) {
    var r := |g|;
    && Shaped(m, g) && Shaped(m', g') && |g'| == r + 1
    && 0 <= n < r && g[n].level == 0 && m.body[n].Leaf?
    && m'.cap == m.cap && m'.bound == m.bound && m'.root == m.root
    && m'.body[n].Leaf? && m'.body[r].Leaf?
    && |m'.body[r].kv.keys| > 0 && m'.body[r].kv.keys[0] == mid
    && (forall c {:trigger m'.body[c]} {:trigger g'[c]} :: 0 <= c < r && c != n ==>
         m'.body[c] == m.body[c] && g'[c] == g[c])
    && g'[n] == g[n].(hi := mid) && g'[r] == g[n].(lo := mid)
    && g[n].lo < mid < g[n].hi
    && m'.parent == m.parent + [NIL]
  }

  lemma LeafSplitGap(m: Mem, g: seq<Info>, m': Mem, g': seq<Info>, n: int, mid: int, c: int)
    requires LeafSplit(m, g, m', g', n, mid)
    requires 0 <= c < |g| && g[c].level == 1 && InnerOk(m.body, m.parent, g, m.cap, c, NIL, NIL)
    ensures InnerOk(m'.body, m'.parent, g', m'.cap, c, n, |g|)
  {
    forall i | 0 <= i < NumKids(m'.body[c]) ensures KidOk(m'.body, m'.parent, g', c, n, |g|, i) {
      assert KidOk(m.body, m.parent, g, c, NIL, NIL, i);
    }
  }

  /** After a leaf split the new leaf waits beside the old one. */
  lemma LeafSplitPending(m: Mem, g: seq<Info>, m': Mem, g': seq<Info>, n: int, mid: int)
    requires Base(m, g) && Rows(m, g, 1) && LeafSplit(m, g, m', g', n, mid)
    ensures 0 <= m.parent[n] < |g| && g[m.parent[n]].level == 1
    ensures Pending(m', g', m.parent[n], KeyPtr(|g|, 0), |g|, n)
  {
    var b, p, b', p', r := m.body, m.parent, m'.body, m'.parent, |g|;
    assert UpOk(b, p, g, m.root, n);
    forall c | 0 <= c < |g'| ensures KindOk(b', g', m'.root, c) {
      assert KindOk(b, g, m.root, n);
      if c < r { assert KindOk(b, g, m.root, c); }
    }
    forall c | 0 <= c < |g'| && g'[c].level == 1 ensures InnerOk(b', p', g', m'.cap, c, n, r) {
      assert InnerOk(b, p, g, m.cap, c, NIL, NIL);
      LeafSplitGap(m, g, m', g', n, mid, c);
    }
    forall c | 0 <= c < |g'| && g'[c].level >= 2 ensures InnerOk(b', p', g', m'.cap, c, NIL, NIL) {
      assert InnerOk(b, p, g, m.cap, c, NIL, NIL);
      InnerFrame(b, p, g, b', p', g', m.cap, c, NIL, NIL, NIL, NIL);
    }
    forall c | 0 <= c < |g'| && c != r ensures UpOk(b', p', g', m'.root, c) {
      assert UpOk(b, p, g, m.root, c);
    }
  }

  /** The chain after a leaf split. */
  ghost predicate ChainSplit(m: Mem, m': Mem, n: int)
    requires 0 <= n < |m.next| == |m.prev|
  {
    var r := |m.next|;
    && m'.next == m.next[n := r] + [m.next[n]]
    && m'.prev == (if 0 <= m.next[n] < r then m.prev[m.next[n] := r] else m.prev) + [n]
  }

  lemma LeafSplitChain(m: Mem, g: seq<Info>, m': Mem, g': seq<Info>, n: int, mid: int)
    requires Chain(m, g) && LeafSplit(m, g, m', g', n, mid) && ChainSplit(m, m', n)
    ensures Chain(m', g')
  {
    var r := |g|;
    assert ChainOk(m.next, m.prev, g, m.bound, n);
    forall c | 0 <= c < |g'| && g'[c].level == 0 ensures ChainOk(m'.next, m'.prev, g', m'.bound, c) {
      if c < r { assert ChainOk(m.next, m.prev, g, m.bound, c); }
    }
  }

  /** The leaf split itself, before the new key is put: the halves hold what the leaf held. */
  lemma LeafSplitHolds(m: Mem, g: seq<Info>, model: map<int, int>, m': Mem, g': seq<Info>, n: int, mid: int,
                       junk: seq<int>)
    requires Leaves(m, g, model) && LeafSplit(m, g, m', g', n, mid)
    requires m.cap >= 3 && |m.body[n].kv.keys| == |m.body[n].kv.data| == m.cap
             && |junk| == m.cap - (m.cap - LeftCount(m.cap))
    requires mid == m.body[n].kv.keys[LeftCount(m.cap)]
    requires m'.body[n].kv == SplitLeft(m.body[n].kv) && m'.body[|g|].kv == SplitRight(m.body[n].kv, junk)
    ensures Leaves(m', g', model)
    ensures !IsFull(m'.body[n].kv) && !IsFull(m'.body[|g|].kv)
  {
    assert LeafOk(m.body, g, m.cap, model, n);
    SplitWf(m.body[n].kv, junk, m.cap);
    SplitHolds(m.body[n].kv, junk, model, g[n].lo, g[n].hi);
    forall c | 0 <= c < |g'| && g'[c].level == 0 ensures LeafOk(m'.body, g', m'.cap, model, c) {
      if c < |g| { assert LeafOk(m.body, g, m.cap, model, c); }
    }
  }

  /** Putting a key into the leaf that serves it updates the model. */
  lemma LeafPutHolds(m: Mem, g: seq<Info>, model: map<int, int>, n: int, k: int, v: int, m': Mem)
    requires Leaves(m, g, model) && 0 <= n < |g| && g[n].level == 0 && g[n].lo <= k < g[n].hi
    requires forall c :: 0 <= c < |g| && g[c].level == 0 && c != n ==> k < g[c].lo || g[c].hi <= k
    requires m.body[n].Leaf? && |m.body[n].kv.keys| == |m.body[n].kv.data|
    requires Found(m.body[n].kv.keys, k) || !IsFull(m.body[n].kv)
    requires m'.body == m.body[n := Leaf(Put(m.body[n].kv, k, v))] && m'.cap == m.cap
    ensures Leaves(m', g, model[k := v])
    ensures |m'.body[n].kv.keys| == |m.body[n].kv.keys| + (if k in model then 0 else 1)
  {
    assert LeafOk(m.body, g, m.cap, model, n);
    PutIsUpdate(m.body[n].kv, k, v, m.cap, model, g[n].lo, g[n].hi);
    forall c | 0 <= c < |g| && g[c].level == 0 ensures LeafOk(m'.body, g, m'.cap, model[k := v], c) {
      assert LeafOk(m.body, g, m.cap, model, c);
      if c != n { HoldsOther(m.body[c].kv, model, model[k := v], g[c].lo, g[c].hi, k); }
    }
  }

  lemma LeafDelHolds(m: Mem, g: seq<Info>, model: map<int, int>, n: int, k: int, m': Mem)
    requires Leaves(m, g, model) && 0 <= n < |g| && g[n].level == 0 && g[n].lo <= k < g[n].hi
    requires forall c :: 0 <= c < |g| && g[c].level == 0 && c != n ==> k < g[c].lo || g[c].hi <= k
    requires m.body[n].Leaf? && |m.body[n].kv.keys| == |m.body[n].kv.data|
    requires m'.body == m.body[n := Leaf(Del(m.body[n].kv, k))] && m'.cap == m.cap
    ensures Leaves(m', g, model - {k})
    ensures |m'.body[n].kv.keys| == |m.body[n].kv.keys| - (if k in model then 1 else 0)
    ensures Found(m.body[n].kv.keys, k) <==> k in model
  {
    assert LeafOk(m.body, g, m.cap, model, n);
    DelIsRemoval(m.body[n].kv, k, m.cap, model, g[n].lo, g[n].hi);
    forall c | 0 <= c < |g| && g[c].level == 0 ensures LeafOk(m'.body, g, m'.cap, model - {k}, c) {
      assert LeafOk(m.body, g, m.cap, model, c);
      if c != n { HoldsOther(m.body[c].kv, model, model - {k}, g[c].lo, g[c].hi, k); }
    }
  }

  /** Models that differ only at a key elsewhere are the same to an array. */
  lemma HoldsOther(a: SArr<int>, model: map<int, int>, model': map<int, int>, lo: int, hi: int, k: int)
    requires |a.keys| == |a.data| && Holds(a, model, lo, hi)
    requires k < lo || hi <= k
    requires forall x :: x != k ==> ((x in model <==> x in model') && (x in model ==> model'[x] == model[x]))
    ensures Holds(a, model', lo, hi)
  {
    forall i | 0 <= i < |a.keys| ensures EntryOk(a, model', lo, hi, i) {
      assert EntryOk(a, model, lo, hi, i);
    }
    forall x | x in model' && lo <= x < hi ensures x in a.keys {
      assert x in model;
    }
  }

  // ---- one server per key and level ----

  lemma KidInside(b: seq<Body>, p: seq<int>, g: seq<Info>, cap: nat, n: int, c: int)
    requires 0 <= n < |b| == |p| == |g| && InnerOk(b, p, g, cap, n, NIL, NIL)
    requires IsKid(b[n], c)
    ensures 0 <= c < |b| && g[n].lo <= g[c].lo < g[c].hi <= g[n].hi
    ensures g[c].lo == Post(b[n], g[n], KidIndex(b[n], c)) && g[c].hi == Post(b[n], g[n], KidIndex(b[n], c) + 1)
  {
    var i := KidIndex(b[n], c);
    assert KidOk(b, p, g, n, NIL, NIL, i);
    PostsAscend(b, p, g, cap, n, NIL, NIL, i, i + 1);
    if i > 0 { PostsAscend(b, p, g, cap, n, NIL, NIL, 0, i); }
    if i + 1 < NumKids(b[n]) { PostsAscend(b, p, g, cap, n, NIL, NIL, i + 1, NumKids(b[n])); }
  }

  /** Two nodes of one level that both serve a key are one node. */
  lemma {:induction false} ServerUnique(m: Mem, g: seq<Info>, lv: nat, n: int, c: int, k: int)
    requires Base(m, g) && lv >= 1 && Rows(m, g, lv)
    requires 0 <= n < |g| && 0 <= c < |g| && g[n].level == g[c].level && g[n].level + 1 >= lv
    requires g[n].lo <= k < g[n].hi && g[c].lo <= k < g[c].hi
    ensures n == c
    decreases g[m.root].level + 1 - g[n].level
  {
    LevelBound(m, g, n);
    if g[n].level == g[m.root].level {
      RowsUp(m, g, lv, g[m.root].level + 1);
      TopIsRoot(m, g, n);
      TopIsRoot(m, g, c);
    } else {
      assert UpOk(m.body, m.parent, g, m.root, n) && UpOk(m.body, m.parent, g, m.root, c);
      var np, cp := m.parent[n], m.parent[c];
      assert InnerOk(m.body, m.parent, g, m.cap, np, NIL, NIL) && InnerOk(m.body, m.parent, g, m.cap, cp, NIL, NIL);
      KidInside(m.body, m.parent, g, m.cap, np, n);
      KidInside(m.body, m.parent, g, m.cap, cp, c);
      ServerUnique(m, g, lv, np, cp, k);
      var i, j := KidIndex(m.body[np], n), KidIndex(m.body[np], c);
      if i < j { PostsAscendTo(m.body, m.parent, g, m.cap, np, i + 1, j); }
      if j < i { PostsAscendTo(m.body, m.parent, g, m.cap, np, j + 1, i); }
    }
  }

  lemma PostsAscendTo(b: seq<Body>, p: seq<int>, g: seq<Info>, cap: nat, n: int, i: int, j: int)
    requires 0 <= n < |b| == |p| == |g| && InnerOk(b, p, g, cap, n, NIL, NIL)
    requires 0 <= i <= j <= NumKids(b[n])
    ensures Post(b[n], g[n], i) <= Post(b[n], g[n], j)
  {
    if i < j { PostsAscend(b, p, g, cap, n, NIL, NIL, i, j); }
  }

  lemma RowsUp(m: Mem, g: seq<Info>, lv: nat, lv': nat)
    requires Rows(m, g, lv) && lv <= lv'
    ensures Rows(m, g, lv')
  {
  }

  /** The leaf that serves k is the only one. */
  lemma LeafAlone(m: Mem, g: seq<Info>, n: int, k: int)
    requires Base(m, g) && Rows(m, g, 1)
    requires 0 <= n < |g| && g[n].level == 0 && g[n].lo <= k < g[n].hi
    ensures forall c :: 0 <= c < |g| && g[c].level == 0 && c != n ==> k < g[c].lo || g[c].hi <= k
  {
    forall c | 0 <= c < |g| && g[c].level == 0 && g[c].lo <= k < g[c].hi ensures c == n {
      ServerUnique(m, g, 1, n, c, k);
    }
  }

  // ---- counting ----

  /** The number of stored keys in [lo, hi). */
  function Cnt(model: map<int, int>, lo: int, hi: int): nat {
    |set k | k in model && lo <= k < hi|
  }

  lemma CntSplit(model: map<int, int>, lo: int, mid: int, hi: int)
    requires lo <= mid <= hi
    ensures Cnt(model, lo, hi) == Cnt(model, lo, mid) + Cnt(model, mid, hi)
  {
    var a, b := set k | k in model && lo <= k < mid, set k | k in model && mid <= k < hi;
    assert (set k | k in model && lo <= k < hi) == a + b;
  }

  lemma CntEmpty(model: map<int, int>, lo: int, hi: int)
    requires forall k :: k in model ==> k < lo || hi <= k
    ensures Cnt(model, lo, hi) == 0
  {
    assert (set k | k in model && lo <= k < hi) == {};
  }

  lemma CntPositive(model: map<int, int>, lo: int, hi: int, k: int)
    requires k in model && lo <= k < hi
    ensures Cnt(model, lo, hi) > 0
  {
    var s := set x | x in model && lo <= x < hi;
    assert s == {k} + (s - {k});
  }

  /** One key and none after it. */
  lemma CntOne(model: map<int, int>, lo: int, hi: int)
    requires lo in model && lo < hi && forall k :: k in model && lo < k ==> hi <= k
    ensures Cnt(model, lo, hi) == 1
  {
    assert (set k | k in model && lo <= k < hi) == {lo};
  }

  /** An array holds as many keys as the model has in its interval. */
  lemma {:induction false} HoldsCount(a: SArr<int>, model: map<int, int>, lo: int, hi: int, i: nat)
    requires |a.keys| == |a.data| && Ascending(a.keys) && Holds(a, model, lo, hi) && lo <= hi
    requires i <= |a.keys|
    ensures Cnt(model, lo, if i < |a.keys| then a.keys[i] else hi) == i
  {
    var to := if i < |a.keys| then a.keys[i] else hi;
    if i == 0 {
      assert 0 < |a.keys| ==> EntryOk(a, model, lo, hi, 0);
      forall k | k in model && lo <= k < hi ensures to <= k {
        assert k in a.keys;
        var j :| 0 <= j < |a.keys| && a.keys[j] == k;
        if 0 < j { NoneBefore(a.keys, 0, j); }
      }
      CntEmpty(model, lo, to);
    } else {
      HoldsCount(a, model, lo, hi, i - 1);
      var from := a.keys[i - 1];
      assert EntryOk(a, model, lo, hi, i - 1);
      assert i < |a.keys| ==> Less(a.keys, i - 1, i);
      forall k | k in model && from < k ensures to <= k {
        if k < to {
          assert i < |a.keys| ==> EntryOk(a, model, lo, hi, i);
          assert k in a.keys;
          var j :| 0 <= j < |a.keys| && a.keys[j] == k;
          if j < i - 1 { NoneBefore(a.keys, j, i - 1); }
          if i < j { NoneBefore(a.keys, i, j); }
        }
      }
      CntOne(model, from, to);
      CntSplit(model, lo, from, to);
    }
  }

  lemma NoneBefore(keys: seq<int>, i: int, j: int)
    requires Ascending(keys) && 0 <= i < j < |keys|
    ensures keys[i] < keys[j]
  {
    assert Less(keys, i, j);
  }

  /** A node's count is at most the number of stored keys it serves; with exact caches it is that number. */
  lemma {:induction false} CountIsCnt(exact: bool, m: Mem, g: seq<Info>, model: map<int, int>, n: int)
    requires TreeOk(m, g, model) && Counts(exact, m, g) && 0 <= n < |g|
    ensures AtMost(exact, m.count[n], Cnt(model, g[n].lo, g[n].hi))
    decreases g[n].level, 1, 0
  {
    assert KindOk(m.body, g, m.root, n);
    if g[n].level == 0 {
      assert LeafOk(m.body, g, m.cap, model, n) && LeafCountOk(exact, m, n, NIL);
      HoldsCount(m.body[n].kv, model, g[n].lo, g[n].hi, |m.body[n].kv.keys|);
    } else {
      assert InnerOk(m.body, m.parent, g, m.cap, n, NIL, NIL) && BalOk(exact, m, n, NIL, 0, NIL, 0);
      PrefixIsCnt(exact, m, g, model, n, NumKids(m.body[n]));
    }
  }

  /** The first k children account for the keys below the k-th post. */
  lemma {:induction false} PrefixIsCnt(exact: bool, m: Mem, g: seq<Info>, model: map<int, int>, n: int, k: nat)
    requires TreeOk(m, g, model) && Counts(exact, m, g) && 0 <= n < |g| && m.body[n].Inner?
    requires InnerOk(m.body, m.parent, g, m.cap, n, NIL, NIL) && k <= NumKids(m.body[n])
    ensures AtMost(exact, SumKids(m.count, m.body[n], k), Cnt(model, g[n].lo, Post(m.body[n], g[n], k)))
    decreases g[n].level, 0, k
  {
    if k == 0 {
      CntEmpty(model, g[n].lo, g[n].lo);
    } else {
      assert KidOk(m.body, m.parent, g, n, NIL, NIL, k - 1);
      PrefixIsCnt(exact, m, g, model, n, k - 1);
      CountIsCnt(exact, m, g, model, Kid(m.body[n], k - 1));
      PostsAscendTo(m.body, m.parent, g, m.cap, n, 0, k - 1);
      PostsAscendTo(m.body, m.parent, g, m.cap, n, k - 1, k);
      CntSplit(model, g[n].lo, Post(m.body[n], g[n], k - 1), Post(m.body[n], g[n], k));
    }
  }

  // ---- insertion at the leaf ----

  /** Which half serves the key, and that it does so alone. */
  lemma HalfAlone(m: Mem, g: seq<Info>, m': Mem, g': seq<Info>, n: int, mid: int, k: int)
    requires Base(m, g) && Rows(m, g, 1) && LeafSplit(m, g, m', g', n, mid)
    requires g[n].lo <= k < g[n].hi
    ensures var t := if k < mid then n else |g|;
            && g'[t].lo <= k < g'[t].hi
            && forall c :: 0 <= c < |g'| && g'[c].level == 0 && c != t ==> k < g'[c].lo || g'[c].hi <= k
  {
    LeafAlone(m, g, n, k);
  }

  /** A key that is not below the first one does not replace it as the first. */
  lemma PutKeepsFirst(a: SArr<int>, k: int, v: int)
    requires 0 < |a.keys| == |a.data| && Ascending(a.keys) && a.keys[0] <= k
    requires Found(a.keys, k) || !IsFull(a)
    ensures |Put(a, k, v).keys| > 0 && Put(a, k, v).keys[0] == a.keys[0]
  {
  }

  /** A split leaf's two counts share what the leaf had; its parent is ahead by the right one. */
  lemma LeafSplitBalance(exact: bool, m: Mem, g: seq<Info>, m': Mem, g': seq<Info>, n: int, mid: int)
    requires Base(m, g) && Rows(m, g, 1) && LeafSplit(m, g, m', g', n, mid)
    requires Balanced(exact, m, g, 1, NIL, 0, NIL, 0)
    requires AtMost(exact, m.count[n], m'.count[n] + m'.count[|g|])
    requires forall c {:trigger m'.count[c]} :: 0 <= c < |g| && c != n ==> m'.count[c] == m.count[c]
    ensures Balanced(exact, m', g', 1, NIL, 0, m.parent[n], m'.count[|g|])
  {
    var bumped := m.count[n := m.count[n] + (m'.count[n] - m.count[n])];
    assert UpOk(m.body, m.parent, g, m.root, n);
    forall c | 0 <= c < |g'| && g'[c].level >= 1 ensures BalOk(exact, m', c, NIL, 0, m.parent[n], m'.count[|g|]) {
      assert InnerOk(m.body, m.parent, g, m.cap, c, NIL, NIL) && BalOk(exact, m, c, NIL, 0, NIL, 0);
      SumOfKid(m, g, c, NIL, NIL, n, m'.count[n] - m.count[n]);
      if IsKid(m.body[c], n) { KidFacts(m.body, m.parent, g, m.cap, c, NIL, NIL, n); }
      forall i | 0 <= i < NumKids(m.body[c])
        ensures 0 <= Kid(m.body[c], i) < |bumped| && m'.count[Kid(m.body[c], i)] == bumped[Kid(m.body[c], i)]
      {
        assert KidOk(m.body, m.parent, g, c, NIL, NIL, i);
      }
      SumSame(bumped, m'.count, m.body[c], m'.body[c], NumKids(m.body[c]));
    }
  }

  /** An insertion into the index leaves the leaves alone. */
  lemma LeavesBelow(exact: bool, m: Mem, g: seq<Info>, m': Mem, g': seq<Info>, model: map<int, int>, a: int)
    requires Base(m, g) && Base(m', g') && Below(m, g, m', g', 1) && Leaves(m, g, model) && Chain(m, g)
    requires LeafCounts(exact, m, a)
    ensures Leaves(m', g', model) && Chain(m', g')
    ensures LeafCounts(exact, m', a)
  {
    forall c | 0 <= c < |g'| && g'[c].level == 0 ensures LeafOk(m'.body, g', m'.cap, model, c) {
      assert c < |g| && g'[c].level == g[c].level;
      assert LeafOk(m.body, g, m.cap, model, c);
    }
    forall c | 0 <= c < |g'| && g'[c].level == 0 ensures ChainOk(m'.next, m'.prev, g', m'.bound, c) {
      assert c < |g| && g'[c].level == g[c].level;
      assert ChainOk(m.next, m.prev, g, m.bound, c);
      assert m'.next[c] == m.next[c] && m'.prev[c] == m.prev[c];
      if m.next[c] != NIL { assert g'[m.next[c]] == g[m.next[c]] && m'.prev[m.next[c]] == m.prev[m.next[c]]; }
      if m.prev[c] != NIL { assert g'[m.prev[c]] == g[m.prev[c]] && m'.next[m.prev[c]] == m.next[m.prev[c]]; }
    }
    forall c | 0 <= c < |g'| ensures LeafCountOk(exact, m', c, a) {
      assert KindOk(m'.body, g', m'.root, c);
      if c < |g| {
        assert KindOk(m.body, g, m.root, c) && LeafCountOk(exact, m, c, a);
        assert g'[c].level == g[c].level;
      }
    }
  }

  /** From every node the parents lead to the root. */
  lemma {:induction false} PathToRoot(m: Mem, g: seq<Info>, n: int) returns (path: seq<int>)
    requires Base(m, g) && Rows(m, g, 1) && 0 <= n < |g|
    ensures PathOk(m, g, path, g[n].level, NIL) && path[0] == n && |path| >= 2
    decreases g[m.root].level + 1 - g[n].level
  {
    LevelBound(m, g, n);
    assert UpOk(m.body, m.parent, g, m.root, n);
    if n == m.root {
      path := [n, NIL];
    } else {
      LevelBound(m, g, m.parent[n]);
      var rest := PathToRoot(m, g, m.parent[n]);
      path := [n] + rest;
      forall i | 0 <= i < |path| - 1
        ensures 0 <= path[i] < |g| && g[path[i]].level == g[n].level + i && m.parent[path[i]] == path[i + 1]
      {
        if i > 0 { assert path[i] == rest[i - 1]; }
      }
    }
  }

  /** A leaf that is `inc` behind has, as yet, no effect on the balance of internal nodes. */
  lemma LeafIsShort(exact: bool, m: Mem, g: seq<Info>, n: int, inc: int, owed: int)
    requires Base(m, g) && Balanced(exact, m, g, 1, NIL, 0, NIL, 0) && 0 <= n < |g| && g[n].level == 0
    ensures Balanced(exact, m, g, 1, n, inc, NIL, owed)
  {
    forall c | 0 <= c < |g| && g[c].level >= 1 ensures BalOk(exact, m, c, n, inc, NIL, owed) {
      assert BalOk(exact, m, c, NIL, 0, NIL, 0);
    }
  }

  lemma LeafSplitCounts(exact: bool, m: Mem, g: seq<Info>, m': Mem, g': seq<Info>, n: int, mid: int, late: int)
    requires Base(m, g) && Rows(m, g, 1) && LeafSplit(m, g, m', g', n, mid)
    requires Balanced(exact, m, g, 1, NIL, 0, NIL, 0) && LeafCounts(exact, m, NIL)
    requires m'.count[n] + m'.count[|g|] == |m.body[n].kv.keys|
    requires forall c {:trigger m'.count[c]} :: 0 <= c < |g| && c != n ==> m'.count[c] == m.count[c]
    requires LeafCountOk(exact, m', n, late) && LeafCountOk(exact, m', |g|, late)
    requires late == NIL || late == n || late == |g|
    ensures Balanced(exact, m', g', 1, NIL, 0, m.parent[n], m'.count[|g|]) && LeafCounts(exact, m', late)
  {
    assert LeafCountOk(exact, m, n, NIL);
    LeafSplitBalance(exact, m, g, m', g', n, mid);
    forall c | 0 <= c < |g'| ensures LeafCountOk(exact, m', c, late) {
      if c < |g| && c != n { assert LeafCountOk(exact, m, c, NIL); }
    }
  }

  /** A settled fence is no fence. */
  lemma AnyFence(exact: bool, m: Mem, g: seq<Info>, f: int)
    requires Balanced(exact, m, g, 1, NIL, 0, f, 0)
    ensures Balanced(exact, m, g, 1, NIL, 0, NIL, 0)
  {
    forall c | 0 <= c < |g| && g[c].level >= 1 ensures BalOk(exact, m, c, NIL, 0, NIL, 0) {
      assert BalOk(exact, m, c, NIL, 0, f, 0);
    }
  }

  /** Rewriting a leaf's array touches neither the index nor the chain. */
  lemma LeafChanged(m: Mem, g: seq<Info>, m': Mem, n: int)
    requires Base(m, g) && Rows(m, g, 1) && 0 <= n < |g| && g[n].level == 0
    requires m' == m.(body := m'.body) && |m'.body| == |m.body| && m'.body[n].Leaf?
    requires forall c {:trigger m'.body[c]} :: 0 <= c < |g| && c != n ==> m'.body[c] == m.body[c]
    ensures Base(m', g) && Rows(m', g, 1)
  {
    forall c | 0 <= c < |g| ensures KindOk(m'.body, g, m'.root, c) {
      assert KindOk(m.body, g, m.root, c);
    }
    forall c | 0 <= c < |g| && g[c].level >= 1 ensures InnerOk(m'.body, m'.parent, g, m'.cap, c, NIL, NIL) {
      assert InnerOk(m.body, m.parent, g, m.cap, c, NIL, NIL);
      InnerFrame(m.body, m.parent, g, m'.body, m'.parent, g, m.cap, c, NIL, NIL, NIL, NIL);
    }
    forall c | 0 <= c < |g| ensures UpOk(m'.body, m'.parent, g, m'.root, c) {
      assert UpOk(m.body, m.parent, g, m.root, c);
    }
  }

  lemma LeafChangedCounts(exact: bool, m: Mem, g: seq<Info>, m': Mem, n: int, late: int)
    requires Base(m, g) && 0 <= n < |g| && g[n].level == 0
    requires m' == m.(body := m'.body) && |m'.body| == |m.body| && m'.body[n].Leaf?
    requires forall c {:trigger m'.body[c]} :: 0 <= c < |g| && c != n ==> m'.body[c] == m.body[c]
    requires Counts(exact, m, g)
    requires (late == NIL || late == n)
    requires m.body[n].Leaf? && |m'.body[n].kv.keys| == |m.body[n].kv.keys| + if late == n then 1 else 0
    ensures Balanced(exact, m', g, 1, NIL, 0, NIL, 0) && LeafCounts(exact, m', late)
  {
    forall c | 0 <= c < |g| && g[c].level >= 1 ensures BalOk(exact, m', c, NIL, 0, NIL, 0) {
      assert BalOk(exact, m, c, NIL, 0, NIL, 0);
    }
    forall c | 0 <= c < |g| ensures LeafCountOk(exact, m', c, late) {
      assert LeafCountOk(exact, m, c, NIL);
    }
  }

  // ---- descent ----

  /** `find_serving_node_by_key`: the child behind the last separator not above the key serves it. */
  lemma ServingKid(m: Mem, g: seq<Info>, n: int, key: int)
    requires 0 <= n < |m.body| == |m.parent| == |g| && InnerOk(m.body, m.parent, g, m.cap, n, NIL, NIL)
    requires g[n].lo <= key < g[n].hi
    ensures var p := Passed(m.body[n].kc.keys, key);
            && p < NumKids(m.body[n])
            && var c := Kid(m.body[n], p);
               0 <= c < |g| && g[c].lo <= key < g[c].hi && g[c].level + 1 == g[n].level
               && g[c].lo == Post(m.body[n], g[n], p) >= g[n].lo
  {
    PostsAscendTo(m.body, m.parent, g, m.cap, n, 0, Passed(m.body[n].kc.keys, key));
    assert KidOk(m.body, m.parent, g, n, NIL, NIL, Passed(m.body[n].kc.keys, key));
  }

  /** Walking to the p-th child, the keys passed are those below its interval. */
  lemma PassedCount(exact: bool, m: Mem, g: seq<Info>, model: map<int, int>, n: int, p: nat)
    requires TreeOk(m, g, model) && Counts(exact, m, g) && 0 <= n < |g| && g[n].level >= 1
    requires m.body[n].Inner? && p < NumKids(m.body[n]) && 0 <= g[n].lo
    ensures 0 <= Kid(m.body[n], p) < |g|
    ensures AtMost(exact, Cnt(model, 0, g[n].lo) + SumKids(m.count, m.body[n], p),
                   Cnt(model, 0, g[Kid(m.body[n], p)].lo))
    ensures g[Kid(m.body[n], p)].lo >= g[n].lo
  {
    assert InnerOk(m.body, m.parent, g, m.cap, n, NIL, NIL);
    assert KidOk(m.body, m.parent, g, n, NIL, NIL, p);
    PrefixIsCnt(exact, m, g, model, n, p);
    PostsAscendTo(m.body, m.parent, g, m.cap, n, 0, p);
    CntSplit(model, 0, g[n].lo, Post(m.body[n], g[n], p));
  }

  /** The i-th key of a leaf has i + (keys before the leaf) smaller keys in the tree. */
  lemma LeafRank(m: Mem, g: seq<Info>, model: map<int, int>, n: int, i: nat)
    requires Leaves(m, g, model) && Chain(m, g) && 0 <= n < |g| && g[n].level == 0
    requires m.body[n].Leaf? && i <= |m.body[n].kv.keys|
    ensures LeafOk(m.body, g, m.cap, model, n)
    ensures Cnt(model, 0, if i < |m.body[n].kv.keys| then m.body[n].kv.keys[i] else g[n].hi) ==
              Cnt(model, 0, g[n].lo) + i
  {
    var kv := m.body[n].kv;
    assert LeafOk(m.body, g, m.cap, model, n) && ChainOk(m.next, m.prev, g, m.bound, n);
    assert i < |kv.keys| ==> EntryOk(kv, model, g[n].lo, g[n].hi, i);
    HoldsCount(kv, model, g[n].lo, g[n].hi, i);
    CntSplit(model, 0, g[n].lo, if i < |kv.keys| then kv.keys[i] else g[n].hi);
  }

  lemma CntAll(model: map<int, int>, bound: int)
    requires forall k {:trigger k in model} :: k in model ==> 0 <= k < bound
    ensures Cnt(model, 0, bound) == |model|
  {
    assert (set k | k in model && 0 <= k < bound) == model.Keys;
  }

  /** The root's cached count is at most the number of keys; exact, it is that number. */
  lemma RootCount(exact: bool, m: Mem, g: seq<Info>, model: map<int, int>)
    requires TreeOk(m, g, model) && Counts(exact, m, g)
    ensures AtMost(exact, m.count[m.root], |model|)
  {
    CountIsCnt(exact, m, g, model, m.root);
    CntAll(model, m.bound);
  }

  lemma NotNegative(m: Mem, g: seq<Info>, model: map<int, int>)
    requires TreeOk(m, g, model) && Counts(true, m, g)
    ensures NoneNegative(m.count)
  {
    forall c | 0 <= c < |m.count| ensures m.count[c] >= 0 {
      CountIsCnt(true, m, g, model, c);
    }
  }

  /** On the way up from a node, every node serves what it serves. */
  lemma {:induction false} PathServes(m: Mem, g: seq<Info>, path: seq<int>, key: int, i: nat)
    requires Base(m, g) && Rows(m, g, 1) && PathOk(m, g, path, 0, NIL)
    requires i < |path| - 1 && g[path[0]].lo <= key < g[path[0]].hi
    ensures g[path[i]].lo <= key < g[path[i]].hi
  {
    if i > 0 {
      PathServes(m, g, path, key, i - 1);
      var c, n := path[i - 1], path[i];
      assert UpOk(m.body, m.parent, g, m.root, c);
      assert InnerOk(m.body, m.parent, g, m.cap, n, NIL, NIL);
      KidInside(m.body, m.parent, g, m.cap, n, c);
    }
  }

  /** The nodes on the way from a leaf to the root are those that serve a key of the leaf. */
  lemma PathIsServers(m: Mem, g: seq<Info>, path: seq<int>, key: int, c: int)
    requires Base(m, g) && Rows(m, g, 1) && PathOk(m, g, path, 0, NIL) && |path| > 1
    requires g[path[0]].lo <= key < g[path[0]].hi && 0 <= c < |g|
    ensures c in path[..|path| - 1] <==> g[c].lo <= key < g[c].hi
  {
    if c in path[..|path| - 1] {
      var i :| 0 <= i < |path| - 1 && path[i] == c;
      PathServes(m, g, path, key, i);
    }
    if g[c].lo <= key < g[c].hi {
      LevelBound(m, g, c);
      var top := path[|path| - 2];
      assert g[top].level == |path| - 2 && m.parent[top] == NIL;
      assert UpOk(m.body, m.parent, g, m.root, top);
      var i := g[c].level;
      assert path[..|path| - 1][i] == path[i] && g[path[i]].level == i;
      PathServes(m, g, path, key, i);
      ServerUnique(m, g, 1, path[i], c, key);
    }
  }

  lemma LeafChangedBalance(exact: bool, m: Mem, g: seq<Info>, m': Mem, n: int)
    requires Base(m, g) && Balanced(exact, m, g, 1, NIL, 0, NIL, 0) && 0 <= n < |g| && g[n].level == 0
    requires m' == m.(body := m'.body) && |m'.body| == |m.body| && m'.body[n].Leaf?
    requires forall c {:trigger m'.body[c]} :: 0 <= c < |g| && c != n ==> m'.body[c] == m.body[c]
    ensures Balanced(exact, m', g, 1, NIL, 0, NIL, 0)
  {
    forall c | 0 <= c < |g| && g[c].level >= 1 ensures BalOk(exact, m', c, NIL, 0, NIL, 0) {
      assert BalOk(exact, m, c, NIL, 0, NIL, 0);
    }
  }

  /** A path from a leaf meets no other leaf. */
  lemma PathLeaf(m: Mem, g: seq<Info>, path: seq<int>, fence: int)
    requires PathOk(m, g, path, 0, fence) && |path| >= 2
    ensures path[0] in path[..|path| - 1]
    ensures forall c {:trigger g[c]} :: 0 <= c < |g| && g[c].level == 0 && c != path[0] ==> c !in path[..|path| - 1]
  {
    assert path[..|path| - 1][0] == path[0];
    forall c | 0 <= c < |g| && c in path[..|path| - 1] && c != path[0] ensures g[c].level > 0 {
      var i :| 0 <= i < |path| - 1 && path[i] == c;
    }
  }

  /** After a change by `d` keys in leaf n has been carried to the root, the counts are exact;
      if the leaf's keys did not change that way, they are not. */
  lemma CarriedCounts(m: Mem, g: seq<Info>, m1: Mem, m2: Mem, n: int, path: seq<int>, d: int)
    requires Base(m, g) && LeafCounts(true, m, NIL) && 0 <= n < |g| && g[n].level == 0 && m.body[n].Leaf?
    requires m1 == m.(body := m1.body) && |m1.body| == |m.body| && m1.body[n].Leaf?
    requires forall c {:trigger m1.body[c]} :: 0 <= c < |g| && c != n ==> m1.body[c] == m.body[c]
    requires m2 == m1.(count := m2.count) && |m2.count| == |g|
    requires PathOk(m1, g, path, 0, NIL) && path[0] == n && |path| >= 2
    requires forall c {:trigger m2.count[c]} :: 0 <= c < |g| ==>
               m2.count[c] == m1.count[c] + if c in path[..|path| - 1] then d else 0
    requires d != 0
    ensures LeafCounts(true, m2, NIL) <==> |m1.body[n].kv.keys| == |m.body[n].kv.keys| + d
  {
    PathLeaf(m1, g, path, NIL);
    assert LeafCountOk(true, m, n, NIL);
    if |m1.body[n].kv.keys| == |m.body[n].kv.keys| + d {
      forall c | 0 <= c < |g| ensures LeafCountOk(true, m2, c, NIL) {
        assert LeafCountOk(true, m, c, NIL) && KindOk(m.body, g, m.root, c);
      }
    } else {
      assert !LeafCountOk(true, m2, n, NIL);
    }
  }

  /** Carrying a decrease to the root never makes a leaf's count too large. */
  lemma CarriedAtMost(m: Mem, g: seq<Info>, m1: Mem, m2: Mem, n: int, path: seq<int>, d: int)
    requires Base(m, g) && LeafCounts(false, m, NIL) && 0 <= n < |g| && g[n].level == 0 && m.body[n].Leaf?
    requires m1 == m.(body := m1.body) && |m1.body| == |m.body| && m1.body[n].Leaf?
    requires forall c {:trigger m1.body[c]} :: 0 <= c < |g| && c != n ==> m1.body[c] == m.body[c]
    requires m2 == m1.(count := m2.count) && |m2.count| == |g|
    requires PathOk(m1, g, path, 0, NIL) && path[0] == n && |path| >= 2
    requires forall c {:trigger m2.count[c]} :: 0 <= c < |g| ==>
               m2.count[c] == m1.count[c] + if c in path[..|path| - 1] then d else 0
    requires |m1.body[n].kv.keys| >= |m.body[n].kv.keys| + d
    ensures LeafCounts(false, m2, NIL)
  {
    PathLeaf(m1, g, path, NIL);
    forall c | 0 <= c < |g| ensures LeafCountOk(false, m2, c, NIL) {
      assert LeafCountOk(false, m, c, NIL) && KindOk(m.body, g, m.root, c);
    }
  }

  lemma LoosenBalance(exact: bool, m: Mem, g: seq<Info>)
    requires Balanced(exact, m, g, 1, NIL, 0, NIL, 0)
    ensures Balanced(false, m, g, 1, NIL, 0, NIL, 0)
  {
    forall c | 0 <= c < |g| && g[c].level >= 1 ensures BalOk(false, m, c, NIL, 0, NIL, 0) {
      assert BalOk(exact, m, c, NIL, 0, NIL, 0);
    }
  }

  /** Counts that are exact, but for a key still to be counted, are not too large. */
  lemma Loosen(exact: bool, m: Mem, g: seq<Info>, late: int)
    requires Balanced(exact, m, g, 1, NIL, 0, NIL, 0) && LeafCounts(exact, m, late)
    ensures Counts(false, m, g)
  {
    LoosenBalance(exact, m, g);
    forall c | 0 <= c < |m.body| ensures LeafCountOk(false, m, c, NIL) {
      assert LeafCountOk(exact, m, c, late);
    }
  }

  /** Carrying the new key's count to the root makes the counts exact again. */
  lemma LateCounts(exact: bool, m: Mem, g: seq<Info>, m': Mem, n: int, path: seq<int>)
    requires Base(m, g) && LeafCounts(exact, m, n) && 0 <= n < |g| && g[n].level == 0
    requires m' == m.(count := m'.count) && |m'.count| == |g|
    requires PathOk(m, g, path, 0, NIL) && path[0] == n && |path| >= 2
    requires forall c {:trigger m'.count[c]} :: 0 <= c < |g| ==>
               m'.count[c] == m.count[c] + if c in path[..|path| - 1] then 1 else 0
    ensures LeafCounts(exact, m', NIL)
  {
    PathLeaf(m, g, path, NIL);
    forall c | 0 <= c < |g| ensures LeafCountOk(exact, m', c, NIL) {
      assert LeafCountOk(exact, m, c, n) && KindOk(m.body, g, m.root, c);
    }
  }
}
