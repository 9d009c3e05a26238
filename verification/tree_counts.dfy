/**
 The cached key counts. A node is balanced when its count is the sum of its children's.
 Insertion unbalances two nodes in a controlled way: the parent of the node just linked is
 `inc` short, and the fence is `owed` ahead because the nodes below it were recounted while
 their new siblings were detached. Propagation carries the missing count up to the fence.
 */
module TreeCounts {
  import opened SortedView
  import opened TreeShape
  import opened TreeRows

  /** The sum of the counts of the first k children (`count_all_keys_before_position`). */
  function SumKids(count: seq<int>, b: Body, k: nat): int
    requires b.Inner? && k <= NumKids(b)
  {
    if k == 0 then 0 else
      var c := Kid(b, k - 1);
      SumKids(count, b, k - 1) + if 0 <= c < |count| then count[c] else 0
  }

  function Sum(count: seq<int>, b: Body): int
    requires b.Inner?
  {
    SumKids(count, b, NumKids(b))
  }

  /** x is y if that is asked for, else not more. */
  predicate AtMost(exact: bool, x: int, y: int) {
    if exact then x == y else x <= y
  }

  /** The sum reaches the count with what is missing and what is ahead; if `exact`, it meets it. */
  ghost predicate BalOk(exact: bool, m: Mem, n: int, a: int, inc: int, f: int, owed: int)
    requires 0 <= n < |m.body| == |m.count|
  {
    m.body[n].Inner? ==>
      AtMost(exact, m.count[n] + (if n == a then inc else 0) - (if n == f then owed else 0), Sum(m.count, m.body[n]))
  }

  /** Every internal node from level lv up is balanced, but for `a` and the fence `f`. */
  ghost predicate Balanced(exact: bool, m: Mem, g: seq<Info>, lv: nat, a: int, inc: int, f: int, owed: int) {
    && |m.body| == |m.count| == |g|
    && forall n {:trigger BalOk(exact, m, n, a, inc, f, owed)} :: 0 <= n < |g| && g[n].level >= lv ==>
         BalOk(exact, m, n, a, inc, f, owed)
  }

  ghost predicate NoneNegative(count: seq<int>) {
    forall c {:trigger count[c]} :: 0 <= c < |count| ==> count[c] >= 0
  }

  lemma SumOfTwo(count: seq<int>, c: int, d: int)
    requires NoneNegative(count) && 0 <= c < |count| && 0 <= d < |count|
    ensures count[c] >= 0 && count[d] >= 0 && NoneNegative(count + [count[c] + count[d]])
  {
  }

  lemma {:induction false} SumNotNegative(count: seq<int>, b: Body, k: nat)
    requires b.Inner? && k <= NumKids(b) && NoneNegative(count)
    ensures SumKids(count, b, k) >= 0
  {
    if k == 0 {
    } else {
      SumNotNegative(count, b, k - 1);
    }
  }

  lemma {:induction false} SumSame(count: seq<int>, count': seq<int>, b: Body, b': Body, k: nat)
    requires b.Inner? && b'.Inner? && k <= NumKids(b) && k <= NumKids(b') && |count| <= |count'|
    requires forall i {:trigger Kid(b, i)} {:trigger Kid(b', i)} :: 0 <= i < k ==>
               Kid(b', i) == Kid(b, i) && 0 <= Kid(b, i) < |count| && count'[Kid(b, i)] == count[Kid(b, i)]
    ensures SumKids(count', b', k) == SumKids(count, b, k)
  {
    if k == 0 {
    } else {
      assert Kid(b', k - 1) == Kid(b, k - 1);
      SumSame(count, count', b, b', k - 1);
    }
  }

  /** Changing one child's count changes the sum by as much. */
  lemma {:induction false} SumBump(count: seq<int>, b: Body, k: nat, c: int, inc: int)
    requires b.Inner? && k <= NumKids(b) && 0 <= c < |count|
    requires forall i, j {:trigger Kid(b, i), Kid(b, j)} :: 0 <= i < j < NumKids(b) ==> Kid(b, i) != Kid(b, j)
    ensures SumKids(count[c := count[c] + inc], b, k) ==
            SumKids(count, b, k) + if exists i {:trigger Kid(b, i)} :: 0 <= i < k && Kid(b, i) == c then inc else 0
  {
    if k == 0 {
    } else {
      SumBump(count, b, k - 1, c, inc);
      var last := Kid(b, k - 1);
      assert (exists i {:trigger Kid(b, i)} :: 0 <= i < k && Kid(b, i) == c) <==>
             last == c || exists i {:trigger Kid(b, i)} :: 0 <= i < k - 1 && Kid(b, i) == c;
    }
  }

  /** Linking a child adds its count. */
  lemma {:induction false} SumLinked(count: seq<int>, b: Body, key: int, x: int, s: nat, k: nat)
    requires b.Inner? && |b.kc.keys| == |b.kc.data| && !IsFull(b.kc)
    requires s == Passed(b.kc.keys, key) && !Found(b.kc.keys, key)
    requires 0 <= x < |count|
    requires k <= NumKids(b)
    ensures NumKids(Linked(b, key, x)) == NumKids(b) + 1
    ensures k <= s ==> SumKids(count, Linked(b, key, x), k) == SumKids(count, b, k)
    ensures k > s ==> SumKids(count, Linked(b, key, x), k + 1) == SumKids(count, b, k) + count[x]
  {
    LinkedKids(b, key, x, s);
    var b' := Linked(b, key, x);
    if k == 0 {
    } else {
      SumLinked(count, b, key, x, s, k - 1);
      if k == s + 1 {
        assert Kid(b', s + 1) == x && Kid(b', s) == Kid(b, s);
        assert SumKids(count, b', s + 2) == SumKids(count, b', s + 1) + count[x];
        assert SumKids(count, b', s) == SumKids(count, b, s);
        assert SumKids(count, b', s + 1) == SumKids(count, b, s + 1);
      } else if k > s {
        assert Kid(b', k) == Kid(b, k - 1);
      } else {
        assert Kid(b', k - 1) == Kid(b, k - 1);
      }
    }
  }

  /** The halves of a split node share its sum. */
  lemma {:induction false} SumHalves(count: seq<int>, b: Body, junk: seq<int>, cap: nat, k: nat)
    requires b.Inner? && Wf(b.kc, cap) && |b.kc.keys| >= 3
    requires |junk| == cap - |b.kc.keys| / 2
    requires k <= NumKids(RightHalf(b, junk))
    ensures var n := LeftCount(|b.kc.keys|);
            NumKids(b) == n + NumKids(RightHalf(b, junk)) &&
            Sum(count, LeftHalf(b)) + SumKids(count, RightHalf(b, junk), k) == SumKids(count, b, n + k)
  {
    HalvesKids(b, junk, cap);
    var n := LeftCount(|b.kc.keys|);
    if k > 0 {
      SumHalves(count, b, junk, cap, k - 1);
      assert Kid(RightHalf(b, junk), k - 1) == Kid(b, n + (k - 1));
    } else {
      SumPrefix(count, LeftHalf(b), b, n);
    }
  }

  lemma {:induction false} SumPrefix(count: seq<int>, b: Body, b': Body, k: nat)
    requires b.Inner? && b'.Inner? && k <= NumKids(b) && k <= NumKids(b')
    requires forall i {:trigger Kid(b, i)} :: 0 <= i < k ==> Kid(b', i) == Kid(b, i)
    ensures SumKids(count, b', k) == SumKids(count, b, k)
  {
    if k == 0 {
    } else {
      assert Kid(b, k - 1) == Kid(b', k - 1);
      SumPrefix(count, b, b', k - 1);
    }
  }

  lemma BalSame(exact: bool, m: Mem, m': Mem, n: int, a: int, inc: int, f: int, owed: int)
    requires 0 <= n < |m.body| == |m.count| <= |m'.body| == |m'.count|
    requires m'.body[n] == m.body[n] && m'.count[n] == m.count[n]
    requires m.body[n].Inner? ==> forall i {:trigger Kid(m.body[n], i)} :: 0 <= i < NumKids(m.body[n]) ==>
               var c := Kid(m.body[n], i); 0 <= c < |m.count| && m'.count[c] == m.count[c]
    requires BalOk(exact, m, n, a, inc, f, owed)
    ensures BalOk(exact, m', n, a, inc, f, owed)
  {
    if m.body[n].Inner? {
      SumSame(m.count, m'.count, m.body[n], m'.body[n], NumKids(m.body[n]));
    }
  }

  /** What a detached right half does to the counts: both halves are recounted and balanced, the
      parent is ahead by the right half and by whatever the split node itself was ahead. */
  lemma SplitBalance(exact: bool, m: Mem, g: seq<Info>, m': Mem, g': seq<Info>, n: int, l: int, x: int,
                     junk: seq<int>, owed: int)
    requires Base(m, g) && 0 <= n < |g| && m.body[n].Inner? && |m.body[n].kc.keys| == |m.body[n].kc.data| == m.cap
    requires SplitMem(m, g, m', g', n, junk)
    requires Row(m, g, g[n].level, l, x) && Rows(m, g, g[n].level + 1)
    requires m'.count == m.count[n := Sum(m.count, m'.body[n])] + [Sum(m.count, m'.body[|g|])]
    requires Balanced(exact, m, g, g[n].level, NIL, 0, n, owed)
    ensures forall c {:trigger BalOk(exact, m', c, NIL, 0, NIL, 0)} :: 0 <= c < |g'| && g'[c].level == g[n].level ==>
              BalOk(exact, m', c, NIL, 0, NIL, 0)
    ensures n != m.root ==> Balanced(exact, m', g', g[n].level + 1, NIL, 0, m.parent[n], owed + m'.count[|g|])
  {
    var lv, r := g[n].level, |g|;
    assert InnerOk(m.body, m.parent, g, m.cap, n, l, x);
    SumHalves(m.count, m.body[n], junk, m.cap, NumKids(m'.body[r]));
    assert BalOk(exact, m, n, NIL, 0, n, owed) && UpOk(m.body, m.parent, g, m.root, n);
    forall c | 0 <= c < |g'| && g'[c].level == lv ensures BalOk(exact, m', c, NIL, 0, NIL, 0) {
      if c < r && c != n {
        assert InnerOk(m.body, m.parent, g, m.cap, c, l, x);
        SplitBalFar(exact, m, g, m', g', n, l, x, junk, owed, c, l, x);
      } else {
        SplitBalHalf(exact, m, g, m', g', n, l, x, junk, c);
      }
    }
    if n != m.root {
      forall c | 0 <= c < |g'| && g'[c].level >= lv + 1
        ensures BalOk(exact, m', c, NIL, 0, m.parent[n], owed + m'.count[r])
      {
        assert c < r && c != n;
        assert InnerOk(m.body, m.parent, g, m.cap, c, NIL, NIL);
        if c == m.parent[n] {
          SplitBalParent(exact, m, g, m', g', n, l, x, junk, owed);
        } else {
          SplitBalFar(exact, m, g, m', g', n, l, x, junk, owed, c, NIL, NIL);
        }
      }
    }
  }

  lemma SplitBalHalf(exact: bool, m: Mem, g: seq<Info>, m': Mem, g': seq<Info>, n: int, l: int, x: int,
                     junk: seq<int>, c: int)
    requires Base(m, g) && 0 <= n < |g| && m.body[n].Inner? && |m.body[n].kc.keys| == |m.body[n].kc.data| == m.cap
    requires SplitMem(m, g, m', g', n, junk)
    requires InnerOk(m.body, m.parent, g, m.cap, n, l, x)
    requires m'.count == m.count[n := Sum(m.count, m'.body[n])] + [Sum(m.count, m'.body[|g|])]
    requires c == n || c == |g|
    ensures BalOk(exact, m', c, NIL, 0, NIL, 0)
  {
    HalvesKids(m.body[n], junk, m.cap);
    var b' := m'.body[c];
    forall i | 0 <= i < NumKids(b') ensures 0 <= Kid(b', i) < |m.count| && m'.count[Kid(b', i)] == m.count[Kid(b', i)] {
      var j := if c == n then i else LeftCount(m.cap) + i;
      assert KidOk(m.body, m.parent, g, n, l, x, j);
    }
    SumSame(m.count, m'.count, b', b', NumKids(b'));
  }

  lemma SplitBalFar(exact: bool, m: Mem, g: seq<Info>, m': Mem, g': seq<Info>, n: int, l: int, x: int,
                    junk: seq<int>, owed: int,
                    c: int, l': int, x': int)
    requires Base(m, g) && 0 <= n < |g| && m.body[n].Inner? && |m.body[n].kc.keys| == |m.body[n].kc.data| == m.cap
    requires SplitMem(m, g, m', g', n, junk)
    requires m'.count == m.count[n := Sum(m.count, m'.body[n])] + [Sum(m.count, m'.body[|g|])]
    requires 0 <= c < |g| && c != n && c != m.parent[n] && g[c].level >= g[n].level
    requires InnerOk(m.body, m.parent, g, m.cap, c, l', x')
    requires Balanced(exact, m, g, g[n].level, NIL, 0, n, owed)
    ensures forall f, d :: f != c ==> BalOk(exact, m', c, NIL, 0, f, d)
  {
    assert BalOk(exact, m, c, NIL, 0, n, owed);
    forall i | 0 <= i < NumKids(m.body[c])
      ensures 0 <= Kid(m.body[c], i) < |m.count| && m'.count[Kid(m.body[c], i)] == m.count[Kid(m.body[c], i)]
    {
      assert KidOk(m.body, m.parent, g, c, l', x', i);
    }
    BalSame(exact, m, m', c, NIL, 0, n, owed);
  }

  lemma SplitBalParent(exact: bool, m: Mem, g: seq<Info>, m': Mem, g': seq<Info>, n: int, l: int, x: int,
                       junk: seq<int>, owed: int)
    requires Base(m, g) && 0 <= n < |g| && m.body[n].Inner? && |m.body[n].kc.keys| == |m.body[n].kc.data| == m.cap
    requires SplitMem(m, g, m', g', n, junk) && n != m.root
    requires InnerOk(m.body, m.parent, g, m.cap, n, l, x) && Rows(m, g, g[n].level + 1)
    requires m'.count == m.count[n := Sum(m.count, m'.body[n])] + [Sum(m.count, m'.body[|g|])]
    requires Balanced(exact, m, g, g[n].level, NIL, 0, n, owed)
    requires Sum(m.count, m'.body[n]) + Sum(m.count, m'.body[|g|]) == Sum(m.count, m.body[n])
    requires 0 <= m.parent[n] < |g|
    ensures BalOk(exact, m', m.parent[n], NIL, 0, m.parent[n], owed + m'.count[|g|])
  {
    var q := m.parent[n];
    assert UpOk(m.body, m.parent, g, m.root, n);
    assert InnerOk(m.body, m.parent, g, m.cap, q, NIL, NIL);
    assert BalOk(exact, m, n, NIL, 0, n, owed) && BalOk(exact, m, q, NIL, 0, n, owed);
    var bumped := m.count[n := Sum(m.count, m'.body[n])];
    SumOfKid(m, g, q, NIL, NIL, n, bumped[n] - m.count[n]);
    forall i | 0 <= i < NumKids(m.body[q])
      ensures 0 <= Kid(m.body[q], i) < |bumped| && m'.count[Kid(m.body[q], i)] == bumped[Kid(m.body[q], i)]
    {
      assert KidOk(m.body, m.parent, g, q, NIL, NIL, i);
    }
    SumSame(bumped, m'.count, m.body[q], m'.body[q], NumKids(m.body[q]));
  }

  /** A child's count moves its parent's sum, and no other. */
  lemma SumOfKid(m: Mem, g: seq<Info>, q: int, l: int, x: int, c: int, inc: int)
    requires |m.count| == |g| == |m.body| == |m.parent|
    requires 0 <= q < |g| && InnerOk(m.body, m.parent, g, m.cap, q, l, x) && 0 <= c < |g|
    ensures Sum(m.count[c := m.count[c] + inc], m.body[q]) ==
            Sum(m.count, m.body[q]) + if IsKid(m.body[q], c) then inc else 0
  {
    var b := m.body[q];
    forall i, j | 0 <= i < j < NumKids(b) ensures Kid(b, i) != Kid(b, j) {
      KidsDistinct(m.body, m.parent, g, m.cap, q, l, x, i, j);
    }
    SumBump(m.count, b, NumKids(b), c, inc);
    if IsKid(b, c) { assert Kid(b, KidIndex(b, c)) == c; }
  }

  /** Linking x leaves its parent short by x's count. */
  lemma LinkBalance(exact: bool, m: Mem, g: seq<Info>, m': Mem, lv: nat, l: int, x: int, f: int, owed: int)
    requires Base(m, g) && Row(m, g, lv, l, x) && Rows(m, g, lv + 1)
    requires 0 <= l < |g| && 0 <= x < |g| && 0 <= m.parent[l] < |g| && g[m.parent[l]].level == lv
    requires m.body[m.parent[l]].Inner? && IsKid(m.body[m.parent[l]], l) && !IsFull(m.body[m.parent[l]].kc)
    requires |m.body[m.parent[l]].kc.keys| == |m.body[m.parent[l]].kc.data|
    requires m' == m.(body := m.body[m.parent[l] := Linked(m.body[m.parent[l]], g[x].lo, x)],
                      parent := m.parent[x := m.parent[l]])
    requires Balanced(exact, m, g, lv, NIL, 0, f, owed)
    ensures Balanced(exact, m', g, lv, m.parent[l], m.count[x], f, owed)
  {
    var t := m.parent[l];
    assert InnerOk(m.body, m.parent, g, m.cap, t, l, x);
    SeparatorIsNew(m.body, m.parent, g, m.cap, t, l, x);
    SumLinked(m.count, m.body[t], g[x].lo, x, Passed(m.body[t].kc.keys, g[x].lo), NumKids(m.body[t]));
    forall c | 0 <= c < |g| && g[c].level >= lv ensures BalOk(exact, m', c, t, m.count[x], f, owed) {
      assert BalOk(exact, m, c, NIL, 0, f, owed);
    }
  }

  /** One step of the propagation: the missing count moves to the parent. */
  lemma PropagateStep(exact: bool, m: Mem, g: seq<Info>, m': Mem, lv: nat, a: int, inc: int, f: int, owed: int)
    requires Base(m, g) && lv >= 1 && Rows(m, g, lv) && 0 <= a < |g| && g[a].level + 1 >= lv
    requires m' == m.(count := m.count[a := m.count[a] + inc])
    requires Balanced(exact, m, g, lv, a, inc, f, owed)
    ensures Balanced(exact, m', g, lv, m.parent[a], inc, f, owed)
  {
    assert UpOk(m.body, m.parent, g, m.root, a);
    forall c | 0 <= c < |g| && g[c].level >= lv ensures BalOk(exact, m', c, m.parent[a], inc, f, owed) {
      assert BalOk(exact, m, c, a, inc, f, owed);
      assert InnerOk(m.body, m.parent, g, m.cap, c, NIL, NIL);
      SumOfKid(m, g, c, NIL, NIL, a, inc);
      if IsKid(m.body[c], a) {
        KidFacts(m.body, m.parent, g, m.cap, c, NIL, NIL, a);
      }
    }
  }

  /** At the fence the missing count meets what the fence is ahead. */
  lemma Settle(exact: bool, m: Mem, g: seq<Info>, lv: nat, f: int, inc: int, owed: int, net: int)
    requires Balanced(exact, m, g, lv, f, inc, f, owed) && owed == inc + net
    ensures Balanced(exact, m, g, lv, NIL, 0, f, net)
  {
    forall c | 0 <= c < |g| && g[c].level >= lv ensures BalOk(exact, m, c, NIL, 0, f, net) {
      assert BalOk(exact, m, c, f, inc, f, owed);
    }
  }

  /** Nodes below a finished insertion stay balanced. */
  lemma BalanceBelow(exact: bool, m: Mem, g: seq<Info>, m': Mem, g': seq<Info>, lv: nat, l: int, x: int, f: int,
                     owed: int)
    requires lv >= 1 && Below(m, g, m', g', lv + 1)
    requires forall c {:trigger InnerOk(m.body, m.parent, g, m.cap, c, l, x)} ::
               0 <= c < |g| && g[c].level == lv ==> InnerOk(m.body, m.parent, g, m.cap, c, l, x)
    requires forall c {:trigger BalOk(exact, m, c, NIL, 0, NIL, 0)} :: 0 <= c < |g| && g[c].level == lv ==>
               BalOk(exact, m, c, NIL, 0, NIL, 0)
    requires Balanced(exact, m', g', lv + 1, NIL, 0, f, owed)
    requires f == NIL || (0 <= f < |g'| && g'[f].level > lv)
    ensures Balanced(exact, m', g', lv, NIL, 0, f, owed)
  {
    forall c | 0 <= c < |g'| && g'[c].level >= lv ensures BalOk(exact, m', c, NIL, 0, f, owed) {
      if g'[c].level > lv {
        assert BalOk(exact, m', c, NIL, 0, f, owed);
      } else {
        assert c < |g|;
        assert BalOk(exact, m, c, NIL, 0, NIL, 0);
        assert InnerOk(m.body, m.parent, g, m.cap, c, l, x);
        forall i | 0 <= i < NumKids(m.body[c])
          ensures 0 <= Kid(m.body[c], i) < |m.count| && m'.count[Kid(m.body[c], i)] == m.count[Kid(m.body[c], i)]
        {
          assert KidOk(m.body, m.parent, g, c, l, x, i);
        }
        BalSame(exact, m, m', c, NIL, 0, NIL, 0);
      }
    }
  }

  /** The new root's count is its children's. */
  lemma GrowBalance(exact: bool, m1: Mem, g1: seq<Info>, m2: Mem, g2: seq<Info>, n: int, r: int, mid: int, owed: int)
    requires |m1.body| == |m1.parent| == |m1.count| == |g1| && 0 <= n < |g1| && 0 <= r < |g1|
    requires GrownMem(m1, g1, m2, g2, n, r, mid)
    requires m2.count == m1.count + [m1.count[n] + m1.count[r]]
    requires forall c :: 0 <= c < |g1| ==> g1[c].level <= g1[n].level
    ensures Balanced(exact, m2, g2, g1[n].level + 1, NIL, 0, NIL, owed)
  {
    var q := |g1|;
    var b := m2.body[q];
    assert Kid(b, 0) == n && Kid(b, 1) == r;
    assert SumKids(m2.count, b, 1) == SumKids(m2.count, b, 0) + m2.count[n];
    assert SumKids(m2.count, b, 2) == m2.count[n] + m2.count[r];
    forall c | 0 <= c < |g2| && g2[c].level >= g1[n].level + 1 ensures BalOk(exact, m2, c, NIL, 0, NIL, owed) {
      assert c == q;
    }
  }

  /** The children of both halves are older nodes, and not the split node. */
  lemma HalvesKidRange(m: Mem, g: seq<Info>, n: int, l: int, x: int, m': Mem, g': seq<Info>, junk: seq<int>)
    requires Sized(m, g) && 0 <= n < |g| && m.body[n].Inner? && |m.body[n].kc.keys| == |m.body[n].kc.data| == m.cap
    requires SplitMem(m, g, m', g', n, junk)
    requires InnerOk(m.body, m.parent, g, m.cap, n, l, x)
    ensures m'.body[n].Inner? && m'.body[|g|].Inner?
    ensures forall i {:trigger Kid(m'.body[n], i)} :: 0 <= i < NumKids(m'.body[n]) ==>
              0 <= Kid(m'.body[n], i) < |g| && Kid(m'.body[n], i) != n
    ensures forall i {:trigger Kid(m'.body[|g|], i)} :: 0 <= i < NumKids(m'.body[|g|]) ==>
              0 <= Kid(m'.body[|g|], i) < |g| && Kid(m'.body[|g|], i) != n
  {
    HalvesKids(m.body[n], junk, m.cap);
    forall i | 0 <= i < NumKids(m'.body[n]) ensures 0 <= Kid(m'.body[n], i) < |g| && Kid(m'.body[n], i) != n {
      assert KidOk(m.body, m.parent, g, n, l, x, i);
    }
    forall i | 0 <= i < NumKids(m'.body[|g|]) ensures 0 <= Kid(m'.body[|g|], i) < |g| && Kid(m'.body[|g|], i) != n {
      assert KidOk(m.body, m.parent, g, n, l, x, LeftCount(m.cap) + i);
    }
  }
}
