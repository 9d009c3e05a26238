/**
 The value of one `nldb_sorted_array`: the live keys with their data pointers, and
 the slots of the key arena behind them. A slot that is vacated keeps its bytes until
 the next shift overwrites it, so the stale slots are part of the value: the tree
 passes raw pointers into them.

 Keys are compared with memcmp at one fixed length. That order is the order of the
 numbers the keys spell in base 256 (proved in module `KeyOrder`), so a key is a number.
 */
module SortedView {

  datatype SArr<D> = SArr(keys: seq<int>, data: seq<D>, stale: seq<int>)

  predicate Less(s: seq<int>, i: int, j: int)
    requires 0 <= i < |s| && 0 <= j < |s|
  {
    s[i] < s[j]
  }

  /** Strictly ascending. The trigger leaves it to each proof to name the pairs it needs. */
  predicate Ascending(s: seq<int>) {
    forall i, j {:trigger Less(s, i, j)} :: 0 <= i < j < |s| ==> Less(s, i, j)
  }

  /** Well-formed array of the given capacity (`max_key_count_`). */
  predicate Wf<D>(a: SArr<D>, cap: nat) {
    && |a.keys| == |a.data|
    && |a.keys| + |a.stale| == cap
    && Ascending(a.keys)
  }

  /** Contents of the slot a raw key pointer designates, live or stale. */
  function Slot<D>(a: SArr<D>, pos: int): int
    requires 0 <= pos < |a.keys| + |a.stale|
  {
    if pos < |a.keys| then a.keys[pos] else a.stale[pos - |a.keys|]
  }

  /** The number of keys passed by `search_forward`: its `out_data_pos` plus one. */
  function Passed(keys: seq<int>, k: int): (r: nat)
    ensures r <= |keys|
    ensures forall i :: 0 <= i < r ==> keys[i] <= k
    ensures r < |keys| ==> k < keys[r]
  {
    if keys == [] || k < keys[0] then 0 else 1 + Passed(keys[1..], k)
  }

  /** The `out_key_found` of `search_forward`: the last key passed compared equal. */
  predicate Found(keys: seq<int>, k: int) {
    Passed(keys, k) > 0 && keys[Passed(keys, k) - 1] == k
  }

  predicate IsFull<D>(a: SArr<D>) {
    a.stale == []
  }

  function InsertAt<T>(s: seq<T>, i: nat, x: T): (r: seq<T>)
    requires i <= |s|
  {
    s[..i] + [x] + s[i..]
  }

  function RemoveAt<T>(s: seq<T>, i: nat): (r: seq<T>)
    requires i < |s|
  {
    s[..i] + s[i + 1..]
  }

  function Put<D>(a: SArr<D>, k: int, d: D): SArr<D>
    requires |a.keys| == |a.data|
    requires Found(a.keys, k) || !IsFull(a)
  {
    var p := Passed(a.keys, k);
    if Found(a.keys, k) then
      a.(data := a.data[p - 1 := d])
    else
      SArr(InsertAt(a.keys, p, k), InsertAt(a.data, p, d), a.stale[1..])
  }

  /** The slot behind the shifted keys keeps a copy of the former last key. */
  function Del<D>(a: SArr<D>, k: int): SArr<D>
    requires |a.keys| == |a.data|
  {
    if Found(a.keys, k) then
      var p := Passed(a.keys, k) - 1;
      SArr(RemoveAt(a.keys, p), RemoveAt(a.data, p), [a.keys[|a.keys| - 1]] + a.stale)
    else
      a
  }

  function RemoveMax<D>(a: SArr<D>): SArr<D>
    requires 0 < |a.keys| == |a.data|
  {
    var n := |a.keys| - 1;
    SArr(a.keys[..n], a.data[..n], [a.keys[n]] + a.stale)
  }

  /** The number of keys that stay on the left of a split. */
  function LeftCount(n: nat): (r: nat)
    ensures n >= 2 ==> 0 < r < n && r >= n - r
  {
    n - n / 2
  }

  function SplitLeft<D>(a: SArr<D>): SArr<D>
    requires |a.keys| == |a.data|
  {
    var n := LeftCount(|a.keys|);
    SArr(a.keys[..n], a.data[..n], a.keys[n..] + a.stale)
  }

  /** `junk` is what the new array's arena held before. */
  function SplitRight<D>(a: SArr<D>, junk: seq<int>): SArr<D>
    requires |a.keys| == |a.data|
  {
    var n := LeftCount(|a.keys|);
    SArr(a.keys[n..], a.data[n..], junk)
  }

  ghost predicate EntryOk<D>(a: SArr<D>, m: map<int, D>, lo: int, hi: int, i: int)
    requires 0 <= i < |a.keys| == |a.data|
  {
    lo <= a.keys[i] < hi && a.keys[i] in m && m[a.keys[i]] == a.data[i]
  }

  /** The array holds exactly the entries of `m` whose keys lie in [lo, hi). */
  ghost predicate Holds<D>(a: SArr<D>, m: map<int, D>, lo: int, hi: int)
    requires |a.keys| == |a.data|
  {
    && (forall i {:trigger EntryOk(a, m, lo, hi, i)} :: 0 <= i < |a.keys| ==> EntryOk(a, m, lo, hi, i))
    && (forall k {:trigger k in a.keys} :: k in m && lo <= k < hi ==> k in a.keys)
  }

  /** In an ascending array the search finds exactly the stored keys, behind all smaller ones. */
  lemma FoundIsMember(keys: seq<int>, k: int)
    requires Ascending(keys)
    ensures Found(keys, k) <==> k in keys
    ensures Found(keys, k) ==> forall i :: 0 <= i < |keys| ==> (keys[i] < k <==> i < Passed(keys, k) - 1)
  {
    var p := Passed(keys, k);
    forall i | 0 <= i < p - 1 ensures keys[i] < keys[p - 1] {
      assert Less(keys, i, p - 1);
    }
    forall i | p < i < |keys| ensures keys[p] < keys[i] {
      assert Less(keys, p, i);
    }
    if k in keys {
      var i :| 0 <= i < |keys| && keys[i] == k;
    }
  }

  /** `Passed` is the only position that separates the keys around `k`. */
  lemma PassedUnique(keys: seq<int>, k: int, p: nat)
    requires Ascending(keys)
    requires p <= |keys|
    requires p > 0 ==> keys[p - 1] <= k
    requires p < |keys| ==> k < keys[p]
    ensures Passed(keys, k) == p
  {
    forall i | 0 <= i < p ensures keys[i] <= k {
      assert i < p - 1 ==> Less(keys, i, p - 1);
    }
  }

  lemma PutWf<D>(a: SArr<D>, k: int, d: D, cap: nat)
    requires Wf(a, cap)
    requires Found(a.keys, k) || !IsFull(a)
    ensures Wf(Put(a, k, d), cap)
  {
    var p := Passed(a.keys, k);
    if !Found(a.keys, k) {
      InsertAscending(a.keys, p, k);
    }
  }

  lemma InsertAscending(keys: seq<int>, p: nat, k: int)
    requires Ascending(keys) && p <= |keys|
    requires p > 0 ==> keys[p - 1] < k
    requires p < |keys| ==> k < keys[p]
    ensures Ascending(InsertAt(keys, p, k))
  {
    var r := InsertAt(keys, p, k);
    forall i, j | 0 <= i < j < |r| ensures Less(r, i, j) {
      var i0, j0 := if i < p then i else i - 1, if j < p then j else j - 1;
      if i != p && j != p {
        assert Less(keys, i0, j0);
      } else if j == p {
        assert i0 == p - 1 || Less(keys, i0, p - 1);
      } else {
        assert j0 == p || Less(keys, p, j0);
      }
    }
  }

  lemma RemoveAscending(keys: seq<int>, p: nat)
    requires Ascending(keys) && p < |keys|
    ensures Ascending(RemoveAt(keys, p))
  {
    var r := RemoveAt(keys, p);
    forall i, j | 0 <= i < j < |r| ensures Less(r, i, j) {
      assert Less(keys, if i < p then i else i + 1, if j < p then j else j + 1);
    }
  }

  lemma SliceAscending(keys: seq<int>, from: nat, to: nat)
    requires Ascending(keys) && from <= to <= |keys|
    ensures Ascending(keys[from..to])
  {
    forall i, j | 0 <= i < j < to - from ensures Less(keys[from..to], i, j) {
      assert Less(keys, from + i, from + j);
    }
  }

  /** `put` acts as map update on what the array holds. */
  lemma PutIsUpdate<D>(a: SArr<D>, k: int, d: D, cap: nat, m: map<int, D>, lo: int, hi: int)
    requires Wf(a, cap) && Holds(a, m, lo, hi)
    requires lo <= k < hi
    requires Found(a.keys, k) || !IsFull(a)
    ensures Wf(Put(a, k, d), cap)
    ensures Holds(Put(a, k, d), m[k := d], lo, hi)
    ensures |Put(a, k, d).keys| == |a.keys| + (if k in m then 0 else 1)
  {
    PutWf(a, k, d, cap);
    FoundIsMember(a.keys, k);
    if Found(a.keys, k) {
      ReplaceHolds(a, k, d, m, lo, hi);
    } else {
      InsertHolds(a, k, d, m, lo, hi);
    }
  }

  lemma ReplaceHolds<D>(a: SArr<D>, k: int, d: D, m: map<int, D>, lo: int, hi: int)
    requires |a.keys| == |a.data| && Ascending(a.keys) && Holds(a, m, lo, hi)
    requires Found(a.keys, k)
    ensures k in m && Holds(Put(a, k, d), m[k := d], lo, hi)
  {
    var r, p := Put(a, k, d), Passed(a.keys, k) - 1;
    assert EntryOk(a, m, lo, hi, p);
    var m' := m[k := d];
    forall i | 0 <= i < |r.keys| ensures EntryOk(r, m', lo, hi, i) {
      assert EntryOk(a, m, lo, hi, i);
      assert i < p ==> Less(a.keys, i, p);
      assert p < i ==> Less(a.keys, p, i);
    }
    forall x | x in m' && lo <= x < hi ensures x in r.keys {
      assert x in m;
      assert x in a.keys;
    }
  }

  lemma InsertHolds<D>(a: SArr<D>, k: int, d: D, m: map<int, D>, lo: int, hi: int)
    requires |a.keys| == |a.data| && Holds(a, m, lo, hi)
    requires lo <= k < hi && k !in a.keys && !IsFull(a)
    ensures !Found(a.keys, k) && k !in m
    ensures Holds(Put(a, k, d), m[k := d], lo, hi)
  {
    var r, p := Put(a, k, d), Passed(a.keys, k);
    var m' := m[k := d];
    forall i | 0 <= i < |r.keys| ensures EntryOk(r, m', lo, hi, i) {
      if i != p {
        var j := if i < p then i else i - 1;
        assert r.keys[i] == a.keys[j] && r.data[i] == a.data[j];
        assert EntryOk(a, m, lo, hi, j);
      }
    }
    forall x | x in m' && lo <= x < hi ensures x in r.keys {
      if x == k {
        assert r.keys[p] == x;
      } else {
        assert x in a.keys;
        var i :| 0 <= i < |a.keys| && a.keys[i] == x;
        assert r.keys[if i < p then i else i + 1] == x;
      }
    }
  }

  lemma DelWf<D>(a: SArr<D>, k: int, cap: nat)
    requires Wf(a, cap)
    ensures Wf(Del(a, k), cap)
  {
    if Found(a.keys, k) {
      RemoveAscending(a.keys, Passed(a.keys, k) - 1);
    }
  }

  /** `del` acts as map removal on what the array holds. */
  lemma DelIsRemoval<D>(a: SArr<D>, k: int, cap: nat, m: map<int, D>, lo: int, hi: int)
    requires Wf(a, cap) && Holds(a, m, lo, hi)
    requires lo <= k < hi
    ensures Wf(Del(a, k), cap)
    ensures Holds(Del(a, k), m - {k}, lo, hi)
    ensures |Del(a, k).keys| == |a.keys| - (if k in m then 1 else 0)
    ensures Found(a.keys, k) <==> k in m
  {
    DelWf(a, k, cap);
    FoundIsMember(a.keys, k);
    if Found(a.keys, k) {
      RemoveHolds(a, k, m, lo, hi);
    } else {
      assert k !in m;
      assert m - {k} == m;
    }
  }

  lemma RemoveHolds<D>(a: SArr<D>, k: int, m: map<int, D>, lo: int, hi: int)
    requires |a.keys| == |a.data| && Ascending(a.keys) && Holds(a, m, lo, hi)
    requires Found(a.keys, k)
    ensures k in m && Holds(Del(a, k), m - {k}, lo, hi)
  {
    var r, p := Del(a, k), Passed(a.keys, k) - 1;
    assert EntryOk(a, m, lo, hi, p);
    var m' := m - {k};
    forall i | 0 <= i < |r.keys| ensures EntryOk(r, m', lo, hi, i) {
      var j := if i < p then i else i + 1;
      assert r.keys[i] == a.keys[j] && r.data[i] == a.data[j];
      assert EntryOk(a, m, lo, hi, j);
      assert j < p ==> Less(a.keys, j, p);
      assert p < j ==> Less(a.keys, p, j);
    }
    forall x | x in m' && lo <= x < hi ensures x in r.keys {
      assert x in a.keys;
      var i :| 0 <= i < |a.keys| && a.keys[i] == x;
      assert r.keys[if i < p then i else i - 1] == x;
    }
  }

  /** A split loses, duplicates and reorders nothing, and leaves room on both sides. */
  lemma SplitWf<D>(a: SArr<D>, junk: seq<int>, cap: nat)
    requires Wf(a, cap)
    requires |a.keys| >= 2
    requires |junk| == cap - (|a.keys| - LeftCount(|a.keys|))
    ensures var l, r := SplitLeft(a), SplitRight(a, junk);
            && Wf(l, cap) && Wf(r, cap)
            && l.keys + r.keys == a.keys && l.data + r.data == a.data
            && !IsFull(l) && !IsFull(r) && 0 < |r.keys|
  {
    var n := LeftCount(|a.keys|);
    SliceAscending(a.keys, 0, n);
    SliceAscending(a.keys, n, |a.keys|);
    assert a.keys[n..] == a.keys[n..|a.keys|];
    assert a.keys[..n] == a.keys[0..n];
  }

  /** A split partitions the held entries at the right half's smallest key. */
  lemma SplitHolds<D>(a: SArr<D>, junk: seq<int>, m: map<int, D>, lo: int, hi: int)
    requires |a.keys| == |a.data| && Ascending(a.keys) && Holds(a, m, lo, hi)
    requires |a.keys| >= 2
    ensures var mid := a.keys[LeftCount(|a.keys|)];
            && lo < mid < hi
            && Holds(SplitLeft(a), m, lo, mid) && Holds(SplitRight(a, junk), m, mid, hi)
  {
    var n := LeftCount(|a.keys|);
    var mid := a.keys[n];
    var l, r := SplitLeft(a), SplitRight(a, junk);
    assert EntryOk(a, m, lo, hi, 0) && EntryOk(a, m, lo, hi, n) && Less(a.keys, 0, n);
    forall i | 0 <= i < n ensures EntryOk(l, m, lo, mid, i) {
      assert EntryOk(a, m, lo, hi, i) && Less(a.keys, i, n);
    }
    forall i | 0 <= i < |a.keys| - n ensures EntryOk(r, m, mid, hi, i) {
      assert EntryOk(a, m, lo, hi, n + i) && (i > 0 ==> Less(a.keys, n, n + i));
    }
    forall k | k in m && lo <= k < mid ensures k in l.keys {
      assert k in a.keys;
      var i :| 0 <= i < |a.keys| && a.keys[i] == k;
      assert n < i ==> Less(a.keys, n, i);
      assert l.keys[i] == k;
    }
    forall k | k in m && mid <= k < hi ensures k in r.keys {
      assert k in a.keys;
      var i :| 0 <= i < |a.keys| && a.keys[i] == k;
      assert i < n ==> Less(a.keys, i, n);
      assert r.keys[i - n] == k;
    }
  }
}
