/**
 Scans that stop short. Deleting the keys of a leaf one by one leaves it empty in the chain, and a
 cursor that comes to it reports its end although keys follow.
 */
module CursorGaps {
  import opened SortedView
  import opened TreeShape
  import opened TreeLeaves
  import opened ArrayTrees
  import opened Cursors

  function Between(model: map<int, int>, lo: int, hi: int): set<int> {
    set k | k in model && lo <= k < hi
  }

  /** The keys a leaf serves are deleted: it stays, emptied, and the counts stay exact. */
  method EmptyOut(tree: ArrayTree, leaf: int)
    requires tree.Valid() && 0 <= leaf < |tree.info| && tree.info[leaf].level == 0
    modifies tree
    ensures tree.Valid() && tree.info == old(tree.info) && tree.mem.bound == old(tree.mem.bound)
    ensures tree.model == old(tree.model) - Between(old(tree.model), tree.info[leaf].lo, tree.info[leaf].hi)
    ensures Emptied(tree.mem, leaf)
    ensures old(tree.Exact()) ==> tree.Exact()
  {
    EmptyLeaf(tree.mem, tree.info, tree.model, leaf);
    LeafKeys(tree.mem, tree.info, tree.model, leaf);
    var keys := tree.mem.body[leaf].kv.keys;
    ghost var was, exact := tree.model, tree.Exact();
    var i := 0;
    while i < |keys|
      invariant 0 <= i <= |keys|
      invariant tree.Valid() && tree.info == old(tree.info) && tree.mem.bound == old(tree.mem.bound)
      invariant tree.model == was - set k | k in keys[..i]
      invariant exact ==> tree.Exact()
    {
      Fresh(keys, i);
      assert keys[i] in Between(was, tree.info[leaf].lo, tree.info[leaf].hi);
      var gone := tree.Del(keys[i]);
      assert keys[..i + 1] == keys[..i] + [keys[i]];
      i := i + 1;
    }
    assert keys[..i] == keys;
    NoKeysLeft(tree.mem, tree.info, tree.model, leaf);
  }

  lemma Fresh(keys: seq<int>, i: nat)
    requires Ascending(keys) && i < |keys|
    ensures keys[i] !in keys[..i]
  {
    forall j | 0 <= j < i ensures keys[j] != keys[i] { NoneBefore(keys, j, i); }
  }

  /** The keys of a leaf are the stored keys it serves. */
  lemma LeafKeys(m: Mem, g: seq<Info>, model: map<int, int>, leaf: int)
    requires TreeOk(m, g, model) && 0 <= leaf < |g| && g[leaf].level == 0
    ensures m.body[leaf].Leaf? && Ascending(m.body[leaf].kv.keys)
    ensures forall i :: 0 <= i < |m.body[leaf].kv.keys| ==>
              m.body[leaf].kv.keys[i] in Between(model, g[leaf].lo, g[leaf].hi)
    ensures forall k :: k in Between(model, g[leaf].lo, g[leaf].hi) ==> k in m.body[leaf].kv.keys
    ensures 0 <= g[leaf].lo < g[leaf].hi <= m.bound
  {
    assert LeafOk(m.body, g, m.cap, model, leaf);
    LeafBounds(m, g, model, leaf);
    var kv := m.body[leaf].kv;
    forall i | 0 <= i < |kv.keys| ensures kv.keys[i] in Between(model, g[leaf].lo, g[leaf].hi) {
      assert EntryOk(kv, model, g[leaf].lo, g[leaf].hi, i);
    }
  }

  lemma NoKeysLeft(m: Mem, g: seq<Info>, model: map<int, int>, leaf: int)
    requires TreeOk(m, g, model) && 0 <= leaf < |g| && g[leaf].level == 0
    requires Between(model, g[leaf].lo, g[leaf].hi) == {}
    ensures Emptied(m, leaf)
  {
    assert LeafOk(m.body, g, m.cap, model, leaf);
    var kv := m.body[leaf].kv;
    HoldsCount(kv, model, g[leaf].lo, g[leaf].hi, |kv.keys|);
    assert (set k | k in model && g[leaf].lo <= k < g[leaf].hi) == Between(model, g[leaf].lo, g[leaf].hi);
  }

  // ---- a tree with a hole ----

  function Range(lo: int, hi: int): (r: set<int>)
    requires lo <= hi
    ensures forall k :: k in r <==> lo <= k < hi
    ensures |r| == hi - lo
    decreases hi - lo
  {
    if lo == hi then {} else Range(lo, hi - 1) + {hi - 1}
  }

  /** Where every number is a key, a leaf serves no more numbers than it has slots. */
  lemma LeafSpan(m: Mem, g: seq<Info>, model: map<int, int>, leaf: int)
    requires TreeOk(m, g, model) && 0 <= leaf < |g| && g[leaf].level == 0
    requires m.bound >= 0 && model.Keys == Range(0, m.bound)
    ensures 0 <= g[leaf].lo < g[leaf].hi <= m.bound && g[leaf].hi - g[leaf].lo <= m.cap
  {
    LeafBounds(m, g, model, leaf);
    assert LeafOk(m.body, g, m.cap, model, leaf);
    var kv := m.body[leaf].kv;
    HoldsCount(kv, model, g[leaf].lo, g[leaf].hi, |kv.keys|);
    assert (set k | k in model && g[leaf].lo <= k < g[leaf].hi) == Range(g[leaf].lo, g[leaf].hi);
  }

  /** The keys 0 to 2 * cap are put in turn; they need at least three leaves. */
  method Fill(cap: nat) returns (tree: ArrayTree)
    requires cap >= 3
    ensures fresh(tree) && tree.Valid() && tree.Exact()
    ensures tree.mem.cap == cap && tree.mem.bound == 2 * cap + 1 && tree.model.Keys == Range(0, tree.mem.bound)
  {
    tree := new ArrayTree(cap, 2 * cap + 1);
    for k := 0 to 2 * cap + 1
      invariant fresh(tree) && tree.Valid() && tree.Exact()
      invariant tree.mem.cap == cap && tree.mem.bound == 2 * cap + 1 && tree.model.Keys == Range(0, k)
    {
      tree.Put(k, k);
    }
  }

  method Neighbour(tree: ArrayTree, leaf: int) returns (right: int)
    requires tree.Valid() && 0 <= leaf < |tree.info| && tree.info[leaf].level == 0
    requires tree.info[leaf].hi < tree.mem.bound
    ensures 0 <= right < |tree.info| && tree.info[right].level == 0 && tree.info[right].lo == tree.info[leaf].hi
  {
    assert ChainOk(tree.mem.next, tree.mem.prev, tree.info, tree.mem.bound, leaf);
    right := tree.mem.next[leaf];
  }

  lemma Gap(m: Mem, g: seq<Info>, first: int, hole: int, last: int)
    requires 0 <= first < |g| && 0 <= hole < |g| && 0 <= last < |g|
    requires g[first].level == g[hole].level == g[last].level == 0
    requires g[first].hi <= g[hole].lo && g[hole].hi <= g[last].lo
    requires Emptied(m, hole) && !Emptied(m, first) && !Emptied(m, last)
    ensures !GapFree(m, g, first, true) && !GapFree(m, g, last, false)
  {
    assert Beyond(g, first, hole, true) && Beyond(g, hole, last, true);
    assert Beyond(g, last, hole, false) && Beyond(g, hole, first, false);
  }

  lemma HasKey(tree: ArrayTree, leaf: int, key: int)
    requires tree.Valid() && tree.Serves(leaf, key) && key in tree.model
    ensures !Emptied(tree.mem, leaf)
  {
    LeafKeys(tree.mem, tree.info, tree.model, leaf);
    assert key in Between(tree.model, tree.info[leaf].lo, tree.info[leaf].hi);
  }

  /** Then the keys of the second leaf are deleted, each of them stored: whatever the capacity, a run
      of puts and deletes leaves an emptied leaf between two leaves with keys. */
  method MakeHole(cap: nat) returns (tree: ArrayTree, first: int, hole: int, last: int)
    requires cap >= 3
    ensures fresh(tree) && tree.Valid() && tree.Exact() && tree.mem.bound == 2 * cap + 1
    ensures 0 in tree.model && 2 * cap in tree.model
    ensures tree.Serves(first, 0) && tree.Serves(last, 2 * cap)
    ensures 0 <= hole < |tree.info| && tree.info[hole].level == 0 && Emptied(tree.mem, hole)
    ensures tree.info[first].hi <= tree.info[hole].lo < tree.info[hole].hi <= tree.info[last].lo
    ensures !GapFree(tree.mem, tree.info, first, true) && !GapFree(tree.mem, tree.info, last, false)
  {
    hide GapFree;
    hide Leaves;
    hide Chain;
    hide Rows;
    hide Base;
    hide Counts;
    hide Emptied;
    tree := Fill(cap);
    var before, visited;
    first, before, visited := tree.FindLeaf(0);
    LeafSpan(tree.mem, tree.info, tree.model, first);
    hole := Neighbour(tree, first);
    LeafSpan(tree.mem, tree.info, tree.model, hole);
    EmptyOut(tree, hole);
    last, before, visited := tree.FindLeaf(2 * cap);
    LeavesApart(tree.mem, tree.info, tree.model, hole, last);
    HasKey(tree, first, 0);
    HasKey(tree, last, 2 * cap);
    Gap(tree.mem, tree.info, first, hole, last);
  }

  /** A key of the starting leaf is delivered, a key beyond the hole is not. */
  lemma Side(tree: ArrayTree, start: int, hole: int, here: int, beyond: int, forward: bool)
    requires tree.Valid() && tree.Serves(start, here) && 0 <= hole < |tree.info| && tree.info[hole].level == 0
    requires Emptied(tree.mem, hole) && Beyond(tree.info, start, hole, forward)
    requires if forward then tree.info[hole].hi <= beyond else beyond < tree.info[hole].lo
    ensures !CutOff(tree.mem, tree.info, start, here, forward) && CutOff(tree.mem, tree.info, start, beyond, forward)
  {
    forall e | 0 <= e < |tree.info| && tree.info[e].level == 0 && Beyond(tree.info, start, e, forward)
      ensures !if forward then tree.info[e].hi <= here else here < tree.info[e].lo
    {
      LeafBounds(tree.mem, tree.info, tree.model, e);
    }
  }

  lemma Delivers(out: seq<Fetched>, ahead: set<int>, all: set<int>, here: int, beyond: int, forward: bool)
    requires RunOf(out, ahead, all, forward) && here in all && here !in ahead && beyond in ahead
    ensures here in Keys(out) && beyond !in Keys(out)
  {
  }

  /** A scan from a key on one side of a hole delivers that key and none from the other side. */
  method Scan(tree: ArrayTree, start: int, hole: int, here: int, beyond: int, forward: bool)
    returns (out: seq<Fetched>)
    requires tree.Valid() && tree.Serves(start, here) && here in tree.model && beyond in tree.model
    requires 0 <= hole < |tree.info| && tree.info[hole].level == 0 && Emptied(tree.mem, hole)
    requires Beyond(tree.info, start, hole, forward)
    requires if forward then tree.info[hole].hi <= beyond else beyond < tree.info[hole].lo
    ensures here in Keys(out) && beyond !in Keys(out)
    ensures Delivered(out, tree.model, forward)
  {
    hide Keys;
    var c := new Cursor(tree);
    ghost var at := c.SeekKey(here, forward);
    ServerUnique(tree.mem, tree.info, 1, at, start, here);
    LeavesApart(tree.mem, tree.info, tree.model, start, hole);
    Side(tree, start, hole, here, beyond, forward);
    ghost var all := c.Ahead();
    hide CutOff;
    if forward {
      out := c.DrainForward();
    } else {
      out := c.DrainBackward();
    }
    assert here in all && beyond in all && here !in c.Ahead() && beyond in c.Ahead();
    Delivers(out, c.Ahead(), all, here, beyond, forward);
  }

  /** A scan forward from the first key and one backward from the last: neither gets past the hole. */
  method StopsShort(cap: nat) returns (tree: ArrayTree, out: seq<Fetched>, back: seq<Fetched>)
    requires cap >= 3
    ensures fresh(tree) && tree.Valid() && tree.Exact() && 0 in tree.model && 2 * cap in tree.model
    ensures Delivered(out, tree.model, true) && 0 in Keys(out) && 2 * cap !in Keys(out)
    ensures Delivered(back, tree.model, false) && 2 * cap in Keys(back) && 0 !in Keys(back)
  {
    var first, hole, last;
    tree, first, hole, last := MakeHole(cap);
    out := Scan(tree, first, hole, 0, 2 * cap, true);
    back := Scan(tree, last, hole, 2 * cap, 0, false);
  }
}
