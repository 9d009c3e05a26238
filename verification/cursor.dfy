/**
 Cursors: the tree's iterator (`seek_*`, `move_*`) and the order counter that the table
 plugin keeps beside it (`cursor_seek`, `cursor_fetch`).
 */
module Cursors {
  import opened SortedView
  import opened TreeShape
  import opened TreeCounts
  import opened TreeLeaves
  import opened ArrayTrees

  datatype Fetched = End | Got(key: int, value: int, order: int)

  /** The leaf that serves a key exists. */
  lemma {:induction false} ServingLeaf(m: Mem, g: seq<Info>, n: int, k: int) returns (leaf: int)
    requires Base(m, g) && Rows(m, g, 1) && 0 <= n < |g| && g[n].lo <= k < g[n].hi
    ensures 0 <= leaf < |g| && g[leaf].level == 0 && g[leaf].lo <= k < g[leaf].hi
    decreases g[n].level
  {
    if g[n].level == 0 {
      leaf := n;
    } else {
      assert InnerOk(m.body, m.parent, g, m.cap, n, NIL, NIL);
      ServingKid(m, g, n, k);
      leaf := ServingLeaf(m, g, Kid(m.body[n], Passed(m.body[n].kc.keys, k)), k);
    }
  }

  /** A position in a leaf: forward positions run from 0 to the number of keys, backward ones
      from that number less one to -1. */
  ghost predicate PosOk(m: Mem, g: seq<Info>, node: int, pos: int, forward: bool) {
    node == NIL ||
    (&& 0 <= node < |g| && |m.body| == |g| && g[node].level == 0 && m.body[node].Leaf?
     && if forward then 0 <= pos <= |m.body[node].kv.keys| else -1 <= pos < |m.body[node].kv.keys|)
  }

  /** Forward: nothing below this was left out. Backward: nothing from this up was. */
  ghost function Edge(m: Mem, g: seq<Info>, node: int, pos: int, forward: bool): int
    requires PosOk(m, g, node, pos, forward)
  {
    if node == NIL then if forward then m.bound else 0 else
      var keys := m.body[node].kv.keys;
      if forward then if pos < |keys| then keys[pos] else g[node].hi
      else if pos >= 0 then keys[pos] + 1 else g[node].lo
  }

  /** No stored key lies strictly between two neighbours of a leaf. */
  lemma NextKey(m: Mem, g: seq<Info>, model: map<int, int>, node: int, i: int)
    requires Leaves(m, g, model) && 0 <= node < |g| && g[node].level == 0
    requires m.body[node].Leaf? && 0 <= i < |m.body[node].kv.keys| == |m.body[node].kv.data|
    ensures var kv := m.body[node].kv;
            && kv.keys[i] in model && model[kv.keys[i]] == kv.data[i]
            && g[node].lo <= kv.keys[i] < g[node].hi
            && (forall k :: k in model && kv.keys[i] < k ==>
                  (if i + 1 < |kv.keys| then kv.keys[i + 1] else g[node].hi) <= k)
            && (forall k :: k in model && k < kv.keys[i] ==>
                  k < if i > 0 then kv.keys[i - 1] + 1 else g[node].lo)
  {
    var kv := m.body[node].kv;
    assert LeafOk(m.body, g, m.cap, model, node) && EntryOk(kv, model, g[node].lo, g[node].hi, i);
    assert i + 1 < |kv.keys| ==> EntryOk(kv, model, g[node].lo, g[node].hi, i + 1);
    assert i > 0 ==> EntryOk(kv, model, g[node].lo, g[node].hi, i - 1);
    forall k | k in model && kv.keys[i] < k && k < g[node].hi
      ensures i + 1 < |kv.keys| && kv.keys[i + 1] <= k
    {
      assert k in kv.keys;
      var j :| 0 <= j < |kv.keys| && kv.keys[j] == k;
      if j < i { NoneBefore(kv.keys, j, i); }
      if i + 1 < j { NoneBefore(kv.keys, i + 1, j); }
    }
    forall k | k in model && k < kv.keys[i] && g[node].lo <= k
      ensures i > 0 && k <= kv.keys[i - 1]
    {
      assert k in kv.keys;
      var j :| 0 <= j < |kv.keys| && kv.keys[j] == k;
      if i < j { NoneBefore(kv.keys, i, j); }
      if j < i - 1 { NoneBefore(kv.keys, j, i - 1); }
    }
  }

  lemma EmptyLeaf(m: Mem, g: seq<Info>, model: map<int, int>, node: int)
    requires Leaves(m, g, model) && 0 <= node < |g| && g[node].level == 0
    ensures m.body[node].Leaf? && |m.body[node].kv.keys| == |m.body[node].kv.data|
    ensures m.body[node].kv.keys == [] ==> forall k :: k in model ==> k < g[node].lo || g[node].hi <= k
  {
    assert LeafOk(m.body, g, m.cap, model, node);
    if m.body[node].kv.keys == [] {
      forall k | k in model && g[node].lo <= k ensures g[node].hi <= k {
        assert k !in m.body[node].kv.keys;
      }
    }
  }

  predicate Emptied(m: Mem, e: int) {
    0 <= e < |m.body| && m.body[e].Leaf? && m.body[e].kv.keys == []
  }

  class Cursor {
    const tree: ArrayTree
    var node: int
    var pos: int
    var forward: bool
    var order: int

    ghost predicate Valid()
      reads this, tree
    {
      tree.Valid() && PosOk(tree.mem, tree.info, node, pos, forward)
    }

    ghost function EdgeKey(): int
      requires Valid()
      reads this, tree
    {
      Edge(tree.mem, tree.info, node, pos, forward)
    }

    /** The keys still to come. */
    ghost function Ahead(): set<int>
      requires Valid()
      reads this, tree
    {
      set k | k in tree.model && if forward then EdgeKey() <= k else k < EdgeKey()
    }

    /** How far the counter is behind the true rank of the next key to come. */
    ghost function Lag(): int
      requires Valid()
      reads this, tree
    {
      (if forward then 1 + Cnt(tree.model, 0, EdgeKey()) else Cnt(tree.model, 0, EdgeKey())) - order
    }

    ghost predicate OrderTrue()
      requires Valid()
      reads this, tree
    {
      Lag() == 0
    }

    /** No key left here, and the neighbouring leaf in the cursor's direction is missing or empty. */
    ghost predicate Stuck()
      requires Valid()
      reads this, tree
    {
      node == NIL ||
      (&& (if forward then pos == |tree.mem.body[node].kv.keys| else pos == -1)
       && |tree.mem.next| == |tree.mem.prev| == |tree.info|
       && var c := if forward then tree.mem.next[node] else tree.mem.prev[node];
          c == NIL || (0 <= c < |tree.mem.body| && tree.mem.body[c].Leaf? && tree.mem.body[c].kv.keys == []))
    }

    /** One fetch stays in its leaf or crosses to the neighbour; it delivers a key unless the chain
        ended or the neighbour is empty. */
    ghost predicate Crossed(from: int, to: int, got: bool)
      requires tree.Valid()
      reads this, tree
    {
      var m, g := tree.mem, tree.info;
      if from == NIL then to == NIL && !got else
      if to == NIL then
        !got && 0 <= from < |g| && if forward then g[from].hi == m.bound else g[from].lo == 0
      else
        && 0 <= from < |g| && 0 <= to < |g| && g[from].level == g[to].level == 0
        && (from == to || if forward then g[to].lo == g[from].hi else g[to].hi == g[from].lo)
        && (from == to ==> got) && (from != to ==> (got <==> !Emptied(m, to)))
    }

    constructor (tree: ArrayTree)
      ensures this.tree == tree && node == NIL
    {
      this.tree := tree;
      node, pos, forward, order := NIL, 0, true, 0;
    }

    /** The first half of `move_forward`: at the end of a leaf, go to the next one, if any. */
    method SkipForward() returns (there: bool)
      requires Valid() && forward
      modifies this`node, this`pos
      ensures Valid() && there == !old(Stuck())
      ensures EdgeKey() >= 0 && Ahead() == old(Ahead())
              && Cnt(tree.model, 0, EdgeKey()) == old(Cnt(tree.model, 0, EdgeKey()))
      ensures there ==> node != NIL && pos < |tree.mem.body[node].kv.keys|
      ensures Crossed(old(node), node, there)
    {
      if node == NIL {
        return false;
      }
      ghost var edge := EdgeKey();
      EmptyLeaf(tree.mem, tree.info, tree.model, node);
      EdgeRange(tree.mem, tree.info, tree.model, node, pos, true);
      if pos < |tree.mem.body[node].kv.keys| {
        return true;
      }
      assert ChainOk(tree.mem.next, tree.mem.prev, tree.info, tree.mem.bound, node);
      node := tree.mem.next[node];
      if node == NIL {
        return false;
      }
      EmptyLeaf(tree.mem, tree.info, tree.model, node);
      pos := 0;
      FirstEdge(tree.mem, tree.info, tree.model, node);
      there := pos < |tree.mem.body[node].kv.keys|;
    }

    /** `cursor_fetch` forward, over `move_forward`. */
    method FetchForward() returns (r: Fetched)
      requires Valid() && forward
      modifies this`node, this`pos, this`order
      ensures Valid()
      ensures r.End? <==> old(Stuck())
      ensures r.End? ==> order == old(order) && Ahead() == old(Ahead())
      ensures r.Got? ==>
                && r.key in old(Ahead()) && (forall k :: k in old(Ahead()) ==> r.key <= k)
                && Ahead() == old(Ahead()) - {r.key}
                && r.value == tree.model[r.key]
                && r.order == old(order) && order == old(order) + 1
      ensures Lag() == old(Lag()) && (r.Got? ==> 1 + Cnt(tree.model, 0, r.key) - r.order == Lag())
      ensures Crossed(old(node), node, r.Got?)
    {
      var there := SkipForward();
      if !there {
        return End;
      }
      EmptyLeaf(tree.mem, tree.info, tree.model, node);
      var kv := tree.mem.body[node].kv;
      NextKey(tree.mem, tree.info, tree.model, node, pos);
      r := Got(kv.keys[pos], kv.data[pos], order);
      pos := pos + 1;
      order := order + 1;
      EdgeRange(tree.mem, tree.info, tree.model, node, pos, true);
      assert pos < |kv.keys| ==> kv.keys[pos - 1] < kv.keys[pos] by {
        if pos < |kv.keys| { NoneBefore(kv.keys, pos - 1, pos); }
      }
      CntStep(tree.model, r.key, EdgeKey());
    }

    /** The first half of `move_backward`. */
    method SkipBackward() returns (there: bool)
      requires Valid() && !forward
      modifies this`node, this`pos
      ensures Valid() && there == !old(Stuck())
      ensures EdgeKey() >= 0 && Ahead() == old(Ahead())
              && Cnt(tree.model, 0, EdgeKey()) == old(Cnt(tree.model, 0, EdgeKey()))
      ensures there ==> node != NIL && pos >= 0
      ensures Crossed(old(node), node, there)
    {
      if node == NIL {
        return false;
      }
      EmptyLeaf(tree.mem, tree.info, tree.model, node);
      EdgeRange(tree.mem, tree.info, tree.model, node, pos, false);
      if pos >= 0 {
        return true;
      }
      assert ChainOk(tree.mem.next, tree.mem.prev, tree.info, tree.mem.bound, node);
      node := tree.mem.prev[node];
      if node == NIL {
        return false;
      }
      EmptyLeaf(tree.mem, tree.info, tree.model, node);
      pos := |tree.mem.body[node].kv.keys| - 1;
      LastEdge(tree.mem, tree.info, tree.model, node);
      there := pos >= 0;
    }

    /** `cursor_fetch` backward, over `move_backward`. */
    method FetchBackward() returns (r: Fetched)
      requires Valid() && !forward
      modifies this`node, this`pos, this`order
      ensures Valid()
      ensures r.End? <==> old(Stuck())
      ensures r.End? ==> order == old(order) && Ahead() == old(Ahead())
      ensures r.Got? ==>
                && r.key in old(Ahead()) && (forall k :: k in old(Ahead()) ==> k <= r.key)
                && Ahead() == old(Ahead()) - {r.key}
                && r.value == tree.model[r.key]
                && r.order == old(order) && order == old(order) - 1
      ensures Lag() == old(Lag()) && (r.Got? ==> 1 + Cnt(tree.model, 0, r.key) - r.order == Lag())
      ensures Crossed(old(node), node, r.Got?)
    {
      var there := SkipBackward();
      if !there {
        return End;
      }
      EmptyLeaf(tree.mem, tree.info, tree.model, node);
      EdgeRange(tree.mem, tree.info, tree.model, node, pos, false);
      var kv := tree.mem.body[node].kv;
      NextKey(tree.mem, tree.info, tree.model, node, pos);
      r := Got(kv.keys[pos], kv.data[pos], order);
      pos := pos - 1;
      order := order - 1;
      EdgeRange(tree.mem, tree.info, tree.model, node, pos, false);
      assert pos >= 0 ==> kv.keys[pos] < kv.keys[pos + 1] by {
        if pos >= 0 { NoneBefore(kv.keys, pos, pos + 1); }
      }
      CntStep(tree.model, r.key, r.key + 1);
      NoneHere(tree.model, EdgeKey(), r.key);
    }

    /** `seek_forward` and `seek_backward` by key. */
    method SeekIter(key: int, fwd: bool) returns (ghost leaf: int)
      requires tree.Valid() && 0 <= key < tree.mem.bound
      modifies this`node, this`pos, this`forward
      ensures Valid() && forward == fwd && tree.Serves(leaf, key) && node == leaf
      ensures Ahead() == set k | k in tree.model && if fwd then key <= k else k <= key
      ensures Cnt(tree.model, 0, EdgeKey()) == Cnt(tree.model, 0, key) + (if !fwd && key in tree.model then 1 else 0)
      ensures Cnt(tree.model, 0, key) ==
                Cnt(tree.model, 0, tree.info[leaf].lo) + Cnt(tree.model, tree.info[leaf].lo, key)
    {
      var n, unused, visited := tree.FindLeaf(key);
      leaf := n;
      EmptyLeaf(tree.mem, tree.info, tree.model, n);
      var kv := tree.mem.body[n].kv;
      var p: int := Passed(kv.keys, key);
      SeekEdge(tree.mem, tree.info, tree.model, n, key, fwd);
      node, forward := n, fwd;
      if fwd && !Found(kv.keys, key) {
        pos := p;
      } else {
        pos := p - 1;
      }
    }

    /** `cursor_seek` by key. The counter takes what `get` reports as the key's order. */
    method SeekKey(key: int, fwd: bool) returns (ghost leaf: int)
      requires tree.Valid() && 0 <= key < tree.mem.bound
      modifies this`node, this`pos, this`forward, this`order
      ensures Valid() && forward == fwd && tree.Serves(leaf, key) && node == leaf
      ensures Ahead() == set k | k in tree.model && if fwd then key <= k else k <= key
      ensures AtMost(tree.Exact(), order,
                     if key in tree.model then 1 + Cnt(tree.model, 0, key)
                     else Cnt(tree.model, 0, tree.info[leaf].lo))
      ensures Lag() >= 0
      ensures tree.Exact() && key !in tree.model ==>
                Lag() == Cnt(tree.model, tree.info[leaf].lo, key) + if fwd then 1 else 0
      ensures tree.Exact() && fwd ==> (OrderTrue() <==> key in tree.model)
      ensures tree.Exact() && !fwd ==>
                (OrderTrue() <==> key in tree.model || Cnt(tree.model, tree.info[leaf].lo, key) == 0)
    {
      leaf := SeekIter(key, fwd);
      var value, ord, visited;
      ghost var same;
      value, ord, visited, same := tree.GetByKey(key);
      order := ord;
      ServerUnique(tree.mem, tree.info, 1, leaf, same, key);
    }

    /** `cursor_seek` by order. */
    method SeekOrder(ord: int, fwd: bool) returns (ok: bool)
      requires Valid()
      modifies this`node, this`pos, this`forward, this`order
      ensures Valid()
      ensures ok <==> 1 <= ord <= tree.mem.count[tree.mem.root]
      ensures AtMost(tree.Exact(), tree.mem.count[tree.mem.root], |tree.model|)
      ensures ok ==> forward == fwd && order == ord && !Stuck() && AtMost(tree.Exact(), 0, Lag())
      ensures !ok ==> node == old(node) && pos == old(pos) && forward == old(forward) && order == old(order)
    {
      RootCount(tree.Exact(), tree.mem, tree.info, tree.model);
      if ord < 1 || ord > tree.mem.count[tree.mem.root] {
        return false;
      }
      var left;
      var n;
      n, left := tree.FindByOrder(ord);
      node, pos, forward, order := n, left - 1, fwd, ord;
      LeafRank(tree.mem, tree.info, tree.model, n, left - 1);
      NextKey(tree.mem, tree.info, tree.model, n, left - 1);
      EdgeRange(tree.mem, tree.info, tree.model, n, left - 1, true);
      CntStep(tree.model, tree.mem.body[n].kv.keys[left - 1], tree.mem.body[n].kv.keys[left - 1] + 1);
      ok := true;
    }

    /** In the middle of a scan: what has been delivered, and what is still ahead of what was at first. */
    ghost predicate Draining(out: seq<Fetched>, start: int, all: set<int>, lag: int)
      reads this, tree
    {
      && Valid()
      && Delivered(out, tree.model, forward) && RunOf(out, Ahead(), all, forward)
      && Lag() == lag && Lagging(out, tree.model, lag)
      && Walked(tree.mem, tree.info, start, node, forward)
    }

    /** `cursor_fetch`: what both directions have in common. */
    method Fetch() returns (r: Fetched)
      requires Valid()
      modifies this`node, this`pos, this`order
      ensures Valid()
      ensures r.End? ==> Ahead() == old(Ahead())
      ensures r.Got? ==>
                && r.key in old(Ahead())
                && (forall k :: k in old(Ahead()) ==> if forward then r.key <= k else k <= r.key)
                && Ahead() == old(Ahead()) - {r.key}
                && r.key in tree.model && r.value == tree.model[r.key]
                && 1 + Cnt(tree.model, 0, r.key) - r.order == Lag()
      ensures Lag() == old(Lag()) && Crossed(old(node), node, r.Got?)
    {
      if forward {
        r := FetchForward();
      } else {
        r := FetchBackward();
      }
    }

    /** One more fetch in the cursor's direction. */
    method FetchOn(out: seq<Fetched>, ghost start: int, ghost all: set<int>, ghost lag: int)
      returns (r: Fetched, out': seq<Fetched>)
      requires Draining(out, start, all, lag)
      modifies this`node, this`pos, this`order
      ensures r.Got? ==> Draining(out', start, all, lag) && |Ahead()| < |old(Ahead())|
      ensures r.End? ==>
                && Valid() && Delivered(out', tree.model, forward) && RunOf(out', Ahead(), all, forward)
                && Lagging(out', tree.model, lag)
                && Ahead() == (set k | k in all && CutOff(tree.mem, tree.info, start, k, forward))
                && (Ahead() == {} <==> GapFree(tree.mem, tree.info, start, forward))
    {
      hide Lagging;
      hide Delivered;
      hide RunOf;
      hide Walked;
      hide CutOff;
      hide GapFree;
      ghost var before, was := Ahead(), node;
      hide Crossed;
      r := Fetch();
      if r.End? {
        out' := out;
        Ended(start, was);
        AheadIs(out, start, all);
      } else {
        out' := out + [r];
        WalkedOn(start, was);
        RunAppend(out, tree.model, before, Ahead(), all, r, forward);
        LagAppend(out, tree.model, lag, r);
      }
    }

    /** Fetches until the end is reported. The keys delivered are a run of the stored keys from
        where the cursor stood, each once, in order. What stays ahead is what an emptied leaf further
        on cuts off: nothing exactly when no emptied leaf precedes a leaf that has keys. */
    method DrainForward() returns (out: seq<Fetched>)
      requires Valid() && forward
      modifies this`node, this`pos, this`order
      ensures Valid()
      ensures Delivered(out, tree.model, true) && RunOf(out, Ahead(), old(Ahead()), true)
      ensures Lagging(out, tree.model, old(Lag()))
      ensures Ahead() == set k | k in old(Ahead()) && CutOff(tree.mem, tree.info, old(node), k, true)
      ensures Ahead() == {} <==> GapFree(tree.mem, tree.info, old(node), true)
    {
      out := [];
      ghost var start, all, lag := node, Ahead(), Lag();
      var r := End;
      while true
        invariant Draining(out, start, all, lag)
        decreases |Ahead()|
      {
        r, out := FetchOn(out, start, all, lag);
        if r.End? {
          break;
        }
      }
    }

    method DrainBackward() returns (out: seq<Fetched>)
      requires Valid() && !forward
      modifies this`node, this`pos, this`order
      ensures Valid()
      ensures Delivered(out, tree.model, false) && RunOf(out, Ahead(), old(Ahead()), false)
      ensures Lagging(out, tree.model, old(Lag()))
      ensures Ahead() == set k | k in old(Ahead()) && CutOff(tree.mem, tree.info, old(node), k, false)
      ensures Ahead() == {} <==> GapFree(tree.mem, tree.info, old(node), false)
    {
      out := [];
      ghost var start, all, lag := node, Ahead(), Lag();
      var r := End;
      while true
        invariant Draining(out, start, all, lag)
        decreases |Ahead()|
      {
        r, out := FetchOn(out, start, all, lag);
        if r.End? {
          break;
        }
      }
    }

    lemma AheadIs(out: seq<Fetched>, start: int, all: set<int>)
      requires Valid() && Delivered(out, tree.model, forward) && RunOf(out, Ahead(), all, forward)
      requires forall k :: k in tree.model ==> (k in Ahead() <==> CutOff(tree.mem, tree.info, start, k, forward))
      ensures Ahead() == set k | k in all && CutOff(tree.mem, tree.info, start, k, forward)
    {
      hide CutOff;
      forall k | k in all ensures k in tree.model {
        if k in Keys(out) {
          var f :| f in out && f.Got? && f.key == k;
        }
      }
    }

    lemma WalkedOn(start: int, was: int)
      requires Valid() && Walked(tree.mem, tree.info, start, was, forward) && Crossed(was, node, true)
      ensures Walked(tree.mem, tree.info, start, node, forward)
    {
      WalkOn(tree.mem, tree.info, tree.model, start, was, node, forward);
    }

    /** Where a scan that began in leaf `start` and delivered its last key from leaf `was` has ended. */
    lemma Ended(start: int, was: int)
      requires Valid() && Walked(tree.mem, tree.info, start, was, forward) && Crossed(was, node, false)
      ensures forall k :: k in tree.model ==> (k in Ahead() <==> CutOff(tree.mem, tree.info, start, k, forward))
      ensures Ahead() == {} <==> GapFree(tree.mem, tree.info, start, forward)
    {
      EndFacts(tree.mem, tree.info, tree.model, start, was, node, pos, forward);
      forall k | k in tree.model ensures k in Ahead() <==> CutOff(tree.mem, tree.info, start, k, forward) {
        EndCut(tree.mem, tree.info, tree.model, start, was, node, pos, k, forward);
      }
      if forall k :: k in tree.model ==> if forward then k < EdgeKey() else EdgeKey() <= k {
        assert Ahead() == {};
      } else {
        var k :| k in tree.model && !if forward then k < EdgeKey() else EdgeKey() <= k;
        assert k in Ahead();
      }
    }
  }

  ghost function Keys(out: seq<Fetched>): set<int> {
    set f | f in out && f.Got? :: f.key
  }

  /** Stored entries, in the cursor's direction, none twice. */
  ghost predicate Delivered(out: seq<Fetched>, model: map<int, int>, forward: bool) {
    && (forall i {:trigger out[i]} :: 0 <= i < |out| ==>
         out[i].Got? && out[i].key in model && out[i].value == model[out[i].key])
    && (forall i, j {:trigger out[i], out[j]} :: 0 <= i < j < |out| && out[i].Got? && out[j].Got? ==>
          if forward then out[i].key < out[j].key else out[j].key < out[i].key)
  }

  /** The orders delivered are all behind the true ranks by the same number. */
  ghost predicate Lagging(out: seq<Fetched>, model: map<int, int>, lag: int) {
    forall i {:trigger out[i]} :: 0 <= i < |out| && out[i].Got? ==> 1 + Cnt(model, 0, out[i].key) - out[i].order == lag
  }

  /** `out` and what is still ahead make up `all`, and `out` comes first. */
  ghost predicate RunOf(out: seq<Fetched>, ahead: set<int>, all: set<int>, forward: bool) {
    && Keys(out) + ahead == all
    && forall k, k' {:trigger k in Keys(out), k' in ahead} :: k in Keys(out) && k' in ahead ==>
         if forward then k < k' else k' < k
  }

  lemma RunAppend(out: seq<Fetched>, model: map<int, int>, before: set<int>, after: set<int>, all: set<int>,
                  r: Fetched, forward: bool)
    requires Delivered(out, model, forward) && RunOf(out, before, all, forward)
    requires r.Got? && r.key in before && r.key in model && r.value == model[r.key] && after == before - {r.key}
    requires forall k :: k in before ==> if forward then r.key <= k else k <= r.key
    ensures Delivered(out + [r], model, forward) && RunOf(out + [r], after, all, forward)
  {
    var out' := out + [r];
    assert r in out';
    forall f | f in out ensures f in out' {}
    assert Keys(out') == Keys(out) + {r.key};
    forall i | 0 <= i < |out| ensures out[i].Got? && out[i].key in Keys(out) {
      assert out[i] in out;
    }
    forall i, j | 0 <= i < j < |out'| && out'[i].Got? && out'[j].Got?
      ensures if forward then out'[i].key < out'[j].key else out'[j].key < out'[i].key
    {
      assert out'[i] == out[i];
      if j < |out| { assert out'[j] == out[j]; }
    }
  }

  lemma LagAppend(out: seq<Fetched>, model: map<int, int>, lag: int, r: Fetched)
    requires Lagging(out, model, lag) && (r.Got? ==> 1 + Cnt(model, 0, r.key) - r.order == lag)
    ensures Lagging(out + [r], model, lag)
  {
    forall i | 0 <= i < |out + [r]| && (out + [r])[i].Got?
      ensures 1 + Cnt(model, 0, (out + [r])[i].key) - (out + [r])[i].order == lag
    {
      if i < |out| { assert (out + [r])[i] == out[i]; }
    }
  }

  lemma EdgeRange(m: Mem, g: seq<Info>, model: map<int, int>, node: int, pos: int, forward: bool)
    requires TreeOk(m, g, model) && PosOk(m, g, node, pos, forward)
    ensures 0 <= Edge(m, g, node, pos, forward)
    ensures node != NIL ==> LeafOk(m.body, g, m.cap, model, node) && 0 <= g[node].lo < g[node].hi <= m.bound
  {
    if node != NIL {
      assert ChainOk(m.next, m.prev, g, m.bound, node) && LeafOk(m.body, g, m.cap, model, node);
      var kv := m.body[node].kv;
      if 0 <= pos < |kv.keys| { assert EntryOk(kv, model, g[node].lo, g[node].hi, pos); }
    }
  }

  /** An interval without keys does not move the count. */
  lemma NoneHere(model: map<int, int>, lo: int, hi: int)
    requires forall k :: k in model ==> k < lo || hi <= k
    ensures 0 <= lo <= hi ==> Cnt(model, 0, lo) == Cnt(model, 0, hi)
  {
    if 0 <= lo <= hi {
      CntSplit(model, 0, lo, hi);
      CntEmpty(model, lo, hi);
    }
  }

  /** Stepping over one key. */
  lemma CntStep(model: map<int, int>, k: int, to: int)
    requires k in model && 0 <= k < to && forall x :: x in model && k < x ==> to <= x
    ensures Cnt(model, 0, to) == Cnt(model, 0, k) + 1
  {
    CntSplit(model, 0, k, to);
    CntOne(model, k, to);
  }

  /** Entering a leaf from below passes no key. */
  lemma FirstEdge(m: Mem, g: seq<Info>, model: map<int, int>, node: int)
    requires TreeOk(m, g, model) && 0 <= node < |g| && g[node].level == 0
    ensures m.body[node].Leaf? && PosOk(m, g, node, 0, true)
    ensures var e := Edge(m, g, node, 0, true);
            0 <= e && (forall k :: k in model ==> k < g[node].lo || e <= k)
            && Cnt(model, 0, g[node].lo) == Cnt(model, 0, e) && g[node].lo <= e
  {
    EmptyLeaf(m, g, model, node);
    EdgeRange(m, g, model, node, 0, true);
    if |m.body[node].kv.keys| > 0 { NextKey(m, g, model, node, 0); }
    NoneHere(model, g[node].lo, Edge(m, g, node, 0, true));
  }

  /** Entering a leaf from above passes no key. */
  lemma LastEdge(m: Mem, g: seq<Info>, model: map<int, int>, node: int)
    requires TreeOk(m, g, model) && 0 <= node < |g| && g[node].level == 0
    ensures m.body[node].Leaf? && PosOk(m, g, node, |m.body[node].kv.keys| - 1, false)
    ensures var e := Edge(m, g, node, |m.body[node].kv.keys| - 1, false);
            0 <= e && (forall k :: k in model ==> k < e || g[node].hi <= k)
            && Cnt(model, 0, g[node].hi) == Cnt(model, 0, e) && e <= g[node].hi
  {
    EmptyLeaf(m, g, model, node);
    var last := |m.body[node].kv.keys| - 1;
    EdgeRange(m, g, model, node, last, false);
    if last >= 0 { NextKey(m, g, model, node, last); }
    NoneHere(model, Edge(m, g, node, last, false), g[node].hi);
  }

  /** Where a seek lands: the keys of the leaf on the far side of the edge are those not below
      (not above) the sought key. */
  lemma SeekEdge(m: Mem, g: seq<Info>, model: map<int, int>, n: int, key: int, fwd: bool)
    requires TreeOk(m, g, model) && 0 <= n < |g| && g[n].level == 0 && g[n].lo <= key < g[n].hi && m.body[n].Leaf?
    requires |m.body[n].kv.keys| == |m.body[n].kv.data|
    ensures var p := Passed(m.body[n].kv.keys, key);
            var pos := if fwd && !Found(m.body[n].kv.keys, key) then p else p - 1;
            && PosOk(m, g, n, pos, fwd)
            && var e := Edge(m, g, n, pos, fwd);
               && 0 <= g[n].lo <= e
               && (fwd ==> key <= e && forall k :: k in model && key <= k ==> e <= k)
               && (!fwd ==> e <= key + 1 && forall k :: k in model && k <= key ==> k < e)
               && Cnt(model, 0, e) == Cnt(model, 0, key) + (if !fwd && key in model then 1 else 0)
               && Cnt(model, 0, key) == Cnt(model, 0, g[n].lo) + Cnt(model, g[n].lo, key)
  {
    EdgeRange(m, g, model, n, 0, true);
    var kv := m.body[n].kv;
    var p := Passed(kv.keys, key);
    FoundIsMember(kv.keys, key);
    var pos := if fwd && !Found(kv.keys, key) then p else p - 1;
    EdgeRange(m, g, model, n, pos, fwd);
    var e := Edge(m, g, n, pos, fwd);
    if p > 0 { NextKey(m, g, model, n, p - 1); }
    if p < |kv.keys| { NextKey(m, g, model, n, p); }
    if p == 0 && p == |kv.keys| { EmptyLeaf(m, g, model, n); }
    if fwd {
      NoneHere(model, key, e);
    } else {
      NoneHere(model, e, key);
      if key in model { CntStep(model, key, key + 1); }
    }
    CntSplit(model, 0, g[n].lo, key);
  }

  /** Past the starting leaf, in the cursor's direction, no emptied leaf precedes a non-empty one. */
  ghost predicate GapFree(m: Mem, g: seq<Info>, start: int, forward: bool) {
    forall e, f {:trigger Emptied(m, e), Emptied(m, f)} ::
      (0 <= start < |g| && 0 <= e < |g| && 0 <= f < |g| && g[e].level == 0 && g[f].level == 0
       && Beyond(g, start, e, forward) && Beyond(g, e, f, forward) && Emptied(m, e)) ==> Emptied(m, f)
  }

  /** An emptied leaf past the starting one precedes the key. */
  ghost predicate CutOff(m: Mem, g: seq<Info>, start: int, k: int, forward: bool) {
    exists e {:trigger Emptied(m, e)} ::
      0 <= start < |g| && 0 <= e < |g| && g[e].level == 0 && Beyond(g, start, e, forward) && Emptied(m, e)
      && if forward then g[e].hi <= k else k < g[e].lo
  }

  predicate Beyond(g: seq<Info>, e: int, f: int, forward: bool)
    requires 0 <= e < |g| && 0 <= f < |g|
  {
    if forward then g[e].hi <= g[f].lo else g[f].hi <= g[e].lo
  }

  /** The leaves from behind the start up to the current one have keys. */
  ghost predicate Walked(m: Mem, g: seq<Info>, start: int, node: int, forward: bool) {
    if start == NIL || node == NIL then start == node else
      && 0 <= start < |g| && 0 <= node < |g| && g[start].level == 0 && g[node].level == 0
      && (start == node || Beyond(g, start, node, forward))
      && forall e {:trigger Emptied(m, e)} ::
           (0 <= e < |g| && g[e].level == 0 && Beyond(g, start, e, forward) && !Beyond(g, node, e, forward)) ==>
               !Emptied(m, e)
  }

  /** Leaves are disjoint, so of two leaves one is beyond the other. */
  lemma LeavesApart(m: Mem, g: seq<Info>, model: map<int, int>, e: int, f: int)
    requires TreeOk(m, g, model) && 0 <= e < |g| && 0 <= f < |g| && g[e].level == 0 && g[f].level == 0
    ensures g[e].lo < g[e].hi && g[f].lo < g[f].hi
    ensures e == f || g[e].hi <= g[f].lo || g[f].hi <= g[e].lo
  {
    assert LeafOk(m.body, g, m.cap, model, e) && LeafOk(m.body, g, m.cap, model, f);
    if g[e].lo <= g[f].lo < g[e].hi { ServerUnique(m, g, 1, e, f, g[f].lo); }
    if g[f].lo <= g[e].lo < g[f].hi { ServerUnique(m, g, 1, e, f, g[e].lo); }
  }

  lemma WalkOn(m: Mem, g: seq<Info>, model: map<int, int>, start: int, was: int, node: int, forward: bool)
    requires TreeOk(m, g, model)
    requires Walked(m, g, start, was, forward) && was != NIL && 0 <= node < |g| && g[node].level == 0
    requires was == node || (if forward then g[node].lo == g[was].hi else g[node].hi == g[was].lo)
    requires was == node || !Emptied(m, node)
    ensures Walked(m, g, start, node, forward)
  {
    if was != node {
      LeavesApart(m, g, model, was, node);
      if start != was { LeavesApart(m, g, model, start, was); }
      forall e | 0 <= e < |g| && g[e].level == 0 && Beyond(g, start, e, forward) && !Beyond(g, node, e, forward)
        ensures !Emptied(m, e)
      {
        LeavesApart(m, g, model, e, node);
        LeavesApart(m, g, model, e, was);
      }
    }
  }

  /** When the end is reported with keys left, an emptied leaf was entered that precedes them;
      without keys left, every emptied leaf further on is followed by emptied leaves only. */
  lemma EndFacts(m: Mem, g: seq<Info>, model: map<int, int>, start: int, was: int, node: int, pos: int, forward: bool)
    requires TreeOk(m, g, model) && PosOk(m, g, node, pos, forward)
    requires Walked(m, g, start, was, forward)
    requires was == NIL ==> node == NIL
    requires was != NIL && node == NIL ==> if forward then g[was].hi == m.bound else g[was].lo == 0
    requires was != NIL && node != NIL ==>
               (if forward then g[node].lo == g[was].hi else g[node].hi == g[was].lo) && Emptied(m, node)
    ensures var edge := Edge(m, g, node, pos, forward);
            (forall k :: k in model ==> if forward then k < edge else edge <= k) <==> GapFree(m, g, start, forward)
  {
    if node == NIL {
      if was != NIL { AllWalked(m, g, model, start, was, forward); }
      assert GapFree(m, g, start, forward);
    } else {
      LeavesApart(m, g, model, was, node);
      if start != was { LeavesApart(m, g, model, start, was); }
      assert Edge(m, g, node, pos, forward) == if forward then g[node].hi else g[node].lo;
      if k :| k in model && (if forward then g[node].hi <= k else k < g[node].lo) {
        var f := ServingLeaf(m, g, m.root, k);
        LeavesApart(m, g, model, f, node);
        EmptyLeaf(m, g, model, f);
        assert Beyond(g, start, node, forward) && Beyond(g, node, f, forward) && Emptied(m, node) && !Emptied(m, f);
      } else {
        NoneBeyond(m, g, model, start, was, node, forward);
      }
    }
  }

  /** Which keys are still ahead when the end is reported. */
  lemma EndCut(m: Mem, g: seq<Info>, model: map<int, int>, start: int, was: int, node: int, pos: int, k: int,
               forward: bool)
    requires TreeOk(m, g, model) && PosOk(m, g, node, pos, forward) && k in model
    requires Walked(m, g, start, was, forward)
    requires was == NIL ==> node == NIL
    requires was != NIL && node == NIL ==> if forward then g[was].hi == m.bound else g[was].lo == 0
    requires was != NIL && node != NIL ==>
               (if forward then g[node].lo == g[was].hi else g[node].hi == g[was].lo) && Emptied(m, node)
    ensures var edge := Edge(m, g, node, pos, forward);
            (if forward then edge <= k else k < edge) <==> CutOff(m, g, start, k, forward)
  {
    if was != NIL {
      forall e | 0 <= start < |g| && 0 <= e < |g| && g[e].level == 0 && Beyond(g, start, e, forward) && Emptied(m, e)
        ensures g[e].lo < g[e].hi && node != NIL && (e == node || Beyond(g, node, e, forward))
      {
        LeafBounds(m, g, model, e);
        LeavesApart(m, g, model, e, was);
        if node != NIL { LeavesApart(m, g, model, e, node); }
      }
      if node != NIL {
        LeavesApart(m, g, model, was, node);
        if start != was { LeavesApart(m, g, model, start, was); }
        assert Beyond(g, start, node, forward) && Emptied(m, node);
      }
    }
  }

  lemma AllWalked(m: Mem, g: seq<Info>, model: map<int, int>, start: int, was: int, forward: bool)
    requires TreeOk(m, g, model) && Walked(m, g, start, was, forward) && was != NIL
    requires if forward then g[was].hi == m.bound else g[was].lo == 0
    ensures GapFree(m, g, start, forward)
  {
    forall e | 0 <= start < |g| && 0 <= e < |g| && g[e].level == 0 && Beyond(g, start, e, forward)
      ensures !Emptied(m, e)
    {
      LeafBounds(m, g, model, e);
      LeavesApart(m, g, model, e, was);
    }
  }

  lemma LeafBounds(m: Mem, g: seq<Info>, model: map<int, int>, e: int)
    requires TreeOk(m, g, model) && 0 <= e < |g| && g[e].level == 0
    ensures 0 <= g[e].lo < g[e].hi <= m.bound
  {
    assert LeafOk(m.body, g, m.cap, model, e) && ChainOk(m.next, m.prev, g, m.bound, e);
  }

  lemma NoneBeyond(m: Mem, g: seq<Info>, model: map<int, int>, start: int, was: int, node: int, forward: bool)
    requires TreeOk(m, g, model) && Walked(m, g, start, was, forward) && was != NIL && 0 <= node < |g|
             && g[node].level == 0
    requires if forward then g[node].lo == g[was].hi else g[node].hi == g[was].lo
    requires forall k :: k in model ==> if forward then k < g[node].hi else g[node].lo <= k
    ensures GapFree(m, g, start, forward)
  {
    forall e, f | 0 <= start < |g| && 0 <= e < |g| && 0 <= f < |g| && g[e].level == 0 && g[f].level == 0
                  && Beyond(g, start, e, forward) && Beyond(g, e, f, forward) && Emptied(m, e)
      ensures Emptied(m, f)
    {
      LeavesApart(m, g, model, e, f);
      LeavesApart(m, g, model, e, was);
      LeavesApart(m, g, model, f, node);
      EmptyLeaf(m, g, model, f);
      if |m.body[f].kv.keys| > 0 { NextKey(m, g, model, f, 0); }
    }
  }
}
