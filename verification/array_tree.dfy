/** The tree object: the operations of `nldb_array_tree`. */
module ArrayTrees {
  import opened Arithmetic
  import opened SortedView
  import opened TreeShape
  import opened TreeRows
  import opened TreeCounts
  import opened TreeCascade
  import opened TreeLeaves
  import opened TreeHeight

  /** What the arena of a new node holds. */
  function Junk(n: nat): (s: seq<int>)
    ensures |s| == n
  {
    seq(n, _ => 0)
  }

  lemma Longer(path: seq<int>, i: nat)
    requires i < |path|
    ensures path[..i + 1] == path[..i] + [path[i]]
  {
  }

  datatype Option<+T> = None | Some(value: T)

  class ArrayTree {
    var mem: Mem
    ghost var info: seq<Info>
    ghost var model: map<int, int>

    /** `internal_node_t::put`: stores the pair and sets the child's parent. */
    method PutKid(node: int, q: KeyPtr, x: int)
      requires 0 <= node < |mem.body| == |mem.parent| && mem.body[node].Inner?
      requires |mem.body[node].kc.keys| == |mem.body[node].kc.data|
      requires 0 <= x < |mem.parent| && PtrOk(mem, q)
      requires Found(mem.body[node].kc.keys, Deref(mem, q)) || !IsFull(mem.body[node].kc)
      modifies this`mem
      ensures mem == old(mem).(body := old(mem.body)[node := Linked(old(mem.body)[node], Deref(old(mem), q), x)],
                               parent := old(mem.parent)[x := node])
    {
      var b := mem.body[node];
      var key := Deref(mem, q);
      mem := mem.(body := mem.body[node := b.(kc := SortedView.Put(b.kc, key, x))]);
      mem := mem.(parent := mem.parent[x := node]);
    }

    /** `count_all_keys_before_position`. */
    method CountKids(b: Body, k: nat) returns (total: int)
      requires b.Inner? && k <= NumKids(b)
      requires forall i {:trigger Kid(b, i)} :: 0 <= i < k ==> 0 <= Kid(b, i) < |mem.count|
      ensures total == SumKids(mem.count, b, k)
    {
      total := 0;
      for pos := 0 to k
        invariant total == SumKids(mem.count, b, pos)
      {
        assert 0 <= Kid(b, pos) < |mem.count|;
        total := total + mem.count[Kid(b, pos)];
      }
    }

    /** `node_factory::new_internal_node` and `new_leaf_node`. */
    method NewNode(b: Body) returns (n: int)
      requires |mem.body| == |mem.parent| == |mem.next| == |mem.prev| == |mem.count|
      modifies this`mem
      ensures n == |old(mem).body|
      ensures mem == old(mem).(body := old(mem.body) + [b], parent := old(mem.parent) + [NIL],
                               next := old(mem.next) + [NIL], prev := old(mem.prev) + [NIL],
                               count := old(mem.count) + [0])
    {
      n := |mem.body|;
      mem := mem.(body := mem.body + [b], parent := mem.parent + [NIL],
                  next := mem.next + [NIL], prev := mem.prev + [NIL], count := mem.count + [0]);
    }

    /** Makes `p` the parent of the given nodes. */
    method SetParents(kids: seq<int>, p: int)
      requires forall i :: 0 <= i < |kids| ==> 0 <= kids[i] < |mem.parent|
      modifies this`mem
      ensures mem == old(mem).(parent := mem.parent) && |mem.parent| == |old(mem.parent)|
      ensures forall c {:trigger mem.parent[c]} :: 0 <= c < |mem.parent| ==>
                mem.parent[c] == if c in kids then p else old(mem.parent)[c]
    {
      var i := 0;
      while i < |kids|
        invariant 0 <= i <= |kids|
        invariant mem == old(mem).(parent := mem.parent) && |mem.parent| == |old(mem.parent)|
        invariant forall c {:trigger mem.parent[c]} :: 0 <= c < |mem.parent| ==>
                    mem.parent[c] == if c in kids[..i] then p else old(mem.parent)[c]
      {
        assert kids[..i + 1] == kids[..i] + [kids[i]];
        mem := mem.(parent := mem.parent[kids[i] := p]);
        i := i + 1;
      }
      assert kids[..i] == kids;
    }

    /** `internal_node_t::split`. The promoted key stays in the vacated slot `mid` points to. */
    method SplitInner(node: int, ghost l: int, ghost x: int) returns (right: int, mid: KeyPtr, ghost junk: seq<int>)
      requires Base(mem, info) && 0 <= node < |info|
      requires InnerOk(mem.body, mem.parent, info, mem.cap, node, l, x)
      requires |mem.body[node].kc.keys| == mem.cap
      modifies this`mem, this`info
      ensures right == |old(info)| && mid == KeyPtr(node, LeftCount(mem.cap) - 1)
      ensures SplitMem(old(mem), old(info), mem, info, node, junk)
      ensures mem.count == old(mem.count) + [0]
      ensures mem.next == old(mem.next) + [NIL] && mem.prev == old(mem.prev) + [NIL]
    {
      hide KindOk;
      var b := mem.body[node];
      junk := Junk(mem.cap - mem.cap / 2);
      HalvesKids(b, junk, mem.cap);
      right := NewNode(Inner(NIL, SplitRight(b.kc, Junk(mem.cap - mem.cap / 2))));
      mem := mem.(body := mem.body[node := b.(kc := SplitLeft(b.kc))]);

      var moved := mem.body[right].kc.data;
      forall i | 0 <= i < |moved| ensures 0 <= moved[i] < right {
        assert KidOk(old(mem).body, old(mem).parent, info, node, l, x, LeftCount(mem.cap) + i + 1);
      }
      SetParents(moved, right);

      var kc := mem.body[node].kc;
      var midNode := kc.data[|kc.data| - 1];
      mid := KeyPtr(node, |kc.keys| - 1);
      mem := mem.(body := mem.body[node := b.(kc := RemoveMax(kc))]);

      assert KidOk(old(mem).body, old(mem).parent, info, node, l, x, LeftCount(mem.cap));
      mem := mem.(body := mem.body[right := mem.body[right].(left := midNode)]);
      mem := mem.(parent := mem.parent[midNode := right]);

      info := info[node := info[node].(hi := MidKey(b))] + [info[node].(lo := MidKey(b))];
    }

    /** The end of `internal_node_t::split`: both halves are counted anew. */
    method Recount(node: int, right: int)
      requires 0 <= node < right < |mem.body| == |mem.count|
      requires mem.body[node].Inner? && mem.body[right].Inner?
      requires forall i {:trigger Kid(mem.body[node], i)} :: 0 <= i < NumKids(mem.body[node]) ==>
                 0 <= Kid(mem.body[node], i) < right && Kid(mem.body[node], i) != node
      requires forall i {:trigger Kid(mem.body[right], i)} :: 0 <= i < NumKids(mem.body[right]) ==>
                 0 <= Kid(mem.body[right], i) < right && Kid(mem.body[right], i) != node
      modifies this`mem
      ensures mem == old(mem).(count := mem.count)
      ensures mem.count == old(mem.count)[node := Sum(old(mem.count)[..right], mem.body[node])]
                                         [right := Sum(old(mem.count)[..right], mem.body[right])]
    {
      ghost var was := mem.count;
      var rb, nb := mem.body[right], mem.body[node];
      var total := CountKids(rb, NumKids(rb));
      SumSame(was[..right], was, rb, rb, NumKids(rb));
      mem := mem.(count := mem.count[right := total]);
      total := CountKids(nb, NumKids(nb));
      SumSame(was[..right], mem.count, nb, nb, NumKids(nb));
      mem := mem.(count := mem.count[node := total]);
    }

    /** `propagate_key_count_increment`: adds to every node from `from` up to, not including, the fence. */
    method Propagate(from: int, fence: int, inc: int, ghost path: seq<int>, ghost plv: nat, ghost lv: nat,
                     ghost owed: int, ghost net: int, ghost exact: bool)
      requires Base(mem, info) && 1 <= lv <= plv + 1 && Rows(mem, info, lv)
      requires PathOk(mem, info, path, plv, fence) && path[0] == from
      requires owed == inc + net
      requires Balanced(exact, mem, info, lv, from, inc, fence, owed)
      modifies this`mem
      ensures inc >= 0 && NoneNegative(old(mem.count)) ==> NoneNegative(mem.count)
      ensures mem == old(mem).(count := mem.count) && |mem.count| == |old(mem.count)|
      ensures forall c {:trigger mem.count[c]} :: 0 <= c < |info| ==>
                mem.count[c] == old(mem.count)[c] + if c in path[..|path| - 1] then inc else 0
      ensures Balanced(exact, mem, info, lv, NIL, 0, fence, net)
    {
      var n := from;
      ghost var i := 0;
      while n != fence
        invariant 0 <= i < |path| && n == path[i]
        invariant mem == old(mem).(count := mem.count) && |mem.count| == |old(mem.count)|
        invariant forall c {:trigger mem.count[c]} :: 0 <= c < |info| ==>
                    mem.count[c] == old(mem.count)[c] + if c in path[..i] then inc else 0
        invariant Balanced(exact, mem, info, lv, n, inc, fence, owed)
        decreases |path| - i
      {
        ghost var was := mem;
        PathStep(mem, info, path, plv, fence, i);
        mem := mem.(count := mem.count[n := mem.count[n] + inc]);
        PropagateStep(exact, was, info, mem, lv, n, inc, fence, owed);
        Longer(path, i);
        n := mem.parent[n];
        i := i + 1;
      }
      PathEnd(mem, info, path, plv, fence, i);
      Settle(exact, mem, info, lv, fence, inc, owed, net);
    }

    /** Splits node and recounts the halves. */
    method SplitAndCount(node: int, ghost q: KeyPtr, ghost x: int, ghost l: int)
      returns (right: int, mid: KeyPtr, ghost junk: seq<int>)
      requires Pending(mem, info, node, q, x, l)
      requires mem.body[node].Inner? && |mem.body[node].kc.keys| == |mem.body[node].kc.data| == mem.cap
      requires Bushy(mem.body, node)
      modifies this`mem, this`info
      ensures NoneNegative(old(mem.count)) ==> NoneNegative(mem.count)
      ensures right == |old(info)| && mid == KeyPtr(node, LeftCount(mem.cap) - 1)
      ensures Halved(old(mem), old(info), mem, info, node, junk)
      ensures Bushy(mem.body, NIL)
    {
      hide NoneNegative;
      hide Bushy;
      ghost var m, g := mem, info;
      PendingFacts(mem, info, node, q, x, l);
      right, mid, junk := SplitInner(node, l, x);
      SplitBushy(m, g, mem, info, node, l, x, junk);
      HalvesKidRange(m, g, node, l, x, mem, info, junk);
      Recount(node, right);
      assert mem.count[..right + 1] == mem.count;
      assert (m.count + [0])[..right] == m.count;
      if NoneNegative(m.count) { HalvedNotNegative(m, g, mem, info, node, junk); }
    }

    /** A new root takes over the old one and its right half. */
    method GrowRoot(node: int, right: int, mid: KeyPtr)
      requires Shaped(mem, info) && 0 <= node < |info| && 0 <= right < |info| && node != right
      requires PtrOk(mem, mid) && mem.cap >= 3 && mem.root == node
      modifies this`mem, this`info
      ensures GrownMem(old(mem), old(info), mem, info, node, right, Deref(old(mem), mid))
      ensures mem.count == old(mem.count) + [old(mem.count)[node] + old(mem.count)[right]]
      ensures mem.next == old(mem.next) + [NIL] && mem.prev == old(mem.prev) + [NIL]
    {
      var q := NewNode(Inner(NIL, SArr([], [], Junk(mem.cap))));
      mem := mem.(body := mem.body[q := mem.body[q].(left := node)]);
      mem := mem.(parent := mem.parent[node := q]);
      PutKid(q, mid, right);
      mem := mem.(count := mem.count[q := mem.count[node] + mem.count[right]]);
      mem := mem.(root := q);
      info := info + [Info(0, mem.bound, info[node].level + 1)];
    }

    /** The levels above take in the right half of a split node. */
    method TakeIn(node: int, right: int, mid: KeyPtr, ghost m: Mem, ghost g: seq<Info>,
                  ghost q: KeyPtr, ghost x: int, ghost l: int, ghost junk: seq<int>, ghost owed: int, ghost exact: bool)
      returns (fence: int, ghost path: seq<int>)
      requires Pending(m, g, node, q, x, l)
      requires m.body[node].Inner? && |m.body[node].kc.keys| == |m.body[node].kc.data| == m.cap
      requires Halved(m, g, mem, info, node, junk)
      requires right == |g| && mid == KeyPtr(node, LeftCount(m.cap) - 1)
      requires Balanced(exact, m, g, g[node].level, NIL, 0, node, owed)
      requires Bushy(mem.body, NIL)
      requires exact ==> owed > 0 && NoneNegative(mem.count)
      modifies this`mem, this`info
      ensures Bushy(mem.body, NIL)
      ensures exact ==> NoneNegative(mem.count)
      ensures Rejoined(m, g, mem, info, node, q, x, l, fence, path)
      ensures Below(old(mem), old(info), mem, info, g[node].level + 1)
      ensures mem.root == m.root || mem.root >= |g|
      ensures Balanced(exact, mem, info, g[node].level + 1, NIL, 0, fence, owed)
      decreases if g[m.root].level >= g[node].level then g[m.root].level - g[node].level else 0, 0
    {
      hide NoneNegative;
      hide Rows;
      hide Row;
      hide Balanced;
      hide Sum;
      hide Bushy;
      ghost var m1, g1, lv := mem, info, g[node].level;
      SplitKeepsParent(m, g, node, q, x, l, m1, g1, junk);
      if mem.parent[node] != NIL {
        Wider(mem.body, mem.parent[node]);
        BeforeTake(exact, m, g, node, q, x, l, m1, g1, junk, owed);
        ghost var ahead := owed + mem.count[right];
        if exact { SumOfTwo(mem.count, right, right); }
        fence, path := PutToInternal(mem.parent[node], mid, right, node, ahead, exact);
        ghost var m2 := mem;
        assert m2.count[right] == m1.count[right];
        assert ahead == mem.count[right] + owed;
        Propagate(mem.parent[right], fence, mem.count[right], path, lv + 1, lv + 1, ahead, owed, exact);
        AfterTake(m, g, node, q, x, l, m1, g1, junk, m2, info, fence, path, m1.count[right], mem);
      } else {
        fence, path := TakeInRoot(node, right, mid, m, g, q, x, l, junk, owed, exact);
      }
    }

    /** The split node is the root. With exact counts its old count is larger than those of its halves
        together, as the program asserts. */
    method TakeInRoot(node: int, right: int, mid: KeyPtr, ghost m: Mem, ghost g: seq<Info>,
                      ghost q: KeyPtr, ghost x: int, ghost l: int, ghost junk: seq<int>, ghost owed: int,
                      ghost exact: bool)
      returns (fence: int, ghost path: seq<int>)
      requires Pending(m, g, node, q, x, l) && node == m.root
      requires m.body[node].Inner? && |m.body[node].kc.keys| == |m.body[node].kc.data| == m.cap
      requires Halved(m, g, mem, info, node, junk)
      requires right == |g| && mid == KeyPtr(node, LeftCount(m.cap) - 1)
      requires Bushy(mem.body, NIL)
      requires Balanced(exact, m, g, g[node].level, NIL, 0, node, owed)
      requires exact ==> owed > 0 && NoneNegative(mem.count)
      modifies this`mem, this`info
      ensures Bushy(mem.body, NIL)
      ensures exact ==> NoneNegative(mem.count)
      ensures exact ==> m.count[node] > old(mem.count)[node] + old(mem.count)[right]
      ensures Rejoined(m, g, mem, info, node, q, x, l, fence, path)
      ensures Below(old(mem), old(info), mem, info, g[node].level + 1)
      ensures mem.root >= |g|
      ensures Balanced(exact, mem, info, g[node].level + 1, NIL, 0, fence, owed)
    {
      hide NoneNegative;
      hide Rows;
      hide Row;
      hide Sum;
      hide KindOk;
      hide Balanced;
      hide Bushy;
      hide Rejoined;
      hide Below;
      ghost var m1, g1 := mem, info;
      PendingFacts(m, g, node, q, x, l);
      if exact { SumOfTwo(m1.count, node, right); }
      HalvesOwe(exact, m, g, mem, info, node, l, x, junk, owed);
      MidPtr(m, node, m.cap, mem);
      GrowRoot(node, right, mid);
      GrowBushy(m1, g1, mem, info, node, right, MidKey(m.body[node]));
      fence, path := NIL, [mem.root, NIL];
      RejoinRoot(m, g, node, q, x, l, m1, g1, junk, mem, info);
      GrowBelow(m1, g1, mem, info, node, right, MidKey(m.body[node]));
      TopLevels(m, g);
      GrowBalance(exact, m1, g1, mem, info, node, right, MidKey(m.body[node]), owed);
    }

    /** Both pointers are read again, and x goes under the half whose side of the promoted key it is on. */
    method LinkHalf(node: int, right: int, mid: KeyPtr, q: KeyPtr, x: int, ghost l: int,
                    ghost m: Mem, ghost g: seq<Info>, ghost fence: int, ghost path: seq<int>, ghost owed: int,
                    ghost exact: bool)
      requires Pending(m, g, node, q, x, l)
      requires m.body[node].Inner? && |m.body[node].kc.keys| == |m.body[node].kc.data| == m.cap
      requires right == |g| && mid == KeyPtr(node, LeftCount(m.cap) - 1)
      requires Rejoined(m, g, mem, info, node, q, x, l, fence, path)
      requires Below(m, g, mem, info, g[node].level)
      requires mem.root == m.root || mem.root >= |g|
      requires Balanced(exact, mem, info, g[node].level, NIL, 0, fence, owed)
      requires Bushy(mem.body, NIL)
      modifies this`mem
      ensures Bushy(mem.body, NIL)
      ensures mem.count == old(mem.count)
      ensures 0 <= x < |mem.parent| && Inserted(m, g, mem, info, g[node].level, x, l, fence, [mem.parent[x]] + path)
      ensures Balanced(exact, mem, info, g[node].level, mem.parent[x], mem.count[x], fence, owed)
    {
      hide NoneNegative;
      hide Bushy;
      ghost var m2 := mem;
      if Deref(mem, q) < Deref(mem, mid) {
        PutKid(node, q, x);
      } else if Deref(mem, q) > Deref(mem, mid) {
        PutKid(right, q, x);
      } else {
        assert false;
      }
      LinkStep(m2, info, m2.parent[l], q, x, l, mem);
      LinkCounts(exact, m2, info, m2.parent[l], q, x, l, mem, fence, owed);
      Wider(m2.body, m2.parent[l]);
      LinkBushy(m2.body, m2.parent[l], Deref(m2, q), x, mem.body);
      FinishSplit(m, g, node, q, x, l, m2, info, fence, path, mem);
    }

    /**
     `put_to_internal_node`: links x under `node` at the key that q points to, splitting upwards
     where nodes are full. Both pointers are read after the levels above have been rewritten.
     `owed` is by how much node's count is ahead of its children's on entry.
     */
    method PutToInternal(node: int, q: KeyPtr, x: int, ghost l: int, ghost owed: int, ghost exact: bool)
      returns (fence: int, ghost path: seq<int>)
      requires Pending(mem, info, node, q, x, l)
      requires Balanced(exact, mem, info, info[node].level, NIL, 0, node, owed)
      requires Bushy(mem.body, node)
      requires exact ==> owed > 0 && NoneNegative(mem.count)
      modifies this`mem, this`info
      ensures Bushy(mem.body, NIL)
      ensures exact ==> NoneNegative(mem.count)
      ensures Inserted(old(mem), old(info), mem, info, old(info)[node].level, x, l, fence, path)
      ensures Balanced(exact, mem, info, old(info)[node].level, mem.parent[x], mem.count[x], fence, owed)
      decreases if info[mem.root].level >= info[node].level then info[mem.root].level - info[node].level else 0, 1
    {
      hide NoneNegative;
      hide Bushy;
      ghost var m, g := mem, info;
      PendingFacts(mem, info, node, q, x, l);
      if !IsFull(mem.body[node].kc) {
        PutKid(node, q, x);
        LinkStep(m, g, node, q, x, l, mem);
        LinkCounts(exact, m, g, node, q, x, l, mem, node, owed);
        LinkBushy(m.body, node, Deref(m, q), x, mem.body);
        fence := node;
        path := [node];
      } else {
        var right, mid;
        ghost var junk;
        right, mid, junk := SplitAndCount(node, q, x, l);
        ghost var m1, g1 := mem, info;
        fence, path := TakeIn(node, right, mid, m, g, q, x, l, junk, owed, exact);
        BeforeLink(exact, m, g, node, q, x, l, m1, g1, junk, mem, info, fence, path, owed);
        LinkHalf(node, right, mid, q, x, l, m, g, fence, path, owed, exact);
        path := [mem.parent[x]] + path;
      }
    }

    // ---- leaves ----

    ghost predicate Valid()
      reads this
    {
      TreeOk(mem, info, model) && Branching(mem) && Counts(false, mem, info)
    }

    ghost predicate Exact()
      reads this
    {
      Counts(true, mem, info)
    }

    ghost predicate Serves(leaf: int, key: int)
      reads this
    {
      0 <= leaf < |info| && info[leaf].level == 0 && info[leaf].lo <= key < info[leaf].hi
    }

    /** `init`: an empty root over one empty leaf. */
    constructor (cap: nat, bound: int)
      requires cap >= 3 && bound > 0
      ensures Valid() && Exact() && model == map[]
      ensures mem.cap == cap && mem.bound == bound
      ensures LeafSet(info) == {1} && info[mem.root].level == 1
    {
      mem := Mem(cap, bound, 0,
                 [Inner(1, SArr([], [], Junk(cap))), Leaf(SArr([], [], Junk(cap)))],
                 [NIL, 0], [NIL, NIL], [NIL, NIL], [0, 0]);
      info := [Info(0, bound, 1), Info(0, bound, 0)];
      model := map[];
      new;
      forall i | 0 <= i < 1 ensures KidOk(mem.body, mem.parent, info, 0, NIL, NIL, i) {}
      assert Sum(mem.count, mem.body[0]) == 0 by {
        assert SumKids(mem.count, mem.body[0], 1) == SumKids(mem.count, mem.body[0], 0) + mem.count[1];
      }
    }

    /** Splices `right` into the leaf chain behind `leaf`. */
    method LinkRight(leaf: int, right: int)
      requires 0 <= leaf < right < |mem.next| == |mem.prev|
      requires mem.next[leaf] == NIL || 0 <= mem.next[leaf] < right
      modifies this`mem
      ensures mem == old(mem).(next := old(mem.next)[right := old(mem.next)[leaf]][leaf := right], prev := mem.prev)
      ensures mem.prev == var p := old(mem.prev)[right := leaf];
                          if old(mem.next)[leaf] != NIL then p[old(mem.next)[leaf] := right] else p
    {
      mem := mem.(prev := mem.prev[right := leaf]);
      mem := mem.(next := mem.next[right := mem.next[leaf]]);
      if mem.next[leaf] != NIL {
        mem := mem.(prev := mem.prev[mem.next[leaf] := right]);
      }
      mem := mem.(next := mem.next[leaf := right]);
    }

    /** `leaf_node_t::split`. The new counts add up to the old one, as the program asserts, exactly if
        that was the number of keys. */
    method SplitLeaf(leaf: int) returns (right: int, ghost mid: int)
      requires Valid() && 0 <= leaf < |info| && info[leaf].level == 0
      requires mem.body[leaf].Leaf? && IsFull(mem.body[leaf].kv)
               && |mem.body[leaf].kv.keys| == |mem.body[leaf].kv.data| == mem.cap
      modifies this`mem, this`info
      ensures right == |old(info)| && LeafSplit(old(mem), old(info), mem, info, leaf, mid)
      ensures Leaves(mem, info, model) && Chain(mem, info)
      ensures !IsFull(mem.body[leaf].kv) && !IsFull(mem.body[right].kv)
      ensures mem.body == old(mem.body)[leaf := mem.body[leaf]] + [mem.body[right]]
      ensures |mem.body[leaf].kv.keys| + |mem.body[right].kv.keys| == mem.cap
      ensures mem.count == old(mem.count)[leaf := |mem.body[leaf].kv.keys|] + [|mem.body[right].kv.keys|]
      ensures |mem.body[right].kv.keys| > 0
      ensures mem.count[leaf] + mem.count[right] == old(mem.count)[leaf] <==>
                LeafCountOk(true, old(mem), leaf, NIL)
    {
      hide Counts;
      hide Balanced;
      hide LeafCounts;
      hide Row;
      hide KindOk;
      hide Bushy;
      hide Branching;
      hide LeafSet;
      hide Rows;
      ghost var m, g := mem, info;
      var kv := mem.body[leaf].kv;
      var junk := Junk(LeftCount(mem.cap));
      assert LeafOk(mem.body, info, mem.cap, model, leaf) && ChainOk(mem.next, mem.prev, info, mem.bound, leaf);
      right := NewNode(Leaf(SplitRight(kv, junk)));
      mem := mem.(body := mem.body[leaf := Leaf(SplitLeft(kv))]);
      LinkRight(leaf, right);
      mem := mem.(count := mem.count[leaf := |mem.body[leaf].kv.keys|]);
      mem := mem.(count := mem.count[right := |mem.body[right].kv.keys|]);
      mid := kv.keys[LeftCount(mem.cap)];
      info := info[leaf := info[leaf].(hi := mid)] + [info[leaf].(lo := mid)];
      SplitHolds(kv, junk, model, g[leaf].lo, g[leaf].hi);
      LeafSplitHolds(m, g, model, mem, info, leaf, mid, junk);
      LeafSplitChain(m, g, mem, info, leaf, mid);
    }

    /** `leaf_node_t::put`. */
    method PutInLeaf(leaf: int, key: int, value: int) returns (replaced: bool)
      requires Leaves(mem, info, model) && Serves(leaf, key)
      requires forall c :: 0 <= c < |info| && info[c].level == 0 && c != leaf ==> key < info[c].lo || info[c].hi <= key
      requires mem.body[leaf].Leaf? && |mem.body[leaf].kv.keys| == |mem.body[leaf].kv.data|
               && !IsFull(mem.body[leaf].kv)
      modifies this`mem, this`model
      ensures mem == old(mem).(body := old(mem.body)[leaf := Leaf(SortedView.Put(old(mem.body)[leaf].kv, key, value))])
      ensures model == old(model)[key := value]
      ensures Leaves(mem, info, model)
      ensures replaced <==> key in old(model)
      ensures |mem.body[leaf].kv.keys| == |old(mem.body)[leaf].kv.keys| + (if replaced then 0 else 1)
    {
      ghost var m := mem;
      var before := |mem.body[leaf].kv.keys|;
      mem := mem.(body := mem.body[leaf := Leaf(SortedView.Put(mem.body[leaf].kv, key, value))]);
      LeafPutHolds(m, info, model, leaf, key, value, mem);
      replaced := before == |mem.body[leaf].kv.keys|;
      model := model[key := value];
    }

    /** The key goes into the half that serves it, which the right half's first key tells. */
    method PutInHalf(leaf: int, right: int, key: int, value: int, midPtr: KeyPtr,
                     ghost m: Mem, ghost g: seq<Info>, ghost mid: int)
      returns (existing: int, replaced: bool)
      requires Base(m, g) && Rows(m, g, 1) && LeafSplit(m, g, mem, info, leaf, mid)
      requires g[leaf].lo <= key < g[leaf].hi && right == |g| && midPtr == KeyPtr(right, 0)
      requires Leaves(mem, info, model)
      requires !IsFull(mem.body[leaf].kv) && !IsFull(mem.body[right].kv)
      requires mem.count[leaf] == |mem.body[leaf].kv.keys| && mem.count[right] == |mem.body[right].kv.keys|
      modifies this`mem, this`model
      ensures mem == old(mem).(body := mem.body) && LeafSplit(m, g, mem, info, leaf, mid)
      ensures Leaves(mem, info, model) && model == old(model)[key := value]
      ensures replaced <==> key in old(model)
      ensures Serves(existing, key) && (existing == leaf || existing == right)
      ensures LeafCountOk(true, mem, leaf, if replaced then NIL else existing)
      ensures LeafCountOk(true, mem, right, if replaced then NIL else existing)
    {
      hide Rows;
      hide Base;
      HalfAlone(m, g, mem, info, leaf, mid, key);
      assert LeafOk(mem.body, info, mem.cap, model, leaf) && LeafOk(mem.body, info, mem.cap, model, right);
      if key < Deref(mem, midPtr) {
        replaced := PutInLeaf(leaf, key, value);
        existing := leaf;
      } else {
        PutKeepsFirst(mem.body[right].kv, key, value);
        replaced := PutInLeaf(right, key, value);
        existing := right;
      }
    }

    /** A full leaf is split, the key goes into its half, and the index takes in the new leaf. */
    method PutToFullLeaf(leaf: int, key: int, value: int, ghost exact: bool) returns (existing: int, replaced: bool)
      requires Valid() && Serves(leaf, key) && 0 <= key < mem.bound && (exact ==> Exact())
      requires mem.body[leaf].Leaf? && IsFull(mem.body[leaf].kv)
      modifies this
      ensures Valid() && model == old(model)[key := value] && |LeafSet(info)| == |LeafSet(old(info))| + 1
      ensures mem.bound == old(mem.bound) && mem.cap == old(mem.cap)
      ensures replaced <==> key in old(model)
      ensures Serves(existing, key)
      ensures Balanced(exact, mem, info, 1, NIL, 0, NIL, 0)
              && LeafCounts(exact, mem, if replaced then NIL else existing)
    {
      hide Balanced;
      hide LeafCounts;
      hide KindOk;
      hide Rows;
      hide Row;
      hide Bushy;
      hide LeafSet;
      ghost var m, g := mem, info;
      assert LeafOk(mem.body, info, mem.cap, model, leaf);
      var right;
      ghost var mid;
      if exact { NotNegative(mem, info, model); }
      right, mid := SplitLeaf(leaf);
      ghost var m1, g1 := mem, info;
      var midPtr := KeyPtr(right, 0);
      existing, replaced := PutInHalf(leaf, right, key, value, midPtr, m, g, mid);
      ghost var m2 := mem;
      assert Chain(m2, g1);
      LeafSplitPending(m, g, m2, g1, leaf, mid);
      LeafSplitBushy(m, g, m2, leaf);
      NewLeaf(g, g1);
      LeafSplitCounts(exact, m, g, m2, g1, leaf, mid, if replaced then NIL else existing);
      LinkNewLeaf(leaf, right, midPtr, if replaced then NIL else existing, exact);
      Loosen(exact, mem, info, if replaced then NIL else existing);
    }

    /** The index takes in the new leaf, and its count is carried up to the fence. */
    method LinkNewLeaf(leaf: int, right: int, midPtr: KeyPtr, ghost late: int, ghost exact: bool)
      requires Base(mem, info) && Leaves(mem, info, model) && Chain(mem, info)
      requires 0 <= leaf < |mem.parent| && 0 <= right < |mem.count|
               && Pending(mem, info, mem.parent[leaf], midPtr, right, leaf)
      requires info[mem.parent[leaf]].level == 1
      requires Balanced(exact, mem, info, 1, NIL, 0, mem.parent[leaf], mem.count[right]) && LeafCounts(exact, mem, late)
      requires Bushy(mem.body, mem.parent[leaf])
      requires exact ==> mem.count[right] > 0 && NoneNegative(mem.count)
      modifies this`mem, this`info
      ensures Bushy(mem.body, NIL) && LeafSet(info) == LeafSet(old(info))
      ensures Base(mem, info) && Rows(mem, info, 1) && Leaves(mem, info, model) && Chain(mem, info)
      ensures mem.bound == old(mem.bound) && mem.cap == old(mem.cap) && |info| >= |old(info)|
      ensures forall c {:trigger info[c]} :: 0 <= c < |old(info)| && old(info)[c].level == 0 ==> info[c] == old(info)[c]
      ensures Balanced(exact, mem, info, 1, NIL, 0, NIL, 0) && LeafCounts(exact, mem, late)
    {
      hide NoneNegative;
      hide Bushy;
      ghost var m, g := mem, info;
      var fence;
      ghost var path;
      fence, path := PutToInternal(mem.parent[leaf], midPtr, right, leaf, mem.count[right], exact);
      ghost var m1 := mem;
      assert m1.count[right] == m.count[right];
      Propagate(mem.parent[right], fence, mem.count[right], path, 1, 1, m.count[right], 0, exact);
      PathCounts(m1, info, path, 1, fence);
      InsertedCounts(m, g, m1, info, 1, right, leaf, fence, path, mem);
      LeavesBelow(exact, m, g, mem, info, model, late);
      SameLeaves(m, g, mem, info);
      AnyFence(exact, mem, info, fence);
    }

    /** `put_to_leaf_node`. */
    method PutToLeaf(leaf: int, key: int, value: int, ghost exact: bool) returns (existing: int, replaced: bool)
      requires Valid() && Serves(leaf, key) && 0 <= key < mem.bound && (exact ==> Exact())
      modifies this
      ensures Valid() && model == old(model)[key := value] && |LeafSet(info)| <= |LeafSet(old(info))| + 1
      ensures mem.bound == old(mem.bound) && mem.cap == old(mem.cap)
      ensures replaced <==> key in old(model)
      ensures Serves(existing, key)
      ensures Balanced(exact, mem, info, 1, NIL, 0, NIL, 0)
              && LeafCounts(exact, mem, if replaced then NIL else existing)
    {
      hide Bushy;
      hide LeafSet;
      assert LeafOk(mem.body, info, mem.cap, model, leaf);
      if IsFull(mem.body[leaf].kv) {
        existing, replaced := PutToFullLeaf(leaf, key, value, exact);
      } else {
        ghost var m := mem;
        LeafAlone(mem, info, leaf, key);
        replaced := PutInLeaf(leaf, key, value);
        existing := leaf;
        LeafChanged(m, info, mem, leaf);
        LeafBushy(m, mem, leaf);
        LeafChangedCounts(exact, m, info, mem, leaf, if replaced then NIL else leaf);
        Loosen(exact, mem, info, if replaced then NIL else leaf);
      }
    }

    // ---- lookup ----

    /** `find_leaf_node` by key. `visited` counts the internal nodes on the way. */
    method FindLeaf(key: int) returns (leaf: int, before: int, visited: nat)
      requires Valid() && 0 <= key < mem.bound
      ensures Serves(leaf, key) && 0 <= info[leaf].lo
      ensures AtMost(Exact(), before, Cnt(model, 0, info[leaf].lo))
      ensures visited == info[mem.root].level && (visited <= 1 || Pow2(visited) <= |LeafSet(info)|)
    {
      ghost var exact := Exact();
      before, visited := 0, 0;
      var n := mem.root;
      CntEmpty(model, 0, 0);
      assert KindOk(mem.body, info, mem.root, n);
      while mem.body[n].Inner?
        invariant 0 <= n < |info| && info[n].lo <= key < info[n].hi && 0 <= info[n].lo
        invariant mem.body[n].Leaf? <==> info[n].level == 0
        invariant AtMost(exact, before, Cnt(model, 0, info[n].lo))
        invariant visited + info[n].level == info[mem.root].level
        decreases info[n].level
      {
        var b := mem.body[n];
        ServingKid(mem, info, n, key);
        var p := Passed(b.kc.keys, key);
        PassedCount(exact, mem, info, model, n, p);
        forall i | 0 <= i < p ensures 0 <= Kid(b, i) < |mem.count| {
          assert KidOk(mem.body, mem.parent, info, n, NIL, NIL, i);
        }
        var passed := CountKids(b, p);
        before := before + passed;
        n := if p == 0 then b.left else b.kc.data[p - 1];
        visited := visited + 1;
        assert KindOk(mem.body, info, mem.root, n);
      }
      leaf := n;
      HeightBound(mem, info, model);
    }

    /** `get` by key. A missing key gets the number of keys before its leaf as its order. With inexact
        counts an order is never too large. */
    method GetByKey(key: int)
      returns (value: Option<int>, order: int, visited: nat, ghost leaf: int)
      requires Valid() && 0 <= key < mem.bound
      ensures Serves(leaf, key)
      ensures value == if key in model then Some(model[key]) else None
      ensures AtMost(Exact(), order, if key in model then 1 + Cnt(model, 0, key) else Cnt(model, 0, info[leaf].lo))
      ensures 0 <= info[leaf].lo && Cnt(model, 0, info[leaf].lo) <= Cnt(model, 0, key)
      ensures visited == info[mem.root].level && (visited <= 1 || Pow2(visited) <= |LeafSet(info)|)
    {
      var n, before;
      n, before, visited := FindLeaf(key);
      leaf := n;
      assert LeafOk(mem.body, info, mem.cap, model, n);
      var kv := mem.body[n].kv;
      FoundIsMember(kv.keys, key);
      CntSplit(model, 0, info[n].lo, key);
      var p := Passed(kv.keys, key);
      if Found(kv.keys, key) {
        LeafRank(mem, info, model, n, p - 1);
        assert EntryOk(kv, model, info[n].lo, info[n].hi, p - 1);
        value, order := Some(kv.data[p - 1]), before + p;
      } else {
        value, order := None, before + 0;
      }
    }

    /** `find_serving_node_by_order`. */
    method ServeByOrder(n: int, order: int) returns (p: nat, before: int)
      requires Valid() && 0 <= n < |info| && mem.body[n].Inner?
      requires 1 <= order <= Sum(mem.count, mem.body[n])
      ensures p < NumKids(mem.body[n]) && before == SumKids(mem.count, mem.body[n], p)
      ensures 0 <= Kid(mem.body[n], p) < |info|
      ensures before < order <= before + mem.count[Kid(mem.body[n], p)]
    {
      var b := mem.body[n];
      assert KindOk(mem.body, info, mem.root, n);
      assert InnerOk(mem.body, mem.parent, info, mem.cap, n, NIL, NIL);
      forall i | 0 <= i < NumKids(b) ensures 0 <= Kid(b, i) < |info| {
        assert KidOk(mem.body, mem.parent, info, n, NIL, NIL, i);
      }
      var left := order;
      assert Kid(b, 0) == b.left;
      if left <= mem.count[b.left] {
        return 0, order - left;
      }
      left := left - mem.count[b.left];
      var pos := 0;
      assert SumKids(mem.count, b, 1) == SumKids(mem.count, b, 0) + mem.count[b.left];
      while pos < |b.kc.data|
        invariant 0 <= pos <= |b.kc.data|
        invariant left == order - SumKids(mem.count, b, pos + 1) && left > 0
      {
        var child := b.kc.data[pos];
        assert Kid(b, pos + 1) == child;
        if left <= mem.count[child] {
          return pos + 1, order - left;
        }
        left := left - mem.count[child];
        pos := pos + 1;
      }
      assert false;
    }

    /** `get` by order: the order-th smallest key; with inexact counts, a stored key not before it. */
    method GetByOrder(order: int) returns (r: Option<(int, int)>)
      requires Valid()
      ensures r.Some? <==> 1 <= order <= mem.count[mem.root]
      ensures AtMost(Exact(), mem.count[mem.root], |model|)
      ensures r.Some? ==> r.value.0 in model && r.value.1 == model[r.value.0]
      ensures r.Some? ==> AtMost(Exact(), order, 1 + Cnt(model, 0, r.value.0))
    {
      RootCount(Exact(), mem, info, model);
      if order < 1 || order > mem.count[mem.root] {
        return None;
      }
      var n, left := FindByOrder(order);
      var kv := mem.body[n].kv;
      LeafRank(mem, info, model, n, left - 1);
      assert EntryOk(kv, model, info[n].lo, info[n].hi, left - 1);
      r := Some((kv.keys[left - 1], kv.data[left - 1]));
    }

    /** `find_leaf_node` by order: the leaf and the order within it. */
    method FindByOrder(order: int) returns (leaf: int, left: int)
      requires Valid() && 1 <= order <= mem.count[mem.root]
      ensures 0 <= leaf < |info| && info[leaf].level == 0 && mem.body[leaf].Leaf?
      ensures 1 <= left <= |mem.body[leaf].kv.keys|
      ensures AtMost(Exact(), order, Cnt(model, 0, info[leaf].lo) + left)
    {
      ghost var exact := Exact();
      CntEmpty(model, 0, 0);
      var n := mem.root;
      left := order;
      assert KindOk(mem.body, info, mem.root, n);
      while mem.body[n].Inner?
        invariant 0 <= n < |info| && 0 <= info[n].lo
        invariant mem.body[n].Leaf? <==> info[n].level == 0
        invariant 1 <= left <= mem.count[n] && AtMost(exact, order, Cnt(model, 0, info[n].lo) + left)
        decreases info[n].level
      {
        assert BalOk(false, mem, n, NIL, 0, NIL, 0);
        var p, before := ServeByOrder(n, left);
        PassedCount(exact, mem, info, model, n, p);
        assert InnerOk(mem.body, mem.parent, info, mem.cap, n, NIL, NIL);
        assert KidOk(mem.body, mem.parent, info, n, NIL, NIL, p);
        left := left - before;
        n := Kid(mem.body[n], p);
        assert KindOk(mem.body, info, mem.root, n);
      }
      leaf := n;
      assert LeafCountOk(false, mem, leaf, NIL);
    }

    /** `get_key_count`. */
    method KeyCount() returns (total: int)
      requires Valid()
      ensures total == mem.count[mem.root] && AtMost(Exact(), total, |model|)
    {
      RootCount(Exact(), mem, info, model);
      total := mem.count[mem.root];
    }

    // ---- update ----

    /** `put`. */
    method Put(key: int, value: int)
      requires Valid() && 0 <= key < mem.bound
      modifies this
      ensures Valid() && model == old(model)[key := value]
      ensures old(Exact()) ==> Exact()
      ensures |LeafSet(info)| <= |LeafSet(old(info))| + 1
      ensures mem.bound == old(mem.bound) && mem.cap == old(mem.cap)
    {
      hide Bushy;
      hide LeafSet;
      ghost var exact := Exact();
      var leaf, unused, visited := FindLeaf(key);
      var existing, replaced := PutToLeaf(leaf, key, value, exact);
      if !replaced {
        ghost var m := mem;
        ghost var path := PathToRoot(mem, info, existing);
        LeafIsShort(exact, mem, info, existing, 1, 1);
        Propagate(existing, NIL, 1, path, 0, 1, 1, 0, exact);
        LateCounts(exact, m, info, mem, existing, path);
        Loosen(exact, mem, info, NIL);
      }
    }

    /** `del`. The counts are decremented whether or not the key was there. */
    method Del(key: int) returns (value: Option<int>)
      requires Valid() && 0 <= key < mem.bound
      modifies this
      ensures Valid() && model == old(model) - {key} && info == old(info)
      ensures value == if key in old(model) then Some(old(model)[key]) else None
      ensures old(Exact()) ==> (Exact() <==> key in old(model))
      ensures |mem.count| == |info| && forall n {:trigger mem.count[n]} :: 0 <= n < |info| ==>
                mem.count[n] == old(mem.count)[n] - if info[n].lo <= key < info[n].hi then 1 else 0
      ensures mem.root == old(mem.root) && mem.count[mem.root] == old(mem.count)[mem.root] - 1
      ensures mem.bound == old(mem.bound) && mem.cap == old(mem.cap)
    {
      hide Bushy;
      hide LeafSet;
      ghost var m, exact := mem, Exact();
      var leaf, unused, visited := FindLeaf(key);
      value := DelInLeaf(leaf, key);
      ghost var m1 := mem;
      LeafChanged(m, info, mem, leaf);
      LeafBushy(m, mem, leaf);
      ghost var path := PathToRoot(mem, info, leaf);
      LeafChangedBalance(exact, m, info, mem, leaf);
      LeafIsShort(exact, mem, info, leaf, -1, -1);
      Propagate(leaf, NIL, -1, path, 0, 1, -1, 0, exact);
      CarriedAtMost(m, info, m1, mem, leaf, path, -1);
      LoosenBalance(exact, mem, info);
      if exact { CarriedCounts(m, info, m1, mem, leaf, path, -1); }
      forall n | 0 <= n < |info| ensures mem.count[n] == m.count[n] - if info[n].lo <= key < info[n].hi then 1 else 0 {
        PathIsServers(m1, info, path, key, n);
      }
    }

    /** `leaf_node_t::del`. */
    method DelInLeaf(leaf: int, key: int) returns (value: Option<int>)
      requires Valid() && Serves(leaf, key)
      modifies this`mem, this`model
      ensures mem == old(mem).(body := mem.body) && |mem.body| == |old(mem.body)| && mem.body[leaf].Leaf?
              && old(mem.body)[leaf].Leaf?
      ensures forall c {:trigger mem.body[c]} :: 0 <= c < |info| && c != leaf ==> mem.body[c] == old(mem.body)[c]
      ensures model == old(model) - {key} && Leaves(mem, info, model)
      ensures value == if key in old(model) then Some(old(model)[key]) else None
      ensures |mem.body[leaf].kv.keys| == |old(mem.body)[leaf].kv.keys| - (if key in old(model) then 1 else 0)
    {
      ghost var m := mem;
      assert LeafOk(mem.body, info, mem.cap, model, leaf);
      var kv := mem.body[leaf].kv;
      LeafAlone(mem, info, leaf, key);
      if Found(kv.keys, key) {
        assert EntryOk(kv, model, info[leaf].lo, info[leaf].hi, Passed(kv.keys, key) - 1);
        value := Some(kv.data[Passed(kv.keys, key) - 1]);
      } else {
        value := None;
      }
      mem := mem.(body := mem.body[leaf := Leaf(SortedView.Del(kv, key))]);
      LeafDelHolds(m, info, model, leaf, key, mem);
      model := model - {key};
    }
  }
}
