/** Whole runs of the tree against a plain map, and rank and select as inverses. */
module TreeRuns {
  import opened Arithmetic
  import opened TreeShape
  import opened TreeLeaves
  import opened ArrayTrees
  import opened TreeHeight

  datatype Op = OpPut(key: int, value: int) | OpDel(key: int) | OpGet(key: int) | OpSelect(order: int)

  datatype Answer =
    | Stored
    | Deleted(was: Option<int>)
    | Looked(value: Option<int>, rank: int, visited: nat)
    | Selected(entry: Option<(int, int)>)

  function ApplyOp(model: map<int, int>, op: Op): map<int, int> {
    match op
    case OpPut(k, v) => model[k := v]
    case OpDel(k) => model - {k}
    case _ => model
  }

  function After(ops: seq<Op>): map<int, int> {
    if ops == [] then map[] else ApplyOp(After(ops[..|ops| - 1]), ops[|ops| - 1])
  }

  /** Every delete so far named a stored key. */
  predicate Clean(ops: seq<Op>) {
    ops == [] ||
    (Clean(ops[..|ops| - 1]) && (ops[|ops| - 1].OpDel? ==> ops[|ops| - 1].key in After(ops[..|ops| - 1])))
  }

  predicate InRange(op: Op, bound: int) {
    op.OpSelect? || 0 <= op.key < bound
  }

  function Find(model: map<int, int>, k: int): Option<int> {
    if k in model then Some(model[k]) else None
  }

  /** How many puts there are. */
  function Puts(ops: seq<Op>): nat {
    if ops == [] then 0 else Puts(ops[..|ops| - 1]) + (if ops[|ops| - 1].OpPut? then 1 else 0)
  }

  /** What the map says the answer must be. Ranks are right while deletes name stored keys; after that
      they are never too large, and selecting by order still finds stored keys, none before its turn.
      The order of a key not stored is at most a leaf's content short of its rank.
      A lookup after n puts visits at most one internal node, or the binary logarithm of n + 1. */
  predicate AnswerOk(cap: nat, before: seq<Op>, op: Op, a: Answer) {
    var model, clean := After(before), Clean(before);
    match op
    case OpPut(_, _) => a == Stored
    case OpDel(k) => a == Deleted(Find(model, k))
    case OpGet(k) =>
      && a.Looked? && a.value == Find(model, k)
      && (k in model ==> if clean then a.rank == 1 + Cnt(model, 0, k) else a.rank <= 1 + Cnt(model, 0, k))
      && (k !in model ==> a.rank <= Cnt(model, 0, k) && (clean ==> Cnt(model, 0, k) <= a.rank + cap))
      && (a.visited == 1 || (a.visited > 1 && Pow2(a.visited) <= Puts(before) + 1))
    case OpSelect(order) =>
      && a.Selected?
      && (a.entry.Some? ==>
            1 <= order <= |model| && a.entry.value.0 in model && a.entry.value.1 == model[a.entry.value.0])
      && (a.entry.Some? ==>
            var smaller := Cnt(model, 0, a.entry.value.0);
            if clean then smaller == order - 1 else smaller >= order - 1)
      && (clean && 1 <= order <= |model| ==> a.entry.Some?)
  }

  /** Every run answers as the map does, whatever splits and new roots it causes. */
  method Run(cap: nat, bound: int, ops: seq<Op>) returns (answers: seq<Answer>)
    requires cap >= 3 && bound > 0
    requires forall i {:trigger ops[i]} :: 0 <= i < |ops| ==> InRange(ops[i], bound)
    ensures |answers| == |ops|
    ensures forall i {:trigger ops[i]} :: 0 <= i < |ops| ==> AnswerOk(cap, ops[..i], ops[i], answers[i])
  {
    hide AnswerOk;
    hide LeafSet;
    var tree := new ArrayTree(cap, bound);
    NoOps(tree.info);
    answers := [];
    hide After;
    hide Clean;
    hide Puts;
    var i := 0;
    while i < |ops|
      invariant 0 <= i <= |ops| && |answers| == i
      invariant fresh(tree) && Tracks(tree, ops[..i]) && tree.mem.bound == bound && tree.mem.cap == cap
      invariant forall j {:trigger ops[j]} :: 0 <= j < i ==> AnswerOk(cap, ops[..j], ops[j], answers[j])
    {
      assert ops[..i + 1] == ops[..i] + [ops[i]];
      var a := Step(tree, ops[..i], ops[i]);
      answers := answers + [a];
      i := i + 1;
    }
  }

  lemma NoOps(g: seq<Info>)
    requires LeafSet(g) == {1}
    ensures After([]) == map[] && Clean([]) && |LeafSet(g)| <= Puts([]) + 1
  {
  }

  /** The tree after some operations. */
  ghost predicate Tracks(tree: ArrayTree, ops: seq<Op>)
    reads tree
  {
    && tree.Valid() && tree.model == After(ops)
    && (Clean(ops) ==> tree.Exact())
    && |LeafSet(tree.info)| <= Puts(ops) + 1
  }

  /** One operation is answered as the map says, and leaves the tree that the operations call for. */
  method Step(tree: ArrayTree, ghost before: seq<Op>, op: Op) returns (a: Answer)
    requires Tracks(tree, before) && InRange(op, tree.mem.bound)
    modifies tree
    ensures Tracks(tree, before + [op]) && tree.mem.bound == old(tree.mem.bound) && tree.mem.cap == old(tree.mem.cap)
    ensures AnswerOk(tree.mem.cap, before, op, a)
  {
    OneMore(before, op);
    hide After;
    hide Clean;
    hide Puts;
    hide LeafSet;
    match op {
      case OpPut(k, v) =>
        tree.Put(k, v);
        a := Stored;
      case OpDel(k) =>
        var was := tree.Del(k);
        a := Deleted(was);
      case OpGet(k) =>
        var v, rank, visited;
        ghost var leaf;
        v, rank, visited, leaf := tree.GetByKey(k);
        LeafHolds(tree.mem, tree.info, tree.model, leaf, k);
        a := Looked(v, rank, visited);
      case OpSelect(order) =>
        var e := tree.GetByOrder(order);
        a := Selected(e);
    }
  }

  /** A leaf holds the keys between its lower bound and one it serves, at most as many as fit. */
  lemma LeafHolds(m: Mem, g: seq<Info>, model: map<int, int>, leaf: int, k: int)
    requires TreeOk(m, g, model) && 0 <= leaf < |g| && g[leaf].level == 0 && 0 <= g[leaf].lo <= k < g[leaf].hi
    ensures Cnt(model, 0, k) <= Cnt(model, 0, g[leaf].lo) + m.cap
  {
    assert LeafOk(m.body, g, m.cap, model, leaf);
    var kv := m.body[leaf].kv;
    HoldsCount(kv, model, g[leaf].lo, g[leaf].hi, |kv.keys|);
    CntSplit(model, 0, g[leaf].lo, k);
    CntSplit(model, g[leaf].lo, k, g[leaf].hi);
  }

  lemma OneMore(before: seq<Op>, op: Op)
    ensures After(before + [op]) == ApplyOp(After(before), op)
    ensures Clean(before + [op]) <==> Clean(before) && (op.OpDel? ==> op.key in After(before))
    ensures Puts(before + [op]) == Puts(before) + if op.OpPut? then 1 else 0
  {
    assert (before + [op])[..|before + [op]| - 1] == before;
  }

  /** A rank belongs to one key. */
  lemma RankUnique(model: map<int, int>, k: int, k': int)
    requires k in model && k' in model && 0 <= k && 0 <= k'
    requires Cnt(model, 0, k) == Cnt(model, 0, k')
    ensures k == k'
  {
    if k < k' {
      RankGrows(model, k, k');
    } else if k' < k {
      RankGrows(model, k', k);
    }
  }

  lemma RankGrows(model: map<int, int>, k: int, k': int)
    requires k in model && 0 <= k < k'
    ensures Cnt(model, 0, k) < Cnt(model, 0, k')
  {
    CntSplit(model, 0, k, k');
    CntPositive(model, k, k', k);
  }

  /** Asking for the rank of a stored key and then for the key of that rank returns the key. */
  method RankThenSelect(tree: ArrayTree, key: int) returns (entry: Option<(int, int)>)
    requires tree.Valid() && tree.Exact() && key in tree.model
    ensures entry == Some((key, tree.model[key]))
  {
    assert 0 <= key < tree.mem.bound;
    var v, rank, visited;
    ghost var leaf;
    v, rank, visited, leaf := tree.GetByKey(key);
    CntSplit(tree.model, 0, key, tree.mem.bound);
    CntAll(tree.model, tree.mem.bound);
    CntPositive(tree.model, key, tree.mem.bound, key);
    entry := tree.GetByOrder(rank);
    RankUnique(tree.model, key, entry.value.0);
  }

  /** And the other way round. */
  method SelectThenRank(tree: ArrayTree, order: int) returns (rank: int)
    requires tree.Valid() && tree.Exact() && 1 <= order <= |tree.model|
    ensures rank == order
  {
    var e := tree.GetByOrder(order);
    var v, visited;
    ghost var leaf;
    assert 0 <= e.value.0 < tree.mem.bound;
    v, rank, visited, leaf := tree.GetByKey(e.value.0);
  }

  /** A delete that finds nothing makes the largest key unreachable by its order. */
  method LostByAbsentDelete(tree: ArrayTree, key: int) returns (n: int, last: Option<(int, int)>)
    requires tree.Valid() && tree.Exact() && 0 <= key < tree.mem.bound && key !in tree.model
    modifies tree
    ensures tree.model == old(tree.model) && n == |tree.model| && last == None
  {
    n := tree.KeyCount();
    var was := tree.Del(key);
    assert tree.model == old(tree.model);
    last := tree.GetByOrder(n);
  }
}
