/**
 No reachable state of the disruptor is stuck: the consumers can always catch up with the
 cursor, and then a waiting publisher is granted its claim.
 */
module Progress {
  import opened Disruptor

  /** Only consumer j moved. */
  predicate Only(c: Ctl, c': Ctl, j: nat) {
    j < |c.cons| && |c'.cons| == |c.cons| && c' == c.(cons := c.cons[j := c'.cons[j]])
  }

  lemma {:induction false} RunConcat(cfg: Config, c: Ctl, a: seq<Action>, b: seq<Action>)
    requires WfConfig(cfg) && |c.cons| == |cfg.deps| && RunOk(cfg, c, a) && RunOk(cfg, After(cfg, c, a), b)
    ensures RunOk(cfg, c, a + b) && After(cfg, c, a + b) == After(cfg, After(cfg, c, a), b)
    decreases |a|
  {
    if a == [] {
      assert a + b == b;
    } else {
      RunConcat(cfg, Step(cfg, c, a[0]), a[1..], b);
      assert (a + b)[0] == a[0] && (a + b)[1..] == a[1..] + b;
    }
  }

  lemma RunCons(cfg: Config, c: Ctl, a: Action, rest: seq<Action>)
    requires WfConfig(cfg) && |c.cons| == |cfg.deps| && Enabled(cfg, c, a) && RunOk(cfg, Step(cfg, c, a), rest)
    ensures RunOk(cfg, c, [a] + rest) && After(cfg, c, [a] + rest) == After(cfg, Step(cfg, c, a), rest)
  {
    assert ([a] + rest)[1..] == rest;
  }

  /** A batch is handled to its end and reported. */
  lemma {:induction false} FinishBatch(cfg: Config, c: Ctl, j: nat) returns (acts: seq<Action>)
    requires Inv(cfg, c) && j < |c.cons| && c.cons[j].stage.Handling?
    ensures RunOk(cfg, c, acts)
    ensures var c' := After(cfg, c, acts);
            Only(c, c', j) && c'.cons[j].stage == Waiting(0, LONG_MAX) && c'.cons[j].done == c.cons[j].stage.avail
            && c'.cons[j].next == c'.cons[j].done + 1
    decreases c.cons[j].stage.avail + 1 - c.cons[j].next
  {
    assert ConsumerOk(cfg, c, j);
    if c.cons[j].next <= c.cons[j].stage.avail {
      StepInv(cfg, c, Handle(j));
      var rest := FinishBatch(cfg, Step(cfg, c, Handle(j)), j);
      RunCons(cfg, c, Handle(j), rest);
      acts := [Handle(j)] + rest;
    } else {
      RunCons(cfg, c, Report(j), []);
      acts := [Report(j)];
    }
  }

  /** A wait scan runs to its end: it finds a batch or starts over. */
  lemma {:induction false} FinishScan(cfg: Config, c: Ctl, j: nat, v: int) returns (acts: seq<Action>)
    requires Inv(cfg, c) && j < |c.cons| && c.cons[j].stage.Waiting? && cfg.deps[j] != []
    ensures RunOk(cfg, c, acts)
    ensures var c' := After(cfg, c, acts);
            Only(c, c', j) && (c'.cons[j].stage.Handling? || c'.cons[j] == c.cons[j].(stage := Waiting(0, LONG_MAX)))
    ensures (c.cons[j].next <= v <= c.cons[j].stage.m
             && forall k {:trigger cfg.deps[j][k]} :: c.cons[j].stage.i <= k < |cfg.deps[j]| ==>
                  v <= c.cons[cfg.deps[j][k]].done) ==>
              After(cfg, c, acts).cons[j].stage.Handling? && v <= After(cfg, c, acts).cons[j].stage.avail
    decreases |cfg.deps[j]| - c.cons[j].stage.i
  {
    assert ConsumerOk(cfg, c, j);
    StepInv(cfg, c, Read(j));
    var c1 := Step(cfg, c, Read(j));
    if c.cons[j].stage.i < |cfg.deps[j]| {
      var d := cfg.deps[j][c.cons[j].stage.i];
      assert d < j;
      var rest := FinishScan(cfg, c1, j, v);
      RunCons(cfg, c, Read(j), rest);
      acts := [Read(j)] + rest;
    } else {
      RunCons(cfg, c, Read(j), []);
      acts := [Read(j)];
    }
  }

  /** Whatever a consumer is in the middle of, it finishes. */
  lemma Settle(cfg: Config, c: Ctl, j: nat) returns (acts: seq<Action>)
    requires Inv(cfg, c) && j < |c.cons|
    ensures RunOk(cfg, c, acts)
    ensures var c' := After(cfg, c, acts);
            Only(c, c', j) && c'.cons[j].stage.Waiting? && (cfg.deps[j] != [] ==>
                c'.cons[j].stage == Waiting(0, LONG_MAX))
  {
    acts := [];
    if c.cons[j].stage.Handling? {
      acts := FinishBatch(cfg, c, j);
    } else if cfg.deps[j] != [] {
      acts := FinishScan(cfg, c, j, c.cursor);
      RunInv(cfg, c, acts);
      if After(cfg, c, acts).cons[j].stage.Handling? {
        var more := FinishBatch(cfg, After(cfg, c, acts), j);
        RunConcat(cfg, c, acts, more);
        acts := acts + more;
      }
    }
  }

  /** A consumer whose predecessors have caught up with the cursor can do so too. */
  lemma CatchOne(cfg: Config, c: Ctl, j: nat) returns (acts: seq<Action>)
    requires Inv(cfg, c) && j < |c.cons| && c.cursor <= LONG_MAX
    requires forall k :: 0 <= k < j ==> c.cons[k].done == c.cursor
    ensures RunOk(cfg, c, acts) && Only(c, After(cfg, c, acts), j) && After(cfg, c, acts).cons[j].done == c.cursor
  {
    acts := Settle(cfg, c, j);
    RunInv(cfg, c, acts);
    var c1 := After(cfg, c, acts);
    assert ConsumerOk(cfg, c1, j);
    if c1.cons[j].done < c1.cursor {
      var more := CatchFresh(cfg, c1, j);
      RunConcat(cfg, c, acts, more);
      acts := acts + more;
    }
  }

  /** The same from the start of a scan. */
  lemma CatchFresh(cfg: Config, c: Ctl, j: nat) returns (acts: seq<Action>)
    requires Inv(cfg, c) && j < |c.cons| && c.cursor <= LONG_MAX
    requires forall k :: 0 <= k < j ==> c.cons[k].done == c.cursor
    requires c.cons[j].done < c.cursor
    requires c.cons[j].stage.Waiting? && (cfg.deps[j] != [] ==> c.cons[j].stage == Waiting(0, LONG_MAX))
    ensures RunOk(cfg, c, acts) && Only(c, After(cfg, c, acts), j) && After(cfg, c, acts).cons[j].done == c.cursor
  {
    assert ConsumerOk(cfg, c, j);
    if cfg.deps[j] == [] {
      RunCons(cfg, c, Read(j), []);
      acts := [Read(j)];
    } else {
      acts := FinishScan(cfg, c, j, c.cursor);
    }
    RunInv(cfg, c, acts);
    var c1 := After(cfg, c, acts);
    assert ConsumerOk(cfg, c1, j);
    assert c1.cons[j].stage.avail == c.cursor;
    var more := FinishBatch(cfg, c1, j);
    RunConcat(cfg, c, acts, more);
    acts := acts + more;
  }

  /** All consumers can catch up, while the publisher stands still. */
  lemma {:induction false} CatchUp(cfg: Config, c: Ctl, n: nat) returns (acts: seq<Action>)
    requires Inv(cfg, c) && n <= |c.cons| && c.cursor <= LONG_MAX
    ensures RunOk(cfg, c, acts)
    ensures var c' := After(cfg, c, acts);
            && c' == c.(cons := c'.cons)
            && forall k :: 0 <= k < n ==> c'.cons[k].done == c.cursor
  {
    if n == 0 {
      acts := [];
    } else {
      acts := CatchUp(cfg, c, n - 1);
      RunInv(cfg, c, acts);
      var more := CatchOne(cfg, After(cfg, c, acts), n - 1);
      RunConcat(cfg, c, acts, more);
      acts := acts + more;
    }
  }

  /** The publisher's scan runs to its end. */
  lemma {:induction false} FinishGate(cfg: Config, c: Ctl) returns (acts: seq<Action>)
    requires Inv(cfg, c) && c.phase.Gating?
    ensures RunOk(cfg, c, acts)
    ensures var c' := After(cfg, c, acts);
            c' == c.(phase := c'.phase) && (c'.phase == Granted || c'.phase == Gating(0, LONG_MAX))
    ensures c.claimed - cfg.size <= c.phase.m
            && (forall k :: c.phase.i <= k < |cfg.gating| ==> c.claimed - cfg.size <= c.cons[cfg.gating[k]].done) ==>
              After(cfg, c, acts).phase == Granted
    decreases |cfg.gating| - c.phase.i
  {
    StepInv(cfg, c, GateRead);
    if c.phase.i < |cfg.gating| {
      var rest := FinishGate(cfg, Step(cfg, c, GateRead));
      RunCons(cfg, c, GateRead, rest);
      acts := [GateRead] + rest;
    } else {
      RunCons(cfg, c, GateRead, []);
      acts := [GateRead];
    }
  }

  /** From every reachable state in which the publisher waits for a slot, some interleaving of the
      consumers and the publisher's own reads leads to its claim being granted. */
  lemma NeverStuck(cfg: Config, c: Ctl) returns (acts: seq<Action>)
    requires Inv(cfg, c) && c.phase.Gating? && c.claimed <= LONG_MAX
    ensures RunOk(cfg, c, acts)
    ensures var r := After(cfg, c, acts); r.phase == Granted && r.claimed == c.claimed && r.cursor == c.cursor
  {
    acts := CatchUp(cfg, c, |c.cons|);
    RunInv(cfg, c, acts);
    var c1 := After(cfg, c, acts);
    var more := FinishGate(cfg, c1);
    RunConcat(cfg, c, acts, more);
    acts := acts + more;
    RunInv(cfg, c, acts);
    var c2 := After(cfg, c, acts);
    if c2.phase != Granted {
      var again := FinishGate(cfg, c2);
      RunConcat(cfg, c, acts, again);
      acts := acts + again;
    }
  }

  /** From every reachable idle state the publisher can claim any batch the ring has room for, and can come
      to be granted just those sequences. */
  lemma ClaimReturns(cfg: Config, c: Ctl, n: nat) returns (acts: seq<Action>)
    requires Inv(cfg, c) && c.phase.Idle? && 1 <= n <= cfg.size && c.claimed + n <= LONG_MAX
    ensures RunOk(cfg, c, [Claim(n)] + acts)
    ensures var r := After(cfg, c, [Claim(n)] + acts);
            r.phase == Granted && r.cursor == c.cursor && r.claimed == r.cursor + n
  {
    var c1 := Step(cfg, c, Claim(n));
    StepInv(cfg, c, Claim(n));
    acts := [];
    if c1.phase.Gating? {
      acts := NeverStuck(cfg, c1);
    }
    RunCons(cfg, c, Claim(n), acts);
  }
}
