/**
 The disruptor with one publisher, as interleaved steps. Every step is one access to a shared
 sequence (or thread-local work): the scans over several sequences read them one by one, so
 the values they combine may be of different ages.

 Consumers may form any acyclic graph: consumer j waits for the consumers `deps[j]`, all with
 smaller indices, or for the cursor if there are none.
 */
module Disruptor {
  import opened Arithmetic

  const LONG_MAX: int := 0x7fff_ffff_ffff_ffff
  const INITIAL: int := -1

  datatype Config = Config(size: nat, deps: seq<seq<nat>>, gating: seq<nat>)

  /** Where the publisher is. Gating and Testing are the scans of `GetMinimumSequence` inside
      `WaitForFreeSlotAt` and `HasAvalaibleCapacity`: the next element to read and the minimum so far. */
  datatype Phase = Idle | Gating(i: nat, m: int) | Granted | Testing(i: nat, m: int)

  /** Where a consumer is: in `WaitFor`, or in the batch loop up to `avail`. */
  datatype Stage = Waiting(i: nat, m: int) | Handling(avail: int)

  /** `done` is the consumer's shared sequence, `next` its local `next_sequence`. */
  datatype Consumer = Consumer(done: int, next: int, stage: Stage)

  /** The sequences: `claimed` is the claim strategy's `sequence_`, `cached` its `min_gating_sequence_`.
      `sure` records that the capacity test last answered yes. */
  datatype Ctl = Ctl(claimed: int, cached: int, cursor: int, phase: Phase, sure: bool, cons: seq<Consumer>)

  datatype Action =
    | Claim(delta: nat) | GateRead
    | TestCapacity | TestRead
    | Publish
    | Read(j: nat) | Handle(j: nat) | Report(j: nat)

  predicate WfConfig(cfg: Config) {
    && cfg.size > 0
    && (forall j, k {:trigger cfg.deps[j][k]} :: 0 <= j < |cfg.deps| && 0 <= k < |cfg.deps[j]| ==> cfg.deps[j][k] < j)
    && |cfg.gating| > 0
    && (forall k {:trigger cfg.gating[k]} :: 0 <= k < |cfg.gating| ==> cfg.gating[k] < |cfg.deps|)
  }

  /** Consumer g runs behind consumer j: it is j, or depends on one that runs behind j. */
  predicate Behind(cfg: Config, g: nat, j: nat)
    requires WfConfig(cfg) && g < |cfg.deps|
    decreases g
  {
    g == j || exists k :: 0 <= k < |cfg.deps[g]| && Behind(cfg, cfg.deps[g][k], j)
  }

  predicate Gated(cfg: Config, j: nat)
    requires WfConfig(cfg)
  {
    exists k {:trigger cfg.gating[k]} :: 0 <= k < |cfg.gating| && Behind(cfg, cfg.gating[k], j)
  }

  /** Every consumer has a gating consumer behind it. */
  predicate AllGated(cfg: Config)
    requires WfConfig(cfg)
  {
    forall j {:trigger Gated(cfg, j)} :: 0 <= j < |cfg.deps| ==> Gated(cfg, j)
  }

  function Min(a: int, b: int): int {
    if a < b then a else b
  }

  /** `GetMinimumSequence` while the sequences move: element k is read at time k. The result lies between
      the minimum when the scan began and the minimum when it ends. */
  method GetMinimumSequence(times: seq<seq<int>>, n: nat) returns (minimum: int)
    requires |times| == n + 1 && forall t {:trigger times[t]} :: 0 <= t <= n ==> |times[t]| == n
    requires forall t, k {:trigger times[t][k]} :: 0 <= t <= n && 0 <= k < n ==>
               times[0][k] <= times[t][k] <= times[n][k] <= LONG_MAX
    ensures forall k {:trigger times[n][k]} :: 0 <= k < n ==> minimum <= times[n][k]
    ensures n > 0 ==> exists k {:trigger times[0][k]} :: 0 <= k < n && times[0][k] <= minimum
    ensures n == 0 ==> minimum == LONG_MAX
  {
    minimum := LONG_MAX;
    for i := 0 to n
      invariant forall k {:trigger times[n][k]} :: 0 <= k < i ==> minimum <= times[n][k]
      invariant minimum <= LONG_MAX
      invariant i > 0 ==> exists k {:trigger times[0][k]} :: 0 <= k < i && times[0][k] <= minimum
      invariant i == 0 ==> minimum == LONG_MAX
    {
      var sequence := times[i][i];
      assert times[0][i] <= sequence <= times[n][i];
      minimum := Min(minimum, sequence);
    }
  }

  function Start(cfg: Config): Ctl {
    Ctl(INITIAL, INITIAL, INITIAL, Idle, false,
        seq(|cfg.deps|, _ => Consumer(INITIAL, INITIAL + 1, Waiting(0, LONG_MAX))))
  }

  predicate Enabled(cfg: Config, c: Ctl, a: Action) {
    match a
    case Claim(delta) => c.phase.Idle? && 1 <= delta <= cfg.size
    case GateRead => c.phase.Gating?
    case TestCapacity => c.phase.Idle?
    case TestRead => c.phase.Testing?
    case Publish => c.phase.Granted?
    case Read(j) => j < |c.cons| && c.cons[j].stage.Waiting?
    case Handle(j) => j < |c.cons| && c.cons[j].stage.Handling? && c.cons[j].next <= c.cons[j].stage.avail
    case Report(j) => j < |c.cons| && c.cons[j].stage.Handling? && c.cons[j].next > c.cons[j].stage.avail
  }

  function Step(cfg: Config, c: Ctl, a: Action): Ctl
    requires WfConfig(cfg) && |c.cons| == |cfg.deps| && Enabled(cfg, c, a)
  {
    match a
    case Claim(delta) =>
      var target := c.claimed + delta;
      c.(claimed := target, sure := false,
         phase := if target - cfg.size > c.cached then Gating(0, LONG_MAX) else Granted)
    case GateRead =>
      var i, m := c.phase.i, c.phase.m;
      c.(phase :=
           if i < |cfg.gating| then Gating(i + 1, Min(m, c.cons[cfg.gating[i]].done))
           else if c.claimed - cfg.size > m then Gating(0, LONG_MAX)
           else Granted)
    case TestCapacity =>
      if c.claimed + 1 - cfg.size > c.cached then c.(phase := Testing(0, LONG_MAX), sure := false)
      else c.(sure := true)
    case TestRead =>
      var i, m := c.phase.i, c.phase.m;
      if i < |cfg.gating| then c.(phase := Testing(i + 1, Min(m, c.cons[cfg.gating[i]].done)))
      else c.(phase := Idle, cached := m, sure := !(c.claimed + 1 - cfg.size > m))
    case Publish =>
      c.(cursor := c.claimed, phase := Idle)
    case Read(j) =>
      c.(cons := c.cons[j := ReadStep(cfg, c, j)])
    case Handle(j) =>
      c.(cons := c.cons[j := c.cons[j].(next := c.cons[j].next + 1)])
    case Report(j) =>
      c.(cons := c.cons[j := c.cons[j].(done := c.cons[j].next - 1, stage := Waiting(0, LONG_MAX))])
  }

  /** One read in `BusySpinStrategy::WaitFor`. */
  function ReadStep(cfg: Config, c: Ctl, j: nat): Consumer
    requires WfConfig(cfg) && |c.cons| == |cfg.deps| && j < |c.cons| && c.cons[j].stage.Waiting?
  {
    var me := c.cons[j];
    if cfg.deps[j] == [] then
      if c.cursor < me.next then me else me.(stage := Handling(c.cursor))
    else if me.stage.i < |cfg.deps[j]| then
      me.(stage := Waiting(me.stage.i + 1, Min(me.stage.m, c.cons[cfg.deps[j][me.stage.i]].done)))
    else if me.stage.m < me.next then
      me.(stage := Waiting(0, LONG_MAX))
    else
      me.(stage := Handling(me.stage.m))
  }

  // ---- the invariant ----

  /** The minimum of the first i scanned sequences is a lower bound of their present values. */
  ghost predicate ScanOk(c: Ctl, list: seq<nat>, i: nat, m: int) {
    && i <= |list|
    && forall k {:trigger list[k]} :: 0 <= k < i ==> list[k] < |c.cons| && m <= c.cons[list[k]].done
  }

  ghost predicate ConsumerOk(cfg: Config, c: Ctl, j: nat)
    requires j < |c.cons| == |cfg.deps|
  {
    var me := c.cons[j];
    && INITIAL <= me.done < me.next <= c.cursor + 1
    && (forall k {:trigger cfg.deps[j][k]} :: 0 <= k < |cfg.deps[j]| ==>
          cfg.deps[j][k] < |c.cons| && me.next <= c.cons[cfg.deps[j][k]].done + 1)
    && match me.stage
       case Waiting(i, m) => me.next == me.done + 1 && ScanOk(c, cfg.deps[j], i, m)
       case Handling(avail) =>
         && me.next <= avail + 1 && avail <= c.cursor
         && (forall k {:trigger cfg.deps[j][k]} :: 0 <= k < |cfg.deps[j]| ==> avail <= c.cons[cfg.deps[j][k]].done)
  }

  ghost predicate PublisherOk(cfg: Config, c: Ctl) {
    && INITIAL <= c.cursor <= c.claimed
    && (forall k {:trigger cfg.gating[k]} :: 0 <= k < |cfg.gating| ==>
          cfg.gating[k] < |c.cons| && c.cached <= c.cons[cfg.gating[k]].done
            && c.cursor <= c.cons[cfg.gating[k]].done + cfg.size)
    && (c.sure ==> c.phase.Idle? && c.claimed + 1 - cfg.size <= c.cached)
    && match c.phase
       case Idle => c.claimed == c.cursor
       case Gating(i, m) => c.cursor < c.claimed <= c.cursor + cfg.size && ScanOk(c, cfg.gating, i, m)
       case Granted =>
         && c.cursor < c.claimed <= c.cursor + cfg.size
         && (forall k {:trigger cfg.gating[k]} :: 0 <= k < |cfg.gating| ==>
               c.claimed <= c.cons[cfg.gating[k]].done + cfg.size)
       case Testing(i, m) => c.claimed == c.cursor && ScanOk(c, cfg.gating, i, m)
  }

  ghost predicate Inv(cfg: Config, c: Ctl) {
    && WfConfig(cfg) && |c.cons| == |cfg.deps|
    && PublisherOk(cfg, c)
    && forall j {:trigger ConsumerOk(cfg, c, j)} :: 0 <= j < |c.cons| ==> ConsumerOk(cfg, c, j)
  }

  lemma StartInv(cfg: Config)
    requires WfConfig(cfg)
    ensures Inv(cfg, Start(cfg))
  {
  }

  /** Sequences only grow, and everything a consumer waited for stays true. */
  lemma ConsumerKept(cfg: Config, c: Ctl, c': Ctl, j: nat)
    requires WfConfig(cfg) && |c.cons| == |c'.cons| == |cfg.deps| && j < |c.cons|
    requires ConsumerOk(cfg, c, j) && c'.cons[j] == c.cons[j]
    requires c.cursor <= c'.cursor
    requires forall k :: 0 <= k < |c.cons| ==> c.cons[k].done <= c'.cons[k].done
    ensures ConsumerOk(cfg, c', j)
  {
  }

  /** Every step of either side keeps the invariant. */
  lemma StepInv(cfg: Config, c: Ctl, a: Action)
    requires Inv(cfg, c) && Enabled(cfg, c, a)
    ensures Inv(cfg, Step(cfg, c, a))
  {
    var c' := Step(cfg, c, a);
    StepGrows(cfg, c, a);
    forall j | 0 <= j < |c'.cons| ensures ConsumerOk(cfg, c', j) {
      assert ConsumerOk(cfg, c, j);
      if c'.cons[j] == c.cons[j] {
        ConsumerKept(cfg, c, c', j);
      } else {
        ConsumerMoves(cfg, c, a, j);
      }
    }
    StepPublisher(cfg, c, a);
  }

  lemma StepGrows(cfg: Config, c: Ctl, a: Action)
    requires Inv(cfg, c) && Enabled(cfg, c, a)
    ensures var c' := Step(cfg, c, a);
            && |c'.cons| == |c.cons| && c.cursor <= c'.cursor && c.claimed <= c'.claimed
            && forall k {:trigger c'.cons[k]} {:trigger c.cons[k]} :: 0 <= k < |c.cons| ==>
                 c.cons[k].done <= c'.cons[k].done && c.cons[k].next <= c'.cons[k].next
  {
    if a.Report? { assert ConsumerOk(cfg, c, a.j); }
  }

  lemma ConsumerMoves(cfg: Config, c: Ctl, a: Action, j: nat)
    requires Inv(cfg, c) && Enabled(cfg, c, a) && j < |c.cons|
    requires a == Read(j) || a == Handle(j) || a == Report(j)
    ensures ConsumerOk(cfg, Step(cfg, c, a), j)
  {
    assert ConsumerOk(cfg, c, j);
    if a == Read(j) && cfg.deps[j] != [] && c.cons[j].stage.i < |cfg.deps[j]| {
      assert ConsumerOk(cfg, c, cfg.deps[j][c.cons[j].stage.i]);
    }
    if a == Read(j) && cfg.deps[j] != [] {
      assert cfg.deps[j][0] < j;
      assert ConsumerOk(cfg, c, cfg.deps[j][0]);
    }
  }

  lemma StepPublisher(cfg: Config, c: Ctl, a: Action)
    requires Inv(cfg, c) && Enabled(cfg, c, a)
    ensures PublisherOk(cfg, Step(cfg, c, a))
  {
    StepGrows(cfg, c, a);
  }

  // ---- runs ----

  /** The states of a run: each step of each side in any order. */
  predicate RunOk(cfg: Config, c: Ctl, acts: seq<Action>)
    requires WfConfig(cfg) && |c.cons| == |cfg.deps|
    decreases |acts|
  {
    acts == [] || (Enabled(cfg, c, acts[0]) && RunOk(cfg, Step(cfg, c, acts[0]), acts[1..]))
  }

  function After(cfg: Config, c: Ctl, acts: seq<Action>): (r: Ctl)
    requires WfConfig(cfg) && |c.cons| == |cfg.deps| && RunOk(cfg, c, acts)
    ensures |r.cons| == |cfg.deps|
    decreases |acts|
  {
    if acts == [] then c else After(cfg, Step(cfg, c, acts[0]), acts[1..])
  }

  lemma {:induction false} RunInv(cfg: Config, c: Ctl, acts: seq<Action>)
    requires Inv(cfg, c) && RunOk(cfg, c, acts)
    ensures Inv(cfg, After(cfg, c, acts))
    decreases |acts|
  {
    if acts == [] {
    } else {
      StepInv(cfg, c, acts[0]);
      RunInv(cfg, Step(cfg, c, acts[0]), acts[1..]);
    }
  }

  // ---- what a run claims and publishes ----

  /** The sequences asked for. */
  function Claims(acts: seq<Action>): nat {
    if acts == [] then 0 else (if acts[0].Claim? then acts[0].delta else 0) + Claims(acts[1..])
  }

  /** Those asked for and not yet published, `open` of them from before. */
  function Unpublished(open: int, acts: seq<Action>): int
    decreases |acts|
  {
    if acts == [] then open else
      Unpublished(if acts[0].Claim? then open + acts[0].delta else if acts[0].Publish? then 0 else open, acts[1..])
  }

  /** How many events consumer j takes. */
  function Handles(acts: seq<Action>, j: nat): nat {
    if acts == [] then 0 else (if acts[0] == Handle(j) then 1 else 0) + Handles(acts[1..], j)
  }

  lemma {:induction false} RunCounts(cfg: Config, c: Ctl, acts: seq<Action>, j: nat)
    requires Inv(cfg, c) && RunOk(cfg, c, acts) && j < |c.cons|
    ensures var r := After(cfg, c, acts);
            && r.claimed == c.claimed + Claims(acts)
            && r.claimed - r.cursor == Unpublished(c.claimed - c.cursor, acts)
            && r.cons[j].next == c.cons[j].next + Handles(acts, j)
    decreases |acts|
  {
    if acts == [] {
    } else {
      StepInv(cfg, c, acts[0]);
      RunCounts(cfg, Step(cfg, c, acts[0]), acts[1..], j);
    }
  }

  /** In every run a claim of n takes the n sequences behind the cursor, publishing them moves the
      cursor by n, and a consumer's next sequence counts the events it has taken. */
  lemma RunClaims(cfg: Config, acts: seq<Action>, j: nat)
    requires WfConfig(cfg) && RunOk(cfg, Start(cfg), acts) && j < |cfg.deps|
    ensures var r := After(cfg, Start(cfg), acts);
            && r.claimed == INITIAL + Claims(acts)
            && r.cursor == INITIAL + Claims(acts) - Unpublished(0, acts)
            && (r.phase.Idle? || r.phase.Testing? <==> Unpublished(0, acts) == 0)
            && 0 <= Unpublished(0, acts) <= cfg.size
            && r.cons[j].next == Handles(acts, j)
  {
    StartInv(cfg);
    RunCounts(cfg, Start(cfg), acts, j);
    RunInv(cfg, Start(cfg), acts);
  }

  // ---- the capacity test ----

  /** What may happen during the test: its own reads, and steps of the consumers. */
  predicate DuringTest(a: Action) {
    a.TestRead? || a.Read? || a.Handle? || a.Report?
  }

  /** While the test runs, the minimum so far is that of sequences which have not gone down since it began. */
  ghost predicate TestFrom(cfg: Config, from: Ctl, c: Ctl) {
    && Inv(cfg, c) && |from.cons| == |c.cons| && c.claimed == from.claimed
    && match c.phase
       case Testing(i, m) => m == LONG_MAX || Below(cfg, from, m)
       case Idle => c.sure || exists m :: c.claimed + 1 - cfg.size > m && Below(cfg, from, m)
       case _ => false
  }

  /** Some gating sequence is not above m. */
  ghost predicate Below(cfg: Config, c: Ctl, m: int) {
    exists k {:trigger cfg.gating[k]} :: 0 <= k < |cfg.gating| && cfg.gating[k] < |c.cons| &&
      c.cons[cfg.gating[k]].done <= m
  }

  lemma {:induction false} TestRuns(cfg: Config, from: Ctl, c: Ctl, acts: seq<Action>)
    requires WfConfig(cfg) && TestFrom(cfg, from, c) && RunOk(cfg, c, acts) && from.claimed < LONG_MAX
    requires forall k :: 0 <= k < |from.cons| ==> k < |c.cons| && from.cons[k].done <= c.cons[k].done
    requires forall a :: a in acts ==> DuringTest(a)
    ensures TestFrom(cfg, from, After(cfg, c, acts))
    decreases |acts|
  {
    if acts == [] {
    } else {
      var a, c' := acts[0], Step(cfg, c, acts[0]);
      StepInv(cfg, c, a);
      StepGrows(cfg, c, a);
      assert DuringTest(a);
      if a.TestRead? && c.phase.i < |cfg.gating| {
        var d := c.cons[cfg.gating[c.phase.i]].done;
        assert from.cons[cfg.gating[c.phase.i]].done <= d;
      }
      TestRuns(cfg, from, c', acts[1..]);
    }
  }

  /** The test answers yes only if one more sequence fits, and no only if it did not fit when the test
      began, whatever the consumers do meanwhile. */
  lemma TestAnswers(cfg: Config, c: Ctl, acts: seq<Action>)
    requires Inv(cfg, c) && c.phase.Idle? && c.claimed < LONG_MAX
    requires RunOk(cfg, Step(cfg, c, TestCapacity), acts) && forall a :: a in acts ==> DuringTest(a)
    requires After(cfg, Step(cfg, c, TestCapacity), acts).phase.Idle?
    ensures var r := After(cfg, Step(cfg, c, TestCapacity), acts);
            && |r.cons| == |c.cons| && r.claimed == c.claimed
            && (forall k :: 0 <= k < |cfg.gating| ==> cfg.gating[k] < |c.cons|)
            && (r.sure ==>
                  forall k :: 0 <= k < |cfg.gating| ==> c.claimed + 1 <= r.cons[cfg.gating[k]].done + cfg.size)
            && (!r.sure ==>
                  exists k :: 0 <= k < |cfg.gating| && c.cons[cfg.gating[k]].done + cfg.size < c.claimed + 1)
  {
    StepInv(cfg, c, TestCapacity);
    TestRuns(cfg, c, Step(cfg, c, TestCapacity), acts);
  }

  // ---- what the invariant gives ----

  /** A consumer that runs behind another has not passed it. */
  lemma {:induction false} BehindLags(cfg: Config, c: Ctl, g: nat, j: nat)
    requires Inv(cfg, c) && g < |cfg.deps| && j < |cfg.deps| && Behind(cfg, g, j)
    ensures c.cons[g].done <= c.cons[j].done
    decreases g
  {
    if g == j {
    } else {
      var k :| 0 <= k < |cfg.deps[g]| && Behind(cfg, cfg.deps[g][k], j);
      assert cfg.deps[g][k] < g;
      assert ConsumerOk(cfg, c, g);
      BehindLags(cfg, c, cfg.deps[g][k], j);
    }
  }

  /** No wrap: in every interleaving, handled <= cursor <= granted claim <= any consumer's sequence
      plus the buffer size. So an event not yet handled and a sequence granted for writing never
      share a slot. */
  lemma SlotsApart(cfg: Config, c: Ctl, j: nat, unhandled: int, writable: int)
    requires Inv(cfg, c) && AllGated(cfg) && j < |c.cons| && c.phase.Granted?
    requires c.cons[j].next <= unhandled <= c.cursor < writable <= c.claimed
    ensures 0 <= unhandled && unhandled % cfg.size != writable % cfg.size
  {
    assert ConsumerOk(cfg, c, j);
    GrantedBound(cfg, c, j);
    ModApart(unhandled, writable, cfg.size);
  }

  /** The cursor, and a granted claim, are at most one buffer ahead of every consumer. */
  lemma GrantedBound(cfg: Config, c: Ctl, j: nat)
    requires Inv(cfg, c) && AllGated(cfg) && j < |c.cons|
    ensures c.cursor <= c.cons[j].done + cfg.size < c.cons[j].next + cfg.size
    ensures c.phase.Granted? ==> c.claimed <= c.cons[j].done + cfg.size
  {
    assert ConsumerOk(cfg, c, j);
    assert Gated(cfg, j);
    var k :| 0 <= k < |cfg.gating| && Behind(cfg, cfg.gating[k], j);
    BehindLags(cfg, c, cfg.gating[k], j);
  }

  /** After a yes of the capacity test, the next claim is granted at once. */
  lemma SureClaim(cfg: Config, c: Ctl)
    requires Inv(cfg, c) && c.sure
    ensures Enabled(cfg, c, Claim(1)) && Step(cfg, c, Claim(1)).phase == Granted
  {
  }

  /** In a chain the sequences are ordered: the last consumer's is the smallest, the first's is
      at most the cursor. */
  lemma {:induction false} ChainOrdered(cfg: Config, c: Ctl, i: nat, j: nat)
    requires Inv(cfg, c) && i <= j < |cfg.deps|
    requires forall k {:trigger cfg.deps[k]} :: 0 < k < |cfg.deps| ==> cfg.deps[k] == [k - 1]
    ensures c.cons[j].done <= c.cons[i].done <= c.cursor
    ensures Behind(cfg, j, i)
    decreases j - i
  {
    assert ConsumerOk(cfg, c, j);
    if i == j {
    } else {
      assert cfg.deps[j][0] == j - 1;
      ChainOrdered(cfg, c, i, j - 1);
    }
  }

  /** Gating on the last consumer of a chain protects every consumer. */
  lemma ChainGated(cfg: Config)
    requires WfConfig(cfg) && |cfg.deps| > 0 && cfg.gating == [|cfg.deps| - 1]
    requires forall k {:trigger cfg.deps[k]} :: 0 < k < |cfg.deps| ==> cfg.deps[k] == [k - 1]
    ensures AllGated(cfg)
  {
    StartInv(cfg);
    forall j | 0 <= j < |cfg.deps| ensures Gated(cfg, j) {
      ChainOrdered(cfg, Start(cfg), j, |cfg.deps| - 1);
      assert Behind(cfg, cfg.gating[0], j);
    }
  }
}
