/**
 The ring of slots behind the sequences: what consumers read is what was published, in order
 and once, however often the ring wraps.
 */
module Rings {
  import opened Arithmetic
  import opened Disruptor

  // ---- mask indexing ----

  /** Bitwise conjunction of two non-negative numbers. */
  function And(a: nat, b: nat): nat {
    if a == 0 || b == 0 then 0 else (a % 2) * (b % 2) + 2 * And(a / 2, b / 2)
  }

  /** For a buffer size that is a power of two, `sequence & (size - 1)` is the remainder. */
  lemma {:induction false} MaskIsMod(s: nat, k: nat)
    ensures And(s, Pow2(k) - 1) == s % Pow2(k)
  {
    if s == 0 {
      SmallMod(0, Pow2(k));
    } else if k > 0 {
      var p := Pow2(k - 1);
      MaskIsMod(s / 2, k - 1);
      HalfMod(s, p);
      if p == 1 {
        assert And(s / 2, 0) == 0;
      }
      assert (Pow2(k) - 1) / 2 == p - 1 && (Pow2(k) - 1) % 2 == 1;
    }
  }

  lemma SmallMod(a: nat, n: nat)
    requires a < n
    ensures a % n == a
  {
  }

  lemma HalfMod(s: nat, p: nat)
    requires p > 0
    ensures s % (2 * p) == s % 2 + 2 * ((s / 2) % p)
  {
    var q, r := (s / 2) / p, (s / 2) % p;
    assert s / 2 == q * p + r;
    assert s == 2 * (s / 2) + s % 2;
    var rest := s % 2 + 2 * r;
    assert 2 * (q * p) == q * (2 * p);
    assert s == q * (2 * p) + rest && 0 <= rest < 2 * p;
    ModUnique(s, 2 * p, q, rest);
  }

  // ---- contents ----

  /** `filled` is the last sequence whose slot the publisher has written, `log` every event written
      by sequence, `handled` what each consumer has been given. */
  datatype Ring<E> = Ring(ctl: Ctl, slots: seq<E>, filled: int, log: seq<E>, handled: seq<seq<E>>)

  datatype RingAction<E> = Do(act: Action) | Fill(event: E)

  predicate CanDo<E>(cfg: Config, r: Ring<E>, a: RingAction<E>)
    requires cfg.size > 0
  {
    match a
    case Fill(_) => r.ctl.phase.Granted? && r.filled < r.ctl.claimed
    case Do(act) => Enabled(cfg, r.ctl, act) && (act.Publish? ==> r.filled == r.ctl.claimed)
  }

  /** The slot that `RingBuffer::Get` returns for a sequence. */
  function Index(cfg: Config, s: int): (i: int)
    requires cfg.size > 0
    ensures 0 <= i < cfg.size
  {
    s % cfg.size
  }

  function RingStep<E>(cfg: Config, r: Ring<E>, a: RingAction<E>): Ring<E>
    requires WfConfig(cfg) && |r.ctl.cons| == |cfg.deps| == |r.handled| && |r.slots| == cfg.size
    requires CanDo(cfg, r, a)
  {
    match a
    case Fill(e) =>
      var s := r.filled + 1;
      r.(slots := r.slots[Index(cfg, s) := e], filled := s, log := r.log + [e])
    case Do(act) =>
      var read := if act.Handle? then
                    r.handled[act.j := r.handled[act.j] + [r.slots[Index(cfg, r.ctl.cons[act.j].next)]]]
                  else r.handled;
      r.(ctl := Step(cfg, r.ctl, act), handled := read)
  }

  /** Consumer j has been given the first events, up to its next sequence. */
  ghost predicate HandledOk<E>(r: Ring<E>, j: nat)
    requires j < |r.ctl.cons| && j < |r.handled|
  {
    0 <= r.ctl.cons[j].next <= |r.log| && r.handled[j] == r.log[..r.ctl.cons[j].next]
  }

  ghost predicate RingInv<E>(cfg: Config, r: Ring<E>) {
    && Inv(cfg, r.ctl) && AllGated(cfg)
    && |r.slots| == cfg.size && |r.handled| == |cfg.deps|
    && |r.log| == r.filled + 1
    && r.ctl.cursor <= r.filled <= r.ctl.claimed
    && (!r.ctl.phase.Granted? ==> r.filled == r.ctl.cursor)
    && (forall t {:trigger r.log[t]} :: 0 <= t <= r.filled && r.filled - cfg.size < t ==>
         r.slots[Index(cfg, t)] == r.log[t])
    && (forall j {:trigger HandledOk(r, j)} :: 0 <= j < |cfg.deps| ==> HandledOk(r, j))
  }

  lemma StartRing<E>(cfg: Config, slots: seq<E>)
    requires WfConfig(cfg) && AllGated(cfg) && |slots| == cfg.size
    ensures RingInv(cfg, Ring(Start(cfg), slots, INITIAL, [], seq(|cfg.deps|, _ => [])))
  {
    StartInv(cfg);
  }

  /** Every step keeps this: each consumer has been given exactly the events published first, in
      order, and the slots of the last `size` sequences hold their events. */
  lemma RingStepInv<E>(cfg: Config, r: Ring<E>, a: RingAction<E>)
    requires RingInv(cfg, r) && CanDo(cfg, r, a)
    ensures RingInv(cfg, RingStep(cfg, r, a))
  {
    match a {
      case Fill(e) => FillInv(cfg, r, e);
      case Do(act) => DoInv(cfg, r, act);
    }
  }

  lemma FillInv<E>(cfg: Config, r: Ring<E>, e: E)
    requires RingInv(cfg, r) && CanDo(cfg, r, Fill(e))
    ensures RingInv(cfg, RingStep(cfg, r, Fill(e)))
  {
    var r' := RingStep(cfg, r, Fill(e));
    forall t | 0 <= t <= r'.filled && r'.filled - cfg.size < t ensures r'.slots[Index(cfg, t)] == r'.log[t] {
      if t < r'.filled {
        ModApart(t, r'.filled, cfg.size);
        assert r'.log[t] == r.log[t];
      }
    }
    forall j | 0 <= j < |cfg.deps| ensures HandledOk(r', j) {
      assert HandledOk(r, j);
    }
  }

  lemma DoInv<E>(cfg: Config, r: Ring<E>, act: Action)
    requires RingInv(cfg, r) && CanDo(cfg, r, Do(act))
    ensures RingInv(cfg, RingStep(cfg, r, Do(act)))
  {
    var r' := RingStep(cfg, r, Do(act));
    StepInv(cfg, r.ctl, act);
    StepGrows(cfg, r.ctl, act);
    if act.Handle? { HandleReads(cfg, r, act.j); }
    forall j | 0 <= j < |cfg.deps| ensures HandledOk(r', j) {
      assert HandledOk(r, j);
    }
  }

  /** What a consumer finds in the slot is the event published under that sequence. */
  lemma HandleReads<E>(cfg: Config, r: Ring<E>, j: nat)
    requires RingInv(cfg, r) && Enabled(cfg, r.ctl, Handle(j))
    ensures var s := r.ctl.cons[j].next;
            0 <= s <= r.ctl.cursor && s < |r.log| && r.slots[Index(cfg, s)] == r.log[s]
            && r.handled[j] + [r.log[s]] == r.log[..s + 1]
  {
    var s := r.ctl.cons[j].next;
    assert ConsumerOk(cfg, r.ctl, j);
    assert HandledOk(r, j);
    GrantedBound(cfg, r.ctl, j);
    assert r.log[s] == r.slots[Index(cfg, s)];
  }

  predicate RingRunOk<E>(cfg: Config, r: Ring<E>, acts: seq<RingAction<E>>)
    requires WfConfig(cfg) && |r.ctl.cons| == |cfg.deps| == |r.handled| && |r.slots| == cfg.size
    decreases |acts|
  {
    acts == [] || (CanDo(cfg, r, acts[0]) && RingRunOk(cfg, RingStep(cfg, r, acts[0]), acts[1..]))
  }

  function RingAfter<E>(cfg: Config, r: Ring<E>, acts: seq<RingAction<E>>): Ring<E>
    requires WfConfig(cfg) && |r.ctl.cons| == |cfg.deps| == |r.handled| && |r.slots| == cfg.size
    requires RingRunOk(cfg, r, acts)
    decreases |acts|
  {
    if acts == [] then r else RingAfter(cfg, RingStep(cfg, r, acts[0]), acts[1..])
  }

  lemma {:induction false} RunKeepsRing<E>(cfg: Config, r: Ring<E>, acts: seq<RingAction<E>>)
    requires RingInv(cfg, r) && RingRunOk(cfg, r, acts)
    ensures RingInv(cfg, RingAfter(cfg, r, acts)) && r.log <= RingAfter(cfg, r, acts).log
    decreases |acts|
  {
    if acts == [] {
    } else {
      RingStepInv(cfg, r, acts[0]);
      RunKeepsRing(cfg, RingStep(cfg, r, acts[0]), acts[1..]);
    }
  }

  /** The events that the publisher writes, in order. */
  function Filled<E>(acts: seq<RingAction<E>>): seq<E> {
    if acts == [] then [] else if acts[0].Fill? then [acts[0].event] + Filled(acts[1..]) else Filled(acts[1..])
  }

  /** The steps on the sequences. */
  function Acts<E>(acts: seq<RingAction<E>>): seq<Action> {
    if acts == [] then [] else if acts[0].Do? then [acts[0].act] + Acts(acts[1..]) else Acts(acts[1..])
  }

  lemma StepFills<E>(cfg: Config, r: Ring<E>, a: RingAction<E>)
    requires RingInv(cfg, r) && CanDo(cfg, r, a)
    ensures var r' := RingStep(cfg, r, a);
            && RingInv(cfg, r')
            && r'.log == r.log + (if a.Fill? then [a.event] else [])
            && r'.ctl == if a.Do? then Step(cfg, r.ctl, a.act) else r.ctl
  {
    RingStepInv(cfg, r, a);
  }

  /** The sequences move as they do without events, and the history is what the publisher has written. */
  lemma {:induction false} RunFills<E>(cfg: Config, r: Ring<E>, acts: seq<RingAction<E>>)
    requires RingInv(cfg, r) && RingRunOk(cfg, r, acts)
    ensures RunOk(cfg, r.ctl, Acts(acts)) && RingAfter(cfg, r, acts).ctl == After(cfg, r.ctl, Acts(acts))
    ensures RingAfter(cfg, r, acts).log == r.log + Filled(acts)
    decreases |acts|
  {
    hide Step;
    hide PublisherOk;
    hide ConsumerOk;
    hide HandledOk;
    hide RingStep;
    hide Enabled;
    hide AllGated;
    if acts == [] {
    } else {
      StepFills(cfg, r, acts[0]);
      var r' := RingStep(cfg, r, acts[0]);
      RunFills(cfg, r', acts[1..]);
      if acts[0].Do? {
        assert Acts(acts)[1..] == Acts(acts[1..]);
      }
    }
  }

  /** In every run from the start, whatever the interleaving, each consumer has been given, of the
      events written, the published ones from the first on, each once and in order, as many as it has
      taken; and what is written is published unless a claim is open. */
  lemma RunDelivers<E>(cfg: Config, slots: seq<E>, acts: seq<RingAction<E>>, j: nat)
    requires WfConfig(cfg) && AllGated(cfg) && |slots| == cfg.size && j < |cfg.deps|
    requires RingRunOk(cfg, Ring(Start(cfg), slots, INITIAL, [], seq(|cfg.deps|, _ => [])), acts)
    ensures var r := RingAfter(cfg, Ring(Start(cfg), slots, INITIAL, [], seq(|cfg.deps|, _ => [])), acts);
            var taken, published := Handles(Acts(acts), j), Claims(Acts(acts)) - Unpublished(0, Acts(acts));
            && taken <= published <= |Filled(acts)| && published == r.ctl.cursor + 1
            && (!r.ctl.phase.Granted? ==> published == |Filled(acts)|)
            && |r.handled| == |cfg.deps| && r.handled[j] == Filled(acts)[..taken]
  {
    StartRing(cfg, slots);
    var r0 := Ring(Start(cfg), slots, INITIAL, [], seq(|cfg.deps|, _ => []));
    RunKeepsRing(cfg, r0, acts);
    RunFills(cfg, r0, acts);
    RunClaims(cfg, Acts(acts), j);
    var r := RingAfter(cfg, r0, acts);
    assert HandledOk(r, j) && ConsumerOk(cfg, r.ctl, j);
  }
}
