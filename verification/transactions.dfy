/**
 One node's transactions over the disruptor ring: `nldb_tx_impl_t` and `TxTransactionsLogs`.
 With a replicator the ring's slots travel to the publisher thread and back; without one the
 first slot claimed is used for every transaction.

 An assertion of the program that does not hold is modelled by `failed`.
 */
module Transactions {
  import opened Arithmetic
  import opened Disruptor
  import opened LogFormat
  import opened Replay

  const INITIAL_TRANSACTION_ID: nat := 1

  /** `current` is `currentSequence`. `pending`: inside `Next()`, waiting for a free slot. `open`: a
      transaction has begun and not ended. `done` is history: the records of each ended transaction. */
  datatype Node = Node(
    replicated: bool, ctl: Ctl, slots: seq<Slot>, current: int, pending: bool, open: bool,
    nextId: nat, tables: Tables, failed: bool, done: seq<seq<Record>>)

  /** One replicator: it waits for the cursor, and gates the publisher. */
  function Ring(n: Node): Config {
    Config(|n.slots|, [[]], [0])
  }

  predicate Sound(n: Node) {
    |n.slots| > 0 && |n.ctl.cons| == 1
  }

  function Fresh(replicated: bool, size: nat): Node {
    Node(replicated, Start(Config(size, [[]], [0])), seq(size, _ => CLEAR), -1, false, false,
         INITIAL_TRANSACTION_ID, map[], false, [])
  }

  function Here(n: Node): (i: nat)
    requires Sound(n) && n.current >= 0
    ensures i < |n.slots|
  {
    n.current % |n.slots|
  }

  /** The end of `begin`: the slot must be clear and without a transaction id. */
  function TakeSlot(n: Node): (r: Node)
    requires Sound(n) && n.current >= 0
    ensures Sound(r)
  {
    var slot := n.slots[Here(n)];
    n.(failed := n.failed || slot.records != [] || slot.finalized || slot.txId != 0,
       slots := n.slots[Here(n) := slot.(txId := n.nextId)],
       nextId := n.nextId + 1,
       open := true)
  }

  /** The start of `begin`: the current slot again if there is one, else `Next()`. */
  function BeginTx(n: Node): (r: Node)
    requires Sound(n)
    ensures Sound(r)
  {
    if n.open || n.pending then n.(failed := true)
    else if n.current >= 0 then TakeSlot(n)
    else if !n.ctl.phase.Idle? then n.(failed := true)
    else n.(ctl := Step(Ring(n), n.ctl, Claim(1)), pending := true)
  }

  /** `Next()` returns. */
  function Obtain(n: Node): (r: Node)
    requires Sound(n) && n.pending && n.ctl.phase.Granted?
    ensures Sound(r)
  {
    if n.ctl.claimed < 0 then n.(failed := true)
    else TakeSlot(n.(current := n.ctl.claimed, pending := false))
  }

  /** A step of the ring that is not the publisher's own. */
  function Turn(n: Node, a: Action): (r: Node)
    requires Sound(n) && Enabled(Ring(n), n.ctl, a)
    ensures Sound(r)
  {
    n.(ctl := Step(Ring(n), n.ctl, a))
  }

  predicate Room(rs: seq<Record>, r: Record) {
    MESSAGE_HEADER + TotalSize(rs) + SizeOf(r) < MESSAGE_SIZE
  }

  /** A transaction is open on a granted slot. */
  predicate Seated(n: Node) {
    n.open && n.current >= 0 && n.ctl.phase.Granted?
  }

  /** `nldb_table_put` and a successful `nldb_table_del`: the table first, then the log. */
  function Write(n: Node, r: Record): (n': Node)
    requires Sound(n)
    ensures Sound(n')
  {
    if !Seated(n) then n.(failed := true) else
    var slot := n.slots[Here(n)];
    n.(tables := Effect(n.tables, r),
       failed := n.failed || slot.finalized || !Room(slot.records, r),
       slots := n.slots[Here(n) := slot.(records := slot.records + [r])])
  }

  /** `nldb_table_del`: an absent key is an error, and is not logged. */
  function Remove(n: Node, r: Record): (n': Node)
    requires Sound(n)
    ensures Sound(n')
  {
    if Place(r) in n.tables then Write(n, r) else n
  }

  /** `end`, after `clearLog` if the transaction aborts. Tables keep what an aborted one has written. */
  function EndTx(n: Node, abort: bool): (r: Node)
    requires Sound(n)
    ensures Sound(r)
  {
    if !Seated(n) then n.(failed := true) else
    var slot := n.slots[Here(n)];
    var log := if abort then [] else slot.records;
    var ended := n.(failed := n.failed || slot.txId == 0, open := false, done := n.done + [log]);
    if n.replicated then
      ended.(slots := n.slots[Here(n) := Slot(log, true, slot.txId)],
             ctl := Step(Ring(n), n.ctl, Publish), current := -1)
    else
      ended.(slots := n.slots[Here(n) := CLEAR])
  }

  /** `OnEvent`, as far as it touches the ring: the slot is sent and reset. */
  function Send(n: Node): (r: Node)
    requires Sound(n) && Enabled(Ring(n), n.ctl, Handle(0))
    ensures Sound(r)
  {
    n.(slots := n.slots[n.ctl.cons[0].next % |n.slots| := CLEAR],
       ctl := Step(Ring(n), n.ctl, Handle(0)))
  }

  // ---- the invariant ----

  /** The slot of a sequence not yet handled: a finalized transaction, the open one, or clear. */
  predicate SlotOk(n: Node, w: int)
    requires Sound(n)
  {
    var slot := n.slots[w % |n.slots|];
    if w <= n.ctl.cursor then 0 <= w < |n.done| && slot == Slot(n.done[w], true, w + 1)
    else if n.open && w == n.current then
      !slot.finalized && slot.txId == |n.done| + 1 && MESSAGE_HEADER + TotalSize(slot.records) < MESSAGE_SIZE
    else slot == CLEAR
  }

  /** Each slot is described by the one sequence it stands for in the window the consumer has ahead. */
  ghost predicate Slots(n: Node) {
    && Sound(n)
    && forall w {:trigger SlotOk(n, w)} :: n.ctl.cons[0].next <= w < n.ctl.cons[0].next + |n.slots| ==> SlotOk(n, w)
  }

  predicate Phases(n: Node)
    requires Sound(n)
  {
    && n.nextId == |n.done| + (if n.open then 2 else 1)
    && !(n.open && n.pending)
    && (n.open ==> n.current == n.ctl.claimed)
    && (n.pending ==> n.current == -1)
    && if n.replicated then
         && |n.done| == n.ctl.cursor + 1
         && (n.open ==> n.ctl.phase == Granted)
         && (n.pending ==> n.ctl.phase == Granted || n.ctl.phase.Gating?)
         && (!n.open && !n.pending ==> n.ctl.phase == Idle)
         && (!n.open ==> n.current == -1)
         && n.ctl.claimed == n.ctl.cursor + (if n.ctl.phase == Idle then 0 else 1)
       else
         && n.ctl.cursor == -1 && n.ctl.cons[0].next == 0
         && (if n.current < 0 && !n.pending then n.current == -1 && !n.open && n.ctl.phase == Idle
            && n.ctl.claimed == n.ctl.cached == -1
             else n.ctl.phase == Granted && n.ctl.claimed == 0 && (n.pending || n.current == 0))
  }

  ghost predicate NodeInv(n: Node) {
    && Sound(n) && Inv(Ring(n), n.ctl) && !n.failed
    && Phases(n) && Slots(n)
  }

  lemma FreshInv(replicated: bool, size: nat)
    requires size > 0
    ensures NodeInv(Fresh(replicated, size))
  {
    var n := Fresh(replicated, size);
    StartInv(Ring(n));
    forall w | 0 <= w < size ensures SlotOk(n, w) {}
  }

  lemma RingGated(n: Node)
    requires Sound(n)
    ensures WfConfig(Ring(n)) && AllGated(Ring(n))
  {
    ChainGated(Ring(n));
  }

  /** What the ring guarantees the transactions: whatever is published or granted lies in the window. */
  lemma InWindow(n: Node)
    requires NodeInv(n)
    ensures var next := n.ctl.cons[0].next;
            && 0 <= next && n.ctl.cursor < next + |n.slots|
            && (n.ctl.phase.Granted? ==> next <= n.ctl.claimed < next + |n.slots|)
  {
    RingGated(n);
    GrantedBound(Ring(n), n.ctl, 0);
    assert ConsumerOk(Ring(n), n.ctl, 0);
  }

  /** Writing the slot of one sequence in the window leaves the others. */
  lemma OtherSlots(n: Node, n': Node, s: int)
    requires NodeInv(n) && Sound(n') && |n'.slots| == |n.slots|
    requires n.ctl.cons[0].next <= s < n.ctl.cons[0].next + |n.slots|
    requires n'.slots == n.slots[s % |n.slots| := n'.slots[s % |n.slots|]]
    requires n'.ctl.cons[0].next == n.ctl.cons[0].next
    requires n.done <= n'.done
    requires n'.ctl.cursor == n.ctl.cursor || n'.ctl.cursor == n.ctl.cursor + 1 == s
    requires (n.open ==> n.current == s) && (n'.open ==> n'.current == s)
    requires SlotOk(n', s)
    ensures Slots(n')
  {
    forall w | n.ctl.cons[0].next <= w < n.ctl.cons[0].next + |n.slots| ensures SlotOk(n', w) {
      assert SlotOk(n, w);
      assert w <= n.ctl.cursor ==> n.done[w] == n'.done[w];
      if w < s { ModApart(w, s, |n.slots|); }
      if s < w { ModApart(s, w, |n.slots|); }
    }
  }

  /** At every begin the slot has no records, is not finalized and has no transaction id. */
  lemma SlotIsClear(n: Node)
    requires NodeInv(n) && !n.open
    ensures n.pending && n.ctl.phase.Granted? ==> n.ctl.claimed >= 0 && n.slots[n.ctl.claimed % |n.slots|] == CLEAR
    ensures n.current >= 0 ==> n.slots[Here(n)] == CLEAR
  {
    InWindow(n);
    if n.ctl.phase.Granted? { assert SlotOk(n, n.ctl.claimed); }
  }

  lemma BeginInv(n: Node)
    requires NodeInv(n) && !n.open && !n.pending
    ensures NodeInv(BeginTx(n)) && (n.current >= 0 ==> BeginTx(n).slots[Here(n)].records == [])
  {
    var n' := BeginTx(n);
    SlotIsClear(n);
    InWindow(n);
    if n.current >= 0 {
      OtherSlots(n, n', n.current);
    } else {
      RingGated(n);
      StepInv(Ring(n), n.ctl, Claim(1));
      SameSlots(n, n');
    }
  }

  lemma SameSlots(n: Node, n': Node)
    requires NodeInv(n) && Sound(n') && n'.slots == n.slots && n'.done == n.done
    requires n'.ctl.cons[0].next == n.ctl.cons[0].next && n'.ctl.cursor == n.ctl.cursor
    requires n'.open == n.open && n'.current == n.current
    ensures Slots(n')
  {
    forall w | n.ctl.cons[0].next <= w < n.ctl.cons[0].next + |n.slots| ensures SlotOk(n', w) {
      assert SlotOk(n, w);
    }
  }

  lemma ObtainInv(n: Node)
    requires NodeInv(n) && n.pending && n.ctl.phase.Granted?
    ensures var n' := Obtain(n); NodeInv(n') && n'.open && n'.slots[Here(n')].records == []
  {
    SlotIsClear(n);
    InWindow(n);
    OtherSlots(n, Obtain(n), n.ctl.claimed);
  }

  /** Steps of the replicator's thread, and of the publisher's wait for a slot. */
  lemma TurnInv(n: Node, a: Action)
    requires NodeInv(n) && n.replicated && Enabled(Ring(n), n.ctl, a)
    requires a == GateRead || a == Read(0) || a == Report(0)
    ensures NodeInv(Turn(n, a))
  {
    StepInv(Ring(n), n.ctl, a);
    SameSlots(n, Turn(n, a));
  }

  lemma OpenSeated(n: Node)
    requires NodeInv(n) && n.open
    ensures Seated(n)
  {
    assert ConsumerOk(Ring(n), n.ctl, 0);
  }

  lemma WriteInv(n: Node, r: Record)
    requires NodeInv(n) && Seated(n) && Room(n.slots[Here(n)].records, r)
    ensures var n' := Write(n, r);
            && NodeInv(n') && n'.open && n'.tables == Effect(n.tables, r)
            && n'.slots[Here(n')].records == n.slots[Here(n)].records + [r]
  {
    InWindow(n);
    assert SlotOk(n, n.current);
    TotalAppend(n.slots[Here(n)].records, r);
    OtherSlots(n, Write(n, r), n.current);
  }

  lemma EndInv(n: Node, abort: bool)
    requires NodeInv(n) && Seated(n)
    ensures var n' := EndTx(n, abort);
            NodeInv(n') && !n'.open && n'.done == n.done + [if abort then [] else n.slots[Here(n)].records]
  {
    InWindow(n);
    assert SlotOk(n, n.current);
    RingGated(n);
    if n.replicated { StepInv(Ring(n), n.ctl, Publish); }
    OtherSlots(n, EndTx(n, abort), n.current);
  }

  /** The publisher thread finds the next finalized transaction, and leaves its slot clear. */
  lemma SendInv(n: Node)
    requires NodeInv(n) && n.replicated && Enabled(Ring(n), n.ctl, Handle(0))
    ensures var s := n.ctl.cons[0].next;
            && 0 <= s < |n.done| && n.slots[s % |n.slots|] == Slot(n.done[s], true, s + 1)
            && NodeInv(Send(n))
  {
    assert ConsumerOk(Ring(n), n.ctl, 0);
    var s, n' := n.ctl.cons[0].next, Send(n);
    StepInv(Ring(n), n.ctl, Handle(0));
    InWindow(n);
    assert SlotOk(n, s);
    forall w | s + 1 <= w < s + 1 + |n.slots| ensures SlotOk(n', w) {
      if w < s + |n.slots| {
        assert SlotOk(n, w);
        ModApart(s, w, |n.slots|);
      } else {
        ModWraps(s, |n.slots|);
      }
    }
  }
}
