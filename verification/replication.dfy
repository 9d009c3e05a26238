/**
 A master, the thread that publishes its log, a link that keeps messages in order, and a slave
 that replays them: every interleaving of client calls, ring steps, sends and receives.
 */
module Replication {
  import opened Arithmetic
  import opened KeyOrder
  import opened Disruptor
  import opened LogFormat
  import opened Replay
  import opened Transactions

  datatype Message = Message(txId: nat, records: seq<Record>)

  /** An ended transaction of the master: what it wrote, and whether it aborted. */
  datatype Txn = Txn(written: seq<Record>, aborted: bool)

  /** `prevSent` and `prevApplied` are the `prevTransactionId` of the publisher and of the slave.
      The slave stops when a replay fails. `sent`, `ended` and `applied` are histories: all messages
      sent, all master transactions ended, and the slave's tables after each message. */
  datatype System = System(
    master: Node, prevSent: nat, link: seq<Message>, slave: Node, prevApplied: nat, stopped: bool, failed: bool,
    sent: seq<Message>, ended: seq<Txn>, applied: seq<Outcome>)

  datatype Event =
    | Begin | Wait | Obtained
    | PutKey(r: Record) | DelKey(r: Record) | End(abort: bool)
    | Poll | SendNext | Reported
    | Receive(pads: seq<byte>)

  function Boot(replicated: bool, size: nat): System {
    System(Fresh(replicated, size), INITIAL_TRANSACTION_ID - 1, [], Fresh(false, size), INITIAL_TRANSACTION_ID - 1,
           false, false, [], [], [])
  }

  predicate Whole(s: System) {
    Sound(s.master) && Sound(s.slave)
  }

  /** What the open transaction has logged. */
  function Log(s: System): seq<Record>
    requires Whole(s)
  {
    if s.master.open && s.master.current >= 0 then s.master.slots[Here(s.master)].records else []
  }

  /** What clients may call, and which thread steps are possible. Clients keep a transaction's log
      within one message and do not store empty values. */
  predicate CanDo(s: System, e: Event)
    requires Whole(s)
  {
    match e
    case Begin => !s.master.open && !s.master.pending
    case Wait => s.master.pending && s.master.ctl.phase.Gating?
    case Obtained => s.master.pending && s.master.ctl.phase.Granted?
    case PutKey(r) => s.master.open && r.kind.Put? && RecordFits(r) && r.value != [] && Room(Log(s), r)
    case DelKey(r) =>
      s.master.open && r.kind.Del? && RecordFits(r) && r.value == [] && (Place(r) in s.master.tables ==>
          Room(Log(s), r))
    case End(_) => s.master.open
    case Poll => s.master.replicated && Enabled(Ring(s.master), s.master.ctl, Read(0))
    case SendNext => s.master.replicated && Enabled(Ring(s.master), s.master.ctl, Handle(0))
    case Reported => s.master.replicated && Enabled(Ring(s.master), s.master.ctl, Report(0))
    case Receive(pads) => s.link != [] && !s.stopped && |pads| == |s.link[0].records|
  }

  function Do(s: System, e: Event): (s': System)
    requires Whole(s) && CanDo(s, e)
    ensures Whole(s')
  {
    match e
    case Begin => s.(master := BeginTx(s.master))
    case Wait => s.(master := Turn(s.master, GateRead))
    case Obtained => s.(master := Obtain(s.master))
    case PutKey(r) => s.(master := Write(s.master, r))
    case DelKey(r) => s.(master := Remove(s.master, r))
    case End(abort) => s.(master := EndTx(s.master, abort), ended := s.ended + [Txn(Log(s), abort)])
    case Poll => s.(master := Turn(s.master, Read(0)))
    case SendNext => OnEvent(s)
    case Reported => s.(master := Turn(s.master, Report(0)))
    case Receive(pads) => Apply(s, pads)
  }

  /** `OnEvent`: the event must be finalized and carry the next id. */
  function OnEvent(s: System): (s': System)
    requires Whole(s) && CanDo(s, SendNext)
    ensures Whole(s')
  {
    var n := s.master;
    var slot := n.slots[n.ctl.cons[0].next % |n.slots|];
    var message := Message(slot.txId, slot.records);
    s.(master := Send(n), prevSent := slot.txId, link := s.link + [message], sent := s.sent + [message],
       failed := s.failed || !slot.finalized || slot.txId == 0 || s.prevSent + 1 != slot.txId)
  }

  /** `redoLog` for the records, up to the first that fails. */
  function RedoOn(n: Node, rs: seq<Record>, pads: seq<byte>): (r: (Node, bool))
    requires Sound(n) && |pads| == |rs|
    ensures Sound(r.0)
  {
    if rs == [] then (n, true) else
      var k := |rs| - 1;
      var before := RedoOn(n, rs[..k], pads[..k]);
      var r := ReplayedRecord(rs[k], pads[k]);
      if !before.1 || (r.kind.Del? && Place(r) !in before.0.tables) then (before.0, false)
      else (Write(before.0, r), true)
  }

  /** Begin, redo, and commit; or abort if a record fails. */
  function Replayed(n: Node, rs: seq<Record>, pads: seq<byte>): (r: (Node, bool))
    requires Sound(n) && |pads| == |rs|
    ensures Sound(r.0)
  {
    var b := BeginTx(n);
    var taken := if b.pending && b.ctl.phase.Granted? then Obtain(b) else b;
    var redone := RedoOn(taken, rs, pads);
    (EndTx(redone.0, !redone.1), redone.1)
  }

  /** `applyReplicationMessage`: the message must carry the next id, and the slave thread asserts that it
      has been replayed. */
  function Apply(s: System, pads: seq<byte>): (s': System)
    requires Whole(s) && CanDo(s, Receive(pads))
    ensures Whole(s')
  {
    var message := s.link[0];
    var r := Replayed(s.slave, message.records, pads);
    s.(slave := r.0, prevApplied := message.txId, link := s.link[1..], stopped := !r.1,
       applied := s.applied + [Outcome(r.0.tables, r.1)],
       failed := s.failed || s.prevApplied + 1 != message.txId || !r.1)
  }

  // ---- the histories ----

  /** The master's tables after some transactions. */
  function MasterTables(ended: seq<Txn>): Tables {
    if ended == [] then map[] else Effects(MasterTables(ended[..|ended| - 1]), ended[|ended| - 1].written)
  }

  function SlaveTables(applied: seq<Outcome>): Tables {
    if applied == [] then map[] else applied[|applied| - 1].tables
  }

  /** What a list of records in a transaction's log satisfies. */
  predicate LogOk(t: Tables, rs: seq<Record>) {
    Logged(t, rs) && PutsStore(rs) && MESSAGE_HEADER + TotalSize(rs) < MESSAGE_SIZE
  }

  /** Transaction i: its log was good, and its message carries it unless it aborted. */
  predicate TxnOk(s: System, i: nat)
    requires i < |s.ended| == |s.master.done|
  {
    && LogOk(MasterTables(s.ended[..i]), s.ended[i].written)
    && s.master.done[i] == (if s.ended[i].aborted then [] else s.ended[i].written)
  }

  ghost predicate MasterOk(s: System) {
    && Whole(s) && NodeInv(s.master)
    && |s.ended| == |s.master.done|
    && (forall i {:trigger TxnOk(s, i)} :: 0 <= i < |s.ended| ==> TxnOk(s, i))
    && LogOk(MasterTables(s.ended), Log(s))
    && s.master.tables == Effects(MasterTables(s.ended), Log(s))
  }

  ghost predicate LinkOk(s: System)
    requires Sound(s.master)
  {
    && |s.sent| == s.master.ctl.cons[0].next <= |s.master.done|
    && (forall i {:trigger s.sent[i]} :: 0 <= i < |s.sent| ==> s.sent[i] == Message(i + 1, s.master.done[i]))
    && s.prevSent == |s.sent|
    && |s.applied| <= |s.sent| && s.link == s.sent[|s.applied|..]
  }

  /** Message i was replayed on what the messages before it left. */
  ghost predicate ReplayOk(s: System, i: nat)
    requires i < |s.applied| <= |s.master.done|
  {
    && (i > 0 ==> s.applied[i - 1].ok)
    && exists pads: seq<byte> :: |pads| == |s.master.done[i]|
         && s.applied[i] == Redo(SlaveTables(s.applied[..i]), s.master.done[i], pads)
  }

  ghost predicate SlaveOk(s: System) {
    && NodeInv(s.slave) && !s.slave.replicated && !s.slave.open && !s.slave.pending
    && s.prevApplied == |s.applied| == |s.slave.done|
    && |s.applied| <= |s.master.done|
    && s.slave.tables == SlaveTables(s.applied)
    && (s.stopped <==> s.applied != [] && !s.applied[|s.applied| - 1].ok)
    && forall i {:trigger ReplayOk(s, i)} :: 0 <= i < |s.applied| ==> ReplayOk(s, i)
  }

  ghost predicate SystemInv(s: System) {
    Whole(s) && (s.failed <==> s.stopped) && MasterOk(s) && LinkOk(s) && SlaveOk(s)
  }

  lemma BootInv(replicated: bool, size: nat)
    requires size > 0
    ensures SystemInv(Boot(replicated, size))
  {
    FreshInv(replicated, size);
    FreshInv(false, size);
  }

  /** Histories only grow. */
  ghost predicate Grows(s: System, s': System) {
    s.ended <= s'.ended && s.master.done <= s'.master.done && s.applied <= s'.applied
  }

  lemma TxnKept(s: System, s': System, i: nat)
    requires i < |s.ended| == |s.master.done| && |s'.ended| == |s'.master.done|
    requires Grows(s, s') && TxnOk(s, i)
    ensures TxnOk(s', i)
  {
    assert s'.ended[..i] == s.ended[..i];
  }

  lemma ReplayKept(s: System, s': System, i: nat)
    requires i < |s.applied| <= |s.master.done| && |s'.applied| <= |s'.master.done|
    requires Grows(s, s') && ReplayOk(s, i)
    ensures ReplayOk(s', i)
  {
    assert s'.applied[..i] == s.applied[..i];
  }

  /** The slave is not concerned. */
  lemma SlaveKept(s: System, s': System)
    requires SlaveOk(s) && s'.slave == s.slave && s'.prevApplied == s.prevApplied && s'.stopped == s.stopped
    requires s'.applied == s.applied && s.master.done <= s'.master.done && s.ended <= s'.ended
    ensures SlaveOk(s')
  {
    forall i | 0 <= i < |s.applied| ensures ReplayOk(s', i) { ReplayKept(s, s', i); }
  }

  lemma EmptyLog(t: Tables)
    ensures Effects(t, []) == t && LogOk(t, []) && TotalSize([]) == 0
  {
  }

  // ---- the master's calls ----

  /** A call that ends no transaction keeps the histories. */
  lemma MasterSteps(s: System, n: Node)
    requires SystemInv(s) && NodeInv(n) && n.done == s.master.done && n.ctl.cons[0].next == s.master.ctl.cons[0].next
    requires var s' := s.(master := n);
             LogOk(MasterTables(s.ended), Log(s')) && n.tables == Effects(MasterTables(s.ended), Log(s'))
    ensures SystemInv(s.(master := n))
  {
    hide SlaveOk;
    var s' := s.(master := n);
    forall i | 0 <= i < |s.ended| ensures TxnOk(s', i) { TxnKept(s, s', i); }
    SlaveKept(s, s');
  }

  lemma BeginSystem(s: System)
    requires SystemInv(s) && CanDo(s, Begin)
    ensures SystemInv(Do(s, Begin))
  {
    hide Inv;
    hide Slots;
    hide SlaveOk;
    hide LinkOk;
    hide Effects;
    hide Logged;
    BeginInv(s.master);
    MasterSteps(s, BeginTx(s.master));
  }

  lemma ObtainSystem(s: System)
    requires SystemInv(s) && CanDo(s, Obtained)
    ensures SystemInv(Do(s, Obtained))
  {
    hide Inv;
    hide Slots;
    hide SlaveOk;
    hide LinkOk;
    hide Effects;
    hide Logged;
    ObtainInv(s.master);
    MasterSteps(s, Obtain(s.master));
  }

  lemma TurnSystem(s: System, a: Action)
    requires SystemInv(s) && s.master.replicated && Enabled(Ring(s.master), s.master.ctl, a)
    requires a == GateRead || a == Read(0) || a == Report(0)
    ensures SystemInv(s.(master := Turn(s.master, a)))
  {
    hide Inv;
    hide Slots;
    hide SlaveOk;
    hide LinkOk;
    hide Effects;
    hide Logged;
    TurnInv(s.master, a);
    MasterSteps(s, Turn(s.master, a));
  }

  lemma WriteSystem(s: System, r: Record)
    requires SystemInv(s) && s.master.open && Room(Log(s), r)
    requires r.kind.Put? ==> r.value != []
    requires r.kind.Del? ==> Place(r) in s.master.tables
    ensures SystemInv(s.(master := Write(s.master, r)))
  {
    hide Inv;
    hide Slots;
    hide SlaveOk;
    hide LinkOk;
    hide TotalSize;
    hide Effects;
    hide Effect;
    hide SizeOf;
    hide Logged;
    OpenSeated(s.master);
    WriteInv(s.master, r);
    AppendEffects(MasterTables(s.ended), Log(s), r);
    TotalAppend(Log(s), r);
    MasterSteps(s, Write(s.master, r));
  }

  lemma EndSystem(s: System, abort: bool)
    requires SystemInv(s) && CanDo(s, End(abort))
    ensures SystemInv(Do(s, End(abort)))
  {
    hide Slots;
    hide Inv;
    hide TotalSize;
    hide Logged;
    hide Effects;
    hide SlaveOk;
    var s' := Do(s, End(abort));
    OpenSeated(s.master);
    EndInv(s.master, abort);
    assert s'.ended[..|s.ended|] == s.ended;
    EmptyLog(MasterTables(s'.ended));
    forall i | 0 <= i < |s'.ended| ensures TxnOk(s', i) {
      if i < |s.ended| { TxnKept(s, s', i); }
    }
    SlaveKept(s, s');
  }

  // ---- sending ----

  lemma SendSystem(s: System)
    requires SystemInv(s) && CanDo(s, SendNext)
    ensures SystemInv(Do(s, SendNext))
  {
    hide TotalSize;
    hide Effects;
    hide Logged;
    hide Slots;
    hide Inv;
    hide SlaveOk;
    var s' := Do(s, SendNext);
    SendInv(s.master);
    SendKeepsLog(s.master);
    assert Log(s') == Log(s);
    forall i | 0 <= i < |s.ended| ensures TxnOk(s', i) { TxnKept(s, s', i); }
    SlaveKept(s, s');
  }

  lemma SendKeepsLog(n: Node)
    requires NodeInv(n) && n.replicated && Enabled(Ring(n), n.ctl, Handle(0))
    ensures n.open ==> n.current >= 0 && Send(n).slots[Here(n)] == n.slots[Here(n)]
  {
    if n.open {
      OpenSeated(n);
      InWindow(n);
      assert ConsumerOk(Ring(n), n.ctl, 0);
      ModApart(n.ctl.cons[0].next, n.current, |n.slots|);
    }
  }

  // ---- the slave ----

  lemma ReplayedSmaller(r: Record, pad: byte)
    requires r.kind.Put? ==> r.value != []
    ensures var r' := ReplayedRecord(r, pad);
            SizeOf(r') <= SizeOf(r) && r'.kind == r.kind && Place(r') == Place(r)
  {
  }

  /** What the slave logs of a replayed transaction. */
  function ReplayedRecords(rs: seq<Record>, pads: seq<byte>): seq<Record>
    requires |pads| == |rs|
  {
    if rs == [] then [] else
      var k := |rs| - 1;
      ReplayedRecords(rs[..k], pads[..k]) + [ReplayedRecord(rs[k], pads[k])]
  }

  /** On a node, replay does to the tables what `Redo` says, and the log has room for it. */
  lemma {:induction false} RedoOnInv(n: Node, rs: seq<Record>, pads: seq<byte>)
    requires NodeInv(n) && n.open && Seated(n) && n.slots[Here(n)].records == []
    requires |pads| == |rs| && PutsStore(rs) && MESSAGE_HEADER + TotalSize(rs) < MESSAGE_SIZE
    ensures var m := RedoOn(n, rs, pads).0;
            && NodeInv(m) && Seated(m) && m.done == n.done && m.replicated == n.replicated && !m.pending
            && TotalSize(m.slots[Here(m)].records) <= TotalSize(rs)
            && Redo(n.tables, rs, pads) == Outcome(m.tables, RedoOn(n, rs, pads).1)
            && (RedoOn(n, rs, pads).1 ==> m.slots[Here(m)].records == ReplayedRecords(rs, pads))
  {
    hide Slots;
    hide Inv;
    hide TotalSize;
    hide SizeOf;
    hide ReplayedRecord;
    hide Effect;
    if rs == [] {
      EmptyLog(n.tables);
    } else {
      var k := |rs| - 1;
      assert rs[..k] + [rs[k]] == rs;
      TotalAppend(rs[..k], rs[k]);
      RedoOnInv(n, rs[..k], pads[..k]);
      var before := RedoOn(n, rs[..k], pads[..k]);
      var r := ReplayedRecord(rs[k], pads[k]);
      ReplayedSmaller(rs[k], pads[k]);
      if before.1 && (r.kind.Del? ==> Place(r) in before.0.tables) {
        WriteInv(before.0, r);
        TotalAppend(before.0.slots[Here(before.0)].records, r);
      }
    }
  }

  lemma ReplayedInv(n: Node, rs: seq<Record>, pads: seq<byte>)
    requires NodeInv(n) && !n.replicated && !n.open && !n.pending
    requires |pads| == |rs| && PutsStore(rs) && MESSAGE_HEADER + TotalSize(rs) < MESSAGE_SIZE
    ensures var m := Replayed(n, rs, pads).0;
            && NodeInv(m) && !m.replicated && !m.open && !m.pending
            && Redo(n.tables, rs, pads) == Outcome(m.tables, Replayed(n, rs, pads).1)
            && m.done == n.done + [if Replayed(n, rs, pads).1 then ReplayedRecords(rs, pads) else []]
  {
    var b := BeginTx(n);
    BeginInv(n);
    if b.pending { ObtainInv(b); }
    var taken := if b.pending && b.ctl.phase.Granted? then Obtain(b) else b;
    OpenSeated(taken);
    RedoOnInv(taken, rs, pads);
    var redone := RedoOn(taken, rs, pads);
    EndInv(redone.0, !redone.1);
  }

  lemma ApplySystem(s: System, pads: seq<byte>)
    requires SystemInv(s) && CanDo(s, Receive(pads))
    ensures SystemInv(Do(s, Receive(pads)))
  {
    hide Slots;
    hide Inv;
    hide TotalSize;
    hide Logged;
    hide Effects;
    hide Redo;
    hide MasterTables;
    hide Phases;
    var s', k := Do(s, Receive(pads)), |s.applied|;
    assert s.link[0] == s.sent[k] && TxnOk(s, k);
    EmptyLog(MasterTables(s.ended[..k]));
    ReplayedInv(s.slave, s.master.done[k], pads);
    forall i | 0 <= i < |s.ended| ensures TxnOk(s', i) { assert TxnOk(s, i); }
    assert s'.applied[..k] == s.applied;
    forall i | 0 <= i < |s'.applied| ensures ReplayOk(s', i) {
      if i < k { ReplayKept(s, s', i); }
    }
  }

  // ---- runs ----

  /** Every step keeps the invariant. In particular no assertion fails but, if a replay has failed, the
      slave's that it has not: slots are clear at begin, the ids the publisher and the slave see are
      consecutive, messages have room. */
  lemma DoInv(s: System, e: Event)
    requires SystemInv(s) && CanDo(s, e)
    ensures SystemInv(Do(s, e))
  {
    hide SystemInv;
    match e {
      case Begin => BeginSystem(s);
      case Wait => WaitingIsReplicated(s); TurnSystem(s, GateRead);
      case Obtained => ObtainSystem(s);
      case PutKey(r) => WriteSystem(s, r);
      case DelKey(r) => if Place(r) in s.master.tables { WriteSystem(s, r); }
      case End(abort) => EndSystem(s, abort);
      case Poll => TurnSystem(s, Read(0));
      case SendNext => SendSystem(s);
      case Reported => TurnSystem(s, Report(0));
      case Receive(pads) => ApplySystem(s, pads);
    }
  }

  /** Without a replicator the publisher never waits. */
  lemma WaitingIsReplicated(s: System)
    requires SystemInv(s) && s.master.ctl.phase.Gating?
    ensures s.master.replicated
  {
  }

  predicate RunOk(s: System, es: seq<Event>)
    requires Whole(s)
    decreases |es|
  {
    es == [] || (CanDo(s, es[0]) && RunOk(Do(s, es[0]), es[1..]))
  }

  function After(s: System, es: seq<Event>): (s': System)
    requires Whole(s) && RunOk(s, es)
    ensures Whole(s')
    decreases |es|
  {
    if es == [] then s else After(Do(s, es[0]), es[1..])
  }

  lemma {:induction false} RunInv(s: System, es: seq<Event>)
    requires SystemInv(s) && RunOk(s, es)
    ensures SystemInv(After(s, es))
    decreases |es|
  {
    if es == [] {
    } else {
      DoInv(s, es[0]);
      RunInv(Do(s, es[0]), es[1..]);
    }
  }
}
