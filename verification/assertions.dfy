/** The assertions of the program, step by step: what `failed` records, and that they hold in every run. */
module Assertions {
  import opened KeyOrder
  import Disruptor
  import opened LogFormat
  import opened Replay
  import opened Transactions
  import opened Replication

  /** The assertions a call on the master comes to. */
  predicate CallAsserts(n: Node, e: Event)
    requires Sound(n)
  {
    match e
    case Begin => !n.open && !n.pending && (if n.current >= 0 then n.slots[Here(n)] == CLEAR else n.ctl.phase.Idle?)
    case Obtained => n.ctl.claimed >= 0 && n.slots[n.ctl.claimed % |n.slots|] == CLEAR
    case PutKey(r) => WriteAsserts(n, r)
    case DelKey(r) => (r.table, r.key) in n.tables ==> WriteAsserts(n, r)
    case End(_) => n.open && n.current >= 0 && n.ctl.phase.Granted? && n.slots[Here(n)].txId > 0
    case _ => true
  }

  predicate WriteAsserts(n: Node, r: Record)
    requires Sound(n)
  {
    && n.open && n.current >= 0 && n.ctl.phase.Granted?
    && !n.slots[Here(n)].finalized
    && MESSAGE_HEADER + TotalSize(n.slots[Here(n)].records) + SizeOf(r) < MESSAGE_SIZE
  }

  /** Those of the publisher thread and of the slave thread. */
  predicate ThreadAsserts(s: System, e: Event)
    requires Whole(s) && CanDo(s, e)
  {
    match e
    case SendNext =>
      var slot := s.master.slots[s.master.ctl.cons[0].next % |s.master.slots|];
      slot.finalized && slot.txId > 0 && slot.txId == s.prevSent + 1
    case Receive(pads) =>
      s.link[0].txId == s.prevApplied + 1 && Replication.Replayed(s.slave, s.link[0].records, pads).1
    case _ => true
  }

  lemma WriteFlag(n: Node, r: Record)
    requires Sound(n)
    ensures Write(n, r).failed <==> n.failed || !WriteAsserts(n, r)
  {
    hide Effect;
    hide TotalSize;
    hide SizeOf;
  }

  lemma BeginFlag(n: Node)
    requires Sound(n)
    ensures BeginTx(n).failed <==> n.failed || !CallAsserts(n, Begin)
  {
    hide Disruptor.Step;
  }

  lemma EndFlag(n: Node, abort: bool)
    requires Sound(n)
    ensures EndTx(n, abort).failed <==> n.failed || !CallAsserts(n, End(abort))
  {
    hide Disruptor.Step;
  }

  /** In any state at all, `failed` records just the assertions that do not hold. */
  lemma CallFlags(s: System, e: Event)
    requires Whole(s) && CanDo(s, e)
    ensures Do(s, e).master.failed <==> s.master.failed || !CallAsserts(s.master, e)
  {
    hide WriteAsserts;
    hide Disruptor.Step;
    hide OnEvent;
    hide Apply;
    match e {
      case Begin => BeginFlag(s.master);
      case PutKey(r) => WriteFlag(s.master, r); hide Write;
      case DelKey(r) => WriteFlag(s.master, r); hide Write;
      case End(abort) => EndFlag(s.master, abort); hide EndTx;
      case SendNext => SameMaster(s, e);
      case Receive(_) => SameMaster(s, e);
      case _ =>
    }
  }

  lemma SameMaster(s: System, e: Event)
    requires Whole(s) && CanDo(s, e) && (e.SendNext? || e.Receive?)
    ensures Do(s, e).master.failed == s.master.failed
  {
    hide Replication.Replayed;
    hide Log;
  }

  lemma ThreadFlags(s: System, e: Event)
    requires Whole(s) && CanDo(s, e)
    ensures Do(s, e).failed <==> s.failed || !ThreadAsserts(s, e)
  {
    hide Replication.Replayed;
    hide Write;
    hide EndTx;
    hide BeginTx;
    hide Obtain;
    hide Turn;
    hide Send;
    hide Log;
  }

  lemma SendAsserts(s: System)
    requires SystemInv(s) && CanDo(s, SendNext)
    ensures ThreadAsserts(s, SendNext)
  {
    SendInv(s.master);
  }

  lemma ReceiveAsserts(s: System, pads: seq<byte>)
    requires SystemInv(s) && CanDo(s, Receive(pads))
    ensures ThreadAsserts(s, Receive(pads)) <==> Replication.Replayed(s.slave, s.link[0].records, pads).1
  {
    assert s.link[0] == s.sent[|s.applied|];
  }

  /** In every run all of them hold, but for the slave's that a replay has succeeded. */
  lemma AssertionsHold(replicated: bool, size: nat, es: seq<Event>, e: Event)
    requires size > 0 && RunOk(Boot(replicated, size), es) && CanDo(After(Boot(replicated, size), es), e)
    ensures var s := After(Boot(replicated, size), es);
            && CallAsserts(s.master, e)
            && (ThreadAsserts(s, e) ||
                (e.Receive? && !Replication.Replayed(s.slave, s.link[0].records, e.pads).1))
  {
    BootInv(replicated, size);
    RunInv(Boot(replicated, size), es);
    var s := After(Boot(replicated, size), es);
    DoInv(s, e);
    CallFlags(s, e);
    hide RunOk;
    hide After;
    hide CallAsserts;
    NotFailed(Do(s, e));
    hide SystemInv;
    hide Do;
    match e {
      case SendNext => SendAsserts(s);
      case Receive(pads) => ReceiveAsserts(s, pads);
      case _ =>
    }
  }

  lemma NotFailed(s: System)
    requires SystemInv(s)
    ensures !s.master.failed
  {
  }
}
