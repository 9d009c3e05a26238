/**
 What the clients' calls amount to, told from the calls alone: the last call about a key decides
 whether it is stored, a put is always logged, a delete if its key is stored by then, and the end of
 a transaction closes its log.
 */
module Clients {
  import opened KeyOrder
  import Disruptor
  import opened LogFormat
  import opened Replay
  import opened Transactions
  import opened Replication
  import opened Agreement

  // ---- from the calls ----

  /** A put or a delete of this key. */
  predicate Call(e: Event, x: (nat, seq<byte>)) {
    (e.PutKey? || e.DelKey?) && Concerns(e.r, x)
  }

  /** The last call about a key, or -1. */
  function LastCall(es: seq<Event>, x: (nat, seq<byte>)): (k: int)
    ensures -1 <= k < |es| && (k >= 0 ==> Call(es[k], x))
    ensures forall j :: k < j < |es| ==> !Call(es[j], x)
  {
    if es == [] then -1
    else if Call(es[|es| - 1], x) then |es| - 1
    else LastCall(es[..|es| - 1], x)
  }

  /** The last call about the key is a put. */
  predicate There(es: seq<Event>, x: (nat, seq<byte>)) {
    LastCall(es, x) >= 0 && es[LastCall(es, x)].PutKey?
  }

  /** The records of the open transaction. */
  function Writes(es: seq<Event>): seq<Record> {
    if es == [] then [] else
      var n := |es| - 1;
      match es[n]
      case PutKey(r) => Writes(es[..n]) + [r]
      case DelKey(r) => if There(es[..n], (r.table, r.key)) then Writes(es[..n]) + [r] else Writes(es[..n])
      case End(_) => []
      case _ => Writes(es[..n])
  }

  /** The transactions that have ended. */
  function Endings(es: seq<Event>): seq<Txn> {
    if es == [] then [] else
      var n := |es| - 1;
      if es[n].End? then Endings(es[..n]) + [Txn(Writes(es[..n]), es[n].abort)] else Endings(es[..n])
  }

  function Sends(es: seq<Event>): nat {
    if es == [] then 0 else Sends(es[..|es| - 1]) + (if es[|es| - 1].SendNext? then 1 else 0)
  }

  function Receives(es: seq<Event>): nat {
    if es == [] then 0 else Receives(es[..|es| - 1]) + (if es[|es| - 1].Receive? then 1 else 0)
  }

  // ---- runs ----

  lemma {:induction false} RunSnoc(s: System, es: seq<Event>)
    requires Whole(s) && RunOk(s, es) && es != []
    ensures var n := |es| - 1;
            && RunOk(s, es[..n]) && CanDo(After(s, es[..n]), es[n])
            && After(s, es) == Do(After(s, es[..n]), es[n])
    decreases |es|
  {
    hide Do;
    hide CanDo;
    var n := |es| - 1;
    if n == 0 {
      assert es[..n] == [] && es[1..] == [];
    } else {
      RunSnoc(Do(s, es[0]), es[1..]);
      assert es[1..][..n - 1] == es[..n][1..] && es[1..][n - 1] == es[n];
    }
  }

  /** The tables are what the last calls say. */
  ghost predicate TablesAre(t: Tables, es: seq<Event>) {
    forall x {:trigger x in t} {:trigger There(es, x)} ::
      (x in t <==> There(es, x)) && (x in t ==> t[x] == es[LastCall(es, x)].r.value)
  }

  /** One step: what it does to the tables, to the open log, and to the histories. */
  ghost predicate StepIs(s: System, e: Event, s': System)
    requires Whole(s) && Whole(s')
  {
    var t, log := s.master.tables, Log(s);
    && s'.master.tables == (match e
                            case PutKey(r) => t[(r.table, r.key) := r.value]
                            case DelKey(r) => t - {(r.table, r.key)}
                            case _ => t)
    && Log(s') == (match e
                   case PutKey(r) => log + [r]
                   case DelKey(r) => if (r.table, r.key) in t then log + [r] else log
                   case End(_) => []
                   case _ => log)
    && s'.ended == (if e.End? then s.ended + [Txn(log, e.abort)] else s.ended)
    && |s'.sent| == |s.sent| + (if e.SendNext? then 1 else 0)
    && |s'.applied| == |s.applied| + (if e.Receive? then 1 else 0)
  }

  lemma WriteIs(s: System, r: Record)
    requires SystemInv(s) && s.master.open && Room(Log(s), r)
    ensures var n := Write(s.master, r);
            && n.open && n.current >= 0 && n.slots[Here(n)].records == Log(s) + [r]
            && n.tables == Effect(s.master.tables, r)
  {
    OpenSeated(s.master);
    WriteInv(s.master, r);
  }

  /** What a client calls. */
  lemma CallIs(s: System, e: Event)
    requires SystemInv(s) && CanDo(s, e) && (e.PutKey? || e.DelKey? || e.End?)
    ensures StepIs(s, e, Do(s, e))
  {
    match e {
      case PutKey(r) =>
        WriteIs(s, r);
        hide Write;
        hide SystemInv;
      case DelKey(r) =>
        if Place(r) in s.master.tables {
          WriteIs(s, r);
          hide Write;
          hide SystemInv;
        }
      case End(abort) =>
        OpenSeated(s.master);
        EndInv(s.master, abort);
    }
  }

  /** What the publisher, its thread and the slave do. */
  lemma ThreadIs(s: System, e: Event)
    requires SystemInv(s) && CanDo(s, e) && !e.PutKey? && !e.DelKey? && !e.End?
    ensures StepIs(s, e, Do(s, e))
  {
    hide LinkOk;
    hide SlaveOk;
    hide Slots;
    hide Disruptor.Inv;
    match e {
      case Begin => BeginInv(s.master);
      case Obtained => ObtainInv(s.master);
      case SendNext => SendKeepsLog(s.master);
      case _ =>
    }
  }

  /** In every run, with or without a replicator, however often the ring wraps: the transactions ended,
      the open log and the tables are what the calls amount to, and each step of the threads sends or
      applies one message. */
  lemma {:induction false} RunIs(replicated: bool, size: nat, es: seq<Event>)
    requires size > 0 && RunOk(Boot(replicated, size), es)
    ensures var s := After(Boot(replicated, size), es);
            && SystemInv(s)
            && s.ended == Endings(es) && Log(s) == Writes(es) && TablesAre(s.master.tables, es)
            && |s.sent| == Sends(es) && |s.applied| == Receives(es)
    decreases |es|
  {
    hide Do;
    hide CanDo;
    var s0 := Boot(replicated, size);
    BootInv(replicated, size);
    RunInv(s0, es);
    if es == [] {
    } else {
      var n := |es| - 1;
      RunSnoc(s0, es);
      RunIs(replicated, size, es[..n]);
      var s := After(s0, es[..n]);
      if es[n].PutKey? || es[n].DelKey? || es[n].End? {
        CallIs(s, es[n]);
      } else {
        ThreadIs(s, es[n]);
      }
      LastStep(s.master.tables, After(s0, es).master.tables, es);
    }
  }

  /** The tables after the last event. */
  lemma LastStep(t: Tables, t': Tables, es: seq<Event>)
    requires es != [] && TablesAre(t, es[..|es| - 1])
    requires t' == match es[|es| - 1]
                   case PutKey(r) => t[(r.table, r.key) := r.value]
                   case DelKey(r) => t - {(r.table, r.key)}
                   case _ => t
    ensures TablesAre(t', es)
  {
    var n := |es| - 1;
    forall x ensures (x in t' <==> There(es, x)) && (x in t' ==> t'[x] == es[LastCall(es, x)].r.value) {
      assert x in t <==> There(es[..n], x);
      assert Call(es[n], x) <==> (es[n].PutKey? || es[n].DelKey?) && x == (es[n].r.table, es[n].r.key);
    }
  }

  /** In every run the open transaction's slot has its records, its id, and is not finalized; and
      message i is that of the i-th transaction to end, without records if it aborted. */
  lemma SlotsAndMessages(replicated: bool, size: nat, es: seq<Event>)
    requires size > 0 && RunOk(Boot(replicated, size), es)
    ensures var s := After(Boot(replicated, size), es);
            && |Endings(es)| >= |s.sent| == Sends(es) >= Receives(es)
            && (s.master.open ==>
                  && s.master.current >= 0
                  && s.master.slots[Here(s.master)] == Slot(Writes(es), false, |Endings(es)| + 1))
            && forall i :: 0 <= i < Sends(es) ==>
                 s.sent[i] == Message(i + 1, if Endings(es)[i].aborted then [] else Endings(es)[i].written)
  {
    hide Endings;
    hide Writes;
    hide Sends;
    hide Receives;
    hide TablesAre;
    RunIs(replicated, size, es);
    IdsAreConsecutive(replicated, size, es);
    var s := After(Boot(replicated, size), es);
    if s.master.open {
      OpenSeated(s.master);
      InWindow(s.master);
      assert SlotOk(s.master, s.master.current);
    }
  }

  // ---- on the wire ----

  /** The room a client needs for a record is just what the log buffer asks for. */
  lemma RoomIsFit(rs: seq<Record>, r: Record)
    ensures ListFits(rs + [r]) <==> ListFits(rs) && RecordFits(r) && Room(rs, r)
  {
    TotalAppend(rs, r);
    if ListFits(rs + [r]) {
      forall r' | r' in rs ensures RecordFits(r') { assert r' in rs + [r]; }
      assert r in rs + [r];
    }
  }

  /** In every run the log of each transaction fits a message, so that the slave parses from its bytes
      what has been logged. */
  lemma {:induction false} LogsFit(replicated: bool, size: nat, es: seq<Event>)
    requires size > 0 && RunOk(Boot(replicated, size), es)
    ensures ListFits(Writes(es)) && forall t :: t in Endings(es) ==> ListFits(t.written)
    decreases |es|
  {
    hide Do;
    hide ListFits;
    if es == [] {
      NothingFits();
    } else {
      var n := |es| - 1;
      RunSnoc(Boot(replicated, size), es);
      RunIs(replicated, size, es[..n]);
      LogsFit(replicated, size, es[..n]);
      NothingFits();
      if es[n].PutKey? || es[n].DelKey? { RoomIsFit(Writes(es[..n]), es[n].r); }
    }
  }

  lemma NothingFits()
    ensures ListFits([])
  {
  }

  // ---- the slave ----

  /** What committed transactions have written, in order. */
  function Carried(ended: seq<Txn>): seq<Record> {
    if ended == [] then [] else
      var n := |ended| - 1;
      if ended[n].aborted then Carried(ended[..n]) else Carried(ended[..n]) + ended[n].written
  }

  lemma {:induction false} EffectsConcat(t: Tables, a: seq<Record>, b: seq<Record>)
    ensures Effects(t, a + b) == Effects(Effects(t, a), b)
    decreases |b|
  {
    if b == [] {
      assert a + b == a;
    } else {
      EffectsConcat(t, a, b[..|b| - 1]);
      assert (a + b)[..|a + b| - 1] == a + b[..|b| - 1];
    }
  }

  lemma {:induction false} CommittedIs(ended: seq<Txn>)
    ensures Committed(ended) == Effects(map[], Carried(ended))
    decreases |ended|
  {
    if ended == [] {
    } else {
      var n := |ended| - 1;
      CommittedIs(ended[..n]);
      EffectsConcat(map[], Carried(ended[..n]), ended[n].written);
    }
  }

  /** The slave has a key exactly if the last of the records about it is a put, and the value is what
      replay stores of that record's. */
  ghost predicate HasLast(t: Tables, rs: seq<Record>, x: (nat, seq<byte>)) {
    var k := LastAt(rs, x);
    && (x in t <==> k >= 0 && rs[k].kind.Put?)
    && (x in t ==> exists pad :: t[x] == Replay.Replayed(rs[k].value, pad))
  }

  lemma MirrorHasLast(t: Tables, rs: seq<Record>, x: (nat, seq<byte>))
    requires Mirrors(Effects(map[], rs), t)
    ensures HasLast(t, rs, x)
  {
    EffectsAt(map[], rs, x);
  }

  /** In every run whose replays have succeeded, of each key the last record about it in the committed
      transactions received decides what the slave has. */
  lemma SlaveIs(replicated: bool, size: nat, es: seq<Event>, x: (nat, seq<byte>))
    requires size > 0 && RunOk(Boot(replicated, size), es) && !After(Boot(replicated, size), es).stopped
    ensures Receives(es) <= |Endings(es)|
    ensures HasLast(After(Boot(replicated, size), es).slave.tables, Carried(Endings(es)[..Receives(es)]), x)
  {
    hide Endings;
    hide Receives;
    hide Sends;
    hide Writes;
    hide HasLast;
    hide TablesAre;
    RunIs(replicated, size, es);
    var s := After(Boot(replicated, size), es);
    var n := |s.applied|;
    if n > 0 { OkBefore(s, n - 1); }
    Follows(s, n);
    assert s.applied[..n] == s.applied;
    CommittedIs(s.ended[..n]);
    MirrorHasLast(s.slave.tables, Carried(s.ended[..n]), x);
  }

  /** A slave that has stopped has, besides, the records of the last transaction before its first delete
      of a missing key. */
  lemma StoppedSlaveIs(replicated: bool, size: nat, es: seq<Event>, x: (nat, seq<byte>)) returns (k: nat)
    requires size > 0 && RunOk(Boot(replicated, size), es) && After(Boot(replicated, size), es).stopped
    ensures 0 < Receives(es) <= |Endings(es)| && !Endings(es)[Receives(es) - 1].aborted
    ensures var n := Receives(es) - 1;
            var rs, prior := Endings(es)[n].written, Carried(Endings(es)[..n]);
            && k < |rs| && Logged(Effects(map[], prior), rs[..k])
            && rs[k].kind.Del? && Place(rs[k]) !in Effects(map[], prior + rs[..k])
            && HasLast(After(Boot(replicated, size), es).slave.tables, prior + rs[..k], x)
  {
    hide Endings;
    hide Receives;
    hide Sends;
    hide Writes;
    hide HasLast;
    hide TablesAre;
    hide SystemInv;
    RunIs(replicated, size, es);
    var s := After(Boot(replicated, size), es);
    k := StoppedAt(s);
    var n := |s.applied| - 1;
    CommittedIs(s.ended[..n]);
    EffectsConcat(map[], Carried(s.ended[..n]), s.ended[n].written[..k]);
    MirrorHasLast(s.slave.tables, Carried(s.ended[..n]) + s.ended[n].written[..k], x);
  }

  lemma StoppedAt(s: System) returns (k: nat)
    requires SystemInv(s) && s.stopped
    ensures 0 < |s.applied| <= |s.ended|
    ensures var n := |s.applied| - 1;
            var c, t := Committed(s.ended[..n]), s.ended[n];
            && !t.aborted && k < |t.written| && Logged(c, t.written[..k])
            && t.written[k].kind.Del? && Place(t.written[k]) !in Effects(c, t.written[..k])
            && Mirrors(Effects(c, t.written[..k]), s.slave.tables)
  {
    var n := |s.applied| - 1;
    OkBefore(s, n);
    Follows(s, n);
    OkExactly(s, n);
    var pads := Facts(s, n);
    k := RedoStops(Committed(s.ended[..n]), SlaveTables(s.applied[..n]), s.ended[n].written, pads);
  }
}
