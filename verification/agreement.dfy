/** What every run of master, publisher thread, link and slave gives. */
module Agreement {
  import opened KeyOrder
  import Disruptor
  import opened LogFormat
  import opened Replay
  import opened Transactions
  import opened Replication

  // ---- tables ----

  /** After each of the first n messages the replay has succeeded, and the slave's tables hold exactly
      the keys that the master's held after the transaction. */
  predicate InStep(s: System, n: nat)
    requires n <= |s.applied| && n <= |s.ended|
  {
    forall i :: 0 <= i < n ==> s.applied[i].ok && s.applied[i].tables.Keys == MasterTables(s.ended[..i + 1]).Keys
  }

  /** Aborted transactions have left the key sets as they found them. */
  predicate KeysUndone(s: System, n: nat)
    requires n <= |s.ended|
  {
    forall i :: 0 <= i < n && s.ended[i].aborted ==>
        MasterTables(s.ended[..i + 1]).Keys == MasterTables(s.ended[..i]).Keys
  }

  /** Aborted transactions have left the tables as they found them. */
  predicate WritesUndone(s: System, n: nat)
    requires n <= |s.ended|
  {
    forall i :: 0 <= i < n && s.ended[i].aborted ==> MasterTables(s.ended[..i + 1]) == MasterTables(s.ended[..i])
  }

  /** How message i was replayed, and what transaction i did. */
  lemma Facts(s: System, i: nat) returns (pads: seq<byte>)
    requires SystemInv(s) && i < |s.applied|
    ensures i < |s.ended| && i < |s.master.done| && |pads| == |s.master.done[i]| && PutsStore(s.master.done[i])
    ensures s.applied[i] == Redo(SlaveTables(s.applied[..i]), s.master.done[i], pads)
    ensures s.master.done[i] == if s.ended[i].aborted then [] else s.ended[i].written
    ensures Logged(MasterTables(s.ended[..i]), s.ended[i].written)
    ensures MasterTables(s.ended[..i + 1]) == Effects(MasterTables(s.ended[..i]), s.ended[i].written)
    ensures SlaveTables(s.applied[..i + 1]) == s.applied[i].tables
  {
    hide Disruptor.Inv;
    hide Slots;
    assert ReplayOk(s, i) && TxnOk(s, i);
    pads :| |pads| == |s.master.done[i]| && s.applied[i] == Redo(SlaveTables(s.applied[..i]), s.master.done[i], pads);
    assert s.ended[..i + 1][..i] == s.ended[..i];
  }

  /** One message from equal keys: replay succeeds, and the keys are equal again exactly if the
      transaction committed or changed no keys. */
  lemma OneMessage(s: System, i: nat)
    requires SystemInv(s) && i < |s.applied| && i < |s.ended|
    requires SlaveTables(s.applied[..i]).Keys == MasterTables(s.ended[..i]).Keys
    ensures s.applied[i].ok
    ensures s.applied[i].tables.Keys == MasterTables(s.ended[..i + 1]).Keys <==>
            (s.ended[i].aborted ==> MasterTables(s.ended[..i + 1]).Keys == MasterTables(s.ended[..i]).Keys)
  {
    hide SystemInv;
    hide MasterTables;
    hide SlaveTables;
    var pads := Facts(s, i);
    var m := MasterTables(s.ended[..i]);
    EmptyLog(m);
    RedoKeys(m, SlaveTables(s.applied[..i]), s.master.done[i], pads);
  }

  /** In every run the slave keeps the master's keys exactly if no abort has changed them. */
  lemma {:induction false} InStepIff(s: System, n: nat)
    requires SystemInv(s) && n <= |s.applied| && n <= |s.ended|
    ensures InStep(s, n) <==> KeysUndone(s, n)
    decreases n
  {
    hide SystemInv;
    if n == 0 {
    } else {
      InStepIff(s, n - 1);
      if InStep(s, n - 1) {
        SameKeys(s, n - 1);
        OneMessage(s, n - 1);
      }
    }
  }

  lemma SameKeys(s: System, n: nat)
    requires n <= |s.applied| && n <= |s.ended| && InStep(s, n)
    ensures SlaveTables(s.applied[..n]).Keys == MasterTables(s.ended[..n]).Keys
  {
    if n > 0 { assert s.applied[..n][n - 1] == s.applied[n - 1]; }
  }

  // ---- what the slave follows ----

  /** The tables as the committed transactions alone would have made them. */
  function Committed(ended: seq<Txn>): Tables {
    if ended == [] then map[] else
      var n := |ended| - 1;
      if ended[n].aborted then Committed(ended[..n]) else Effects(Committed(ended[..n]), ended[n].written)
  }

  /** A committed transaction deletes a key that the transactions committed before it have not left. */
  predicate Refused(ended: seq<Txn>, i: int)
    requires 0 <= i < |ended|
  {
    !ended[i].aborted && !Logged(Committed(ended[..i]), ended[i].written)
  }

  /** From tables that mirror the committed ones, a message is replayed exactly if its transaction does
      not delete what is missing there, and the tables mirror the committed ones again. */
  lemma OneMirror(s: System, i: nat)
    requires SystemInv(s) && i < |s.applied| && i < |s.ended|
    requires Mirrors(Committed(s.ended[..i]), SlaveTables(s.applied[..i]))
    ensures s.applied[i].ok <==> !Refused(s.ended, i)
    ensures s.applied[i].ok ==> Mirrors(Committed(s.ended[..i + 1]), SlaveTables(s.applied[..i + 1]))
  {
    hide SystemInv;
    hide SlaveTables;
    hide Mirrors;
    var pads := Facts(s, i);
    var c := Committed(s.ended[..i]);
    EmptyLog(c);
    RedoMirrors(c, SlaveTables(s.applied[..i]), s.master.done[i], pads);
    assert s.ended[..i + 1][..i] == s.ended[..i];
  }

  /** In every run, while no replay has failed, the slave mirrors what has been committed, whatever
      aborted transactions have done to the master. */
  lemma {:induction false} Follows(s: System, n: nat)
    requires SystemInv(s) && n <= |s.applied| && n <= |s.ended|
    requires forall i :: 0 <= i < n ==> s.applied[i].ok
    ensures Mirrors(Committed(s.ended[..n]), SlaveTables(s.applied[..n]))
    decreases n
  {
    hide SystemInv;
    hide Mirrors;
    if n == 0 {
      EmptyMirror();
    } else {
      Follows(s, n - 1);
      OneMirror(s, n - 1);
    }
  }

  /** All replays but the last have succeeded. */
  lemma OkBefore(s: System, n: nat)
    requires SystemInv(s) && n < |s.applied|
    ensures n < |s.ended| && forall i :: 0 <= i < n ==> s.applied[i].ok
  {
    forall i | 0 <= i < n ensures s.applied[i].ok {
      assert ReplayOk(s, i + 1);
    }
  }

  /** Which replays fail. */
  lemma OkExactly(s: System, i: nat)
    requires SystemInv(s) && i < |s.applied| && i < |s.ended|
    ensures s.applied[i].ok <==> !Refused(s.ended, i)
  {
    OkBefore(s, i);
    Follows(s, i);
    OneMirror(s, i);
  }

  /** The slave stops exactly if it has received a transaction that deletes a key which the transactions
      committed before it have not left. */
  lemma StoppedExactly(s: System)
    requires SystemInv(s)
    ensures |s.applied| <= |s.ended|
    ensures s.stopped <==> exists i :: 0 <= i < |s.applied| && Refused(s.ended, i)
  {
    hide Refused;
    var n := |s.applied|;
    if s.stopped {
      OkExactly(s, n - 1);
    }
    forall i | 0 <= i < n && Refused(s.ended, i) ensures s.stopped {
      OkExactly(s, i);
      if i < n - 1 { OkBefore(s, n - 1); }
    }
  }

  /** Without leftovers of aborted transactions, the committed tables are the master's. */
  lemma {:induction false} CommittedIsMaster(s: System, n: nat)
    requires n <= |s.ended| && WritesUndone(s, n)
    ensures Committed(s.ended[..n]) == MasterTables(s.ended[..n])
    decreases n
  {
    if n == 0 {
    } else {
      CommittedIsMaster(s, n - 1);
      assert s.ended[..n][..n - 1] == s.ended[..n - 1];
    }
  }

  /** If no aborted transaction has left a write behind, no replay fails, and the slave mirrors the
      master: the same keys, and of each value the two bytes that replay stores. */
  lemma MirrorsRun(s: System, n: nat)
    requires SystemInv(s) && n <= |s.applied| && n <= |s.ended| && WritesUndone(s, n)
    ensures Mirrors(MasterTables(s.ended[..n]), SlaveTables(s.applied[..n]))
    ensures forall i :: 0 <= i < n ==> s.applied[i].ok
  {
    hide Mirrors;
    forall i | 0 <= i < n ensures s.applied[i].ok {
      CommittedIsMaster(s, i);
      assert TxnOk(s, i);
      OkExactly(s, i);
    }
    CommittedIsMaster(s, n);
    Follows(s, n);
  }

  lemma EmptyMirror()
    ensures Mirrors(map[], map[])
  {
  }

  // ---- whole runs ----

  /** With or without a replicator, however often the ring wraps, an assertion of the program fails in a
      run exactly if the slave has received a committed transaction that deletes a key which the
      transactions committed before it have not left: then the slave's, that a replay succeeds. */
  lemma FailsExactly(replicated: bool, size: nat, es: seq<Event>)
    requires size > 0 && RunOk(Boot(replicated, size), es)
    ensures var s := After(Boot(replicated, size), es);
            && |s.applied| <= |s.ended|
            && (s.failed <==> exists i :: 0 <= i < |s.applied| && Refused(s.ended, i))
            && (s.failed <==> s.stopped) && !s.master.failed && !s.slave.failed
  {
    BootInv(replicated, size);
    RunInv(Boot(replicated, size), es);
    StoppedExactly(After(Boot(replicated, size), es));
  }

  /** No assertion fails in a run in which committed transactions delete only what committed ones have
      left, as they do when no abort has changed the key sets. */
  lemma RunNeverFails(replicated: bool, size: nat, es: seq<Event>)
    requires size > 0 && RunOk(Boot(replicated, size), es)
    requires var ended := After(Boot(replicated, size), es).ended;
             forall i :: 0 <= i < |ended| ==> !Refused(ended, i)
    ensures var s := After(Boot(replicated, size), es);
            !s.failed && !s.master.failed && !s.slave.failed
  {
    FailsExactly(replicated, size, es);
  }

  /** Whenever a begin takes a slot, it has no records, is not finalized and has no transaction id. */
  lemma BeginsClear(replicated: bool, size: nat, es: seq<Event>)
    requires size > 0 && RunOk(Boot(replicated, size), es)
    ensures var s := After(Boot(replicated, size), es);
            && Whole(s)
            && (CanDo(s, Begin) && s.master.current >= 0 ==> s.master.slots[Here(s.master)] == CLEAR)
            && (CanDo(s, Obtained) ==>
                  s.master.ctl.claimed >= 0 && s.master.slots[s.master.ctl.claimed % |s.master.slots|] == CLEAR)
  {
    BootInv(replicated, size);
    RunInv(Boot(replicated, size), es);
    var s := After(Boot(replicated, size), es);
    if !s.master.open { SlotIsClear(s.master); }
  }

  /** The publisher sends, and the slave applies, transactions 1, 2, 3, ... without gap or repeat, and
      the slave's own transactions get the master's ids. */
  lemma IdsAreConsecutive(replicated: bool, size: nat, es: seq<Event>)
    requires size > 0 && RunOk(Boot(replicated, size), es)
    ensures var s := After(Boot(replicated, size), es);
            && (forall i :: 0 <= i < |s.sent| ==> s.sent[i].txId == i + 1)
            && |s.applied| <= |s.sent| <= |s.ended|
            && s.link == s.sent[|s.applied|..]
            && s.prevSent == |s.sent| && s.prevApplied == |s.applied| && s.slave.nextId == s.prevApplied + 1
            && (forall i :: 0 <= i < |s.sent| ==>
                 s.sent[i].records == if s.ended[i].aborted then [] else s.ended[i].written)
  {
    BootInv(replicated, size);
    RunInv(Boot(replicated, size), es);
    var s := After(Boot(replicated, size), es);
    forall i | 0 <= i < |s.sent|
      ensures s.sent[i].records == if s.ended[i].aborted then [] else s.ended[i].written
    {
      assert TxnOk(s, i);
    }
  }

  /** The slave follows the master in a run exactly if no aborted transaction has changed the keys. */
  lemma RunAgrees(replicated: bool, size: nat, es: seq<Event>)
    requires size > 0 && RunOk(Boot(replicated, size), es)
    ensures var s := After(Boot(replicated, size), es);
            && |s.applied| <= |s.ended|
            && (InStep(s, |s.applied|) <==> KeysUndone(s, |s.applied|))
            && (KeysUndone(s, |s.applied|) ==> !s.stopped && !s.failed)
  {
    BootInv(replicated, size);
    RunInv(Boot(replicated, size), es);
    var s := After(Boot(replicated, size), es);
    InStepIff(s, |s.applied|);
  }

  /** When everything ended has been applied, and the slave has not stopped, it has the keys that the
      committed transactions have left, and each with its value exactly if that has two bytes. */
  lemma CaughtUp(replicated: bool, size: nat, es: seq<Event>, x: (nat, seq<byte>))
    requires size > 0 && RunOk(Boot(replicated, size), es)
    requires var s := After(Boot(replicated, size), es); |s.applied| == |s.ended| && !s.stopped
    ensures var s := After(Boot(replicated, size), es);
            var c := Committed(s.ended);
            && s.slave.tables.Keys == c.Keys
            && (x in c ==> (s.slave.tables[x] == c[x] <==> |c[x]| == 2))
  {
    BootInv(replicated, size);
    RunInv(Boot(replicated, size), es);
    var s := After(Boot(replicated, size), es);
    var n := |s.ended|;
    if n > 0 { OkBefore(s, n - 1); }
    Follows(s, n);
    assert s.ended[..n] == s.ended && s.applied[..n] == s.applied;
    if x in Committed(s.ended) { MirrorExact(Committed(s.ended), s.slave.tables, x); }
  }

  /** If no abort has left a write behind and no transaction is open, these are the master's tables. */
  lemma CaughtUpMaster(replicated: bool, size: nat, es: seq<Event>, x: (nat, seq<byte>))
    requires size > 0 && RunOk(Boot(replicated, size), es)
    requires var s := After(Boot(replicated, size), es);
             && Whole(s) && |s.applied| == |s.ended| && !s.master.open && WritesUndone(s, |s.ended|)
    ensures var s := After(Boot(replicated, size), es);
            && !s.stopped && s.slave.tables.Keys == s.master.tables.Keys
            && (x in s.master.tables ==>
                  (s.slave.tables[x] == s.master.tables[x] <==> |s.master.tables[x]| == 2))
  {
    BootInv(replicated, size);
    RunInv(Boot(replicated, size), es);
    var s := After(Boot(replicated, size), es);
    var n := |s.ended|;
    MirrorsRun(s, n);
    CommittedIsMaster(s, n);
    assert s.ended[..n] == s.ended;
    assert Log(s) == [];
    EmptyLog(MasterTables(s.ended));
    CaughtUp(replicated, size, es, x);
  }

  /** No step forgets an ended transaction or a sent message. */
  lemma DoGrows(s: System, e: Event)
    requires SystemInv(s) && CanDo(s, e)
    ensures var s' := Do(s, e);
            s.master.done <= s'.master.done && s.sent <= s'.sent && s'.master.replicated == s.master.replicated
  {
  }

  lemma {:induction false} RunGrows(s: System, es: seq<Event>)
    requires SystemInv(s) && RunOk(s, es)
    ensures var s' := After(s, es);
            s.master.done <= s'.master.done && s.sent <= s'.sent && s'.master.replicated == s.master.replicated
    decreases |es|
  {
    if es == [] {
    } else {
      DoInv(s, es[0]);
      DoGrows(s, es[0]);
      RunGrows(Do(s, es[0]), es[1..]);
    }
  }

  /** `waitForReplicationPublishers` reads the cursor in one state and returns in a later one, in which the
      publisher's sequence has reached it: by then every transaction that had ended when the cursor was
      read has been sent, with its records. */
  lemma WaitedFor(s: System, es: seq<Event>)
    requires SystemInv(s) && RunOk(s, es) && s.master.replicated
    requires After(s, es).master.ctl.cons[0].done >= s.master.ctl.cursor
    ensures var s' := After(s, es);
            && |s.ended| == |s.master.done| <= |s'.sent|
            && forall i :: 0 <= i < |s.ended| ==> s'.sent[i] == Message(i + 1, s.master.done[i])
  {
    RunInv(s, es);
    RunGrows(s, es);
    var s' := After(s, es);
    assert Disruptor.ConsumerOk(Ring(s'.master), s'.master.ctl, 0);
    forall i | 0 <= i < |s.ended| ensures s'.sent[i] == Message(i + 1, s.master.done[i]) {
      assert s'.master.done[i] == s.master.done[i];
    }
  }

  // ---- an abort that is not undone ----

  lemma {:induction false} RunConcat(s: System, a: seq<Event>, b: seq<Event>)
    requires Whole(s) && RunOk(s, a) && RunOk(After(s, a), b)
    ensures RunOk(s, a + b) && After(s, a + b) == After(After(s, a), b)
    decreases |a|
  {
    hide Do;
    hide CanDo;
    if a == [] {
      assert a + b == b;
    } else {
      RunConcat(Do(s, a[0]), a[1..], b);
      assert (a + b)[0] == a[0] && (a + b)[1..] == a[1..] + b;
    }
  }

  lemma NoSteps(s: System)
    requires Whole(s)
    ensures RunOk(s, []) && After(s, []) == s
  {
  }

  lemma OneStep(s: System, e: Event, rest: seq<Event>)
    requires Whole(s) && CanDo(s, e) && RunOk(Do(s, e), rest)
    ensures RunOk(s, [e] + rest) && After(s, [e] + rest) == After(Do(s, e), rest)
  {
    assert ([e] + rest)[1..] == rest;
  }

  /** A master with a ring of two that has published some transactions and has none open. */
  function Published(tables: Tables, done: seq<seq<Record>>, slots: seq<Slot>): Node {
    Node(true,
         Disruptor.Ctl(|done| - 1, -1, |done| - 1, Disruptor.Idle, false,
                       [Disruptor.Consumer(-1, 0, Disruptor.Waiting(0, Disruptor.LONG_MAX))]),
         slots, -1, false, false, |done| + 1, tables, false, done)
  }

  /** The same with a transaction begun. */
  function Opened(tables: Tables, done: seq<seq<Record>>, slots: seq<Slot>): Node
    requires |done| < |slots| == 2
  {
    var n := Published(tables, done, slots);
    n.(ctl := n.ctl.(claimed := |done|, phase := Disruptor.Granted), current := |done|, open := true,
       nextId := |done| + 2, slots := slots[|done| := Slot([], false, |done| + 1)])
  }

  lemma OpenOne(s: System, tables: Tables, done: seq<seq<Record>>, slots: seq<Slot>)
    requires Whole(s) && |done| < |slots| == 2 && s.master == Published(tables, done, slots) && slots[|done|] == CLEAR
    ensures RunOk(s, [Begin, Obtained])
    ensures After(s, [Begin, Obtained]) == s.(master := Opened(tables, done, slots))
  {
    hide RunOk;
    hide After;
    var s1 := Do(s, Begin);
    assert s1.master.ctl.phase == Disruptor.Granted && s1.master.ctl.claimed == |done|;
    var s2 := Do(s1, Obtained);
    NoSteps(s2);
    OneStep(s1, Obtained, []);
    assert [Obtained] + [] == [Obtained];
    OneStep(s, Begin, [Obtained]);
    assert [Begin] + [Obtained] == [Begin, Obtained];
  }

  /** One successful put or delete, and the end of the transaction. */
  lemma CloseOne(s: System, tables: Tables, done: seq<seq<Record>>, slots: seq<Slot>, r: Record, abort: bool)
    returns (es: seq<Event>)
    requires Whole(s) && |done| < |slots| == 2 && s.master == Opened(tables, done, slots)
    requires RecordFits(r) && Room([], r) && (r.kind.Put? <==> r.value != []) && (r.kind.Del? ==> Place(r) in tables)
    ensures RunOk(s, es)
    ensures var log := if abort then [] else [r];
            After(s, es) == s.(ended := s.ended + [Txn([r], abort)],
                               master := Published(Effect(tables, r), done + [log],
                                                   slots[|done| := Slot(log, true, |done| + 1)]))
  {
    hide RunOk;
    hide After;
    var write := if r.kind.Put? then PutKey(r) else DelKey(r);
    var s1 := Do(s, write);
    assert [] + [r] == [r];
    assert Log(s1) == [r];
    var s2 := Do(s1, End(abort));
    NoSteps(s2);
    es := [];
    OneStep(s1, End(abort), es);
    es := [End(abort)] + es;
    OneStep(s, write, es);
    es := [write] + es;
  }

  /** A whole transaction of the master. */
  lemma Transact(s: System, tables: Tables, done: seq<seq<Record>>, slots: seq<Slot>, r: Record, abort: bool)
    returns (es: seq<Event>)
    requires Whole(s) && |done| < |slots| == 2 && s.master == Published(tables, done, slots) && slots[|done|] == CLEAR
    requires RecordFits(r) && Room([], r) && (r.kind.Put? <==> r.value != []) && (r.kind.Del? ==> Place(r) in tables)
    ensures RunOk(s, es)
    ensures var log := if abort then [] else [r];
            After(s, es) == s.(ended := s.ended + [Txn([r], abort)],
                               master := Published(Effect(tables, r), done + [log],
                                                   slots[|done| := Slot(log, true, |done| + 1)]))
  {
    hide RunOk;
    hide After;
    hide Opened;
    hide Published;
    OpenOne(s, tables, done, slots);
    es := CloseOne(s.(master := Opened(tables, done, slots)), tables, done, slots, r, abort);
    RunConcat(s, [Begin, Obtained], es);
    es := [Begin, Obtained] + es;
  }

  /** The master's calls: a put, then an abort. */
  lemma AbortedPut(r: Record) returns (es: seq<Event>)
    requires r.kind.Put? && RecordFits(r) && r.value != [] && Room([], r)
    ensures RunOk(Boot(true, 2), es)
    ensures After(Boot(true, 2), es) ==
              Boot(true, 2).(ended := [Txn([r], true)],
                             master := Published(map[Place(r) := r.value], [[]], [Slot([], true, 1), CLEAR]))
  {
    hide RunOk;
    hide After;
    var s := Boot(true, 2);
    assert s.master == Published(map[], [], [CLEAR, CLEAR]);
    es := Transact(s, map[], [], [CLEAR, CLEAR], r, true);
    assert [CLEAR, CLEAR][0 := Slot([], true, 1)] == [Slot([], true, 1), CLEAR];
  }

  /** The publisher thread and the slave: the message is empty. */
  lemma EmptyMessage(s: System, tables: Tables) returns (es: seq<Event>)
    requires Whole(s) && s.applied == [] && s.link == [] && !s.stopped && s.slave == Fresh(false, 2)
    requires s.master == Published(tables, [[]], [Slot([], true, 1), CLEAR])
    ensures RunOk(s, es)
    ensures var s' := After(s, es);
            s'.ended == s.ended && |s'.applied| == 1 && s'.slave.tables == map[] && s'.master.tables == tables
  {
    hide RunOk;
    hide After;
    var s1 := Do(s, Poll);
    var s2 := Do(s1, SendNext);
    assert s2.link == [Message(1, [])];
    var s3 := Do(s2, Receive([]));
    NoSteps(s3);
    es := [];
    OneStep(s2, Receive([]), es);
    es := [Receive([])] + es;
    OneStep(s1, SendNext, es);
    es := [SendNext] + es;
    OneStep(s, Poll, es);
    es := [Poll] + es;
  }

  /** After any put and an abort the master keeps the key, and the slave, though up to date, does not
      have it. */
  lemma AbortDiverges(r: Record) returns (es: seq<Event>)
    requires r.kind.Put? && RecordFits(r) && r.value != [] && Room([], r)
    ensures RunOk(Boot(true, 2), es)
    ensures var s := After(Boot(true, 2), es);
            |s.applied| == |s.ended| == 1 && Place(r) in s.master.tables && Place(r) !in s.slave.tables
  {
    es := AbortedPut(r);
    var more := EmptyMessage(After(Boot(true, 2), es), map[Place(r) := r.value]);
    RunConcat(Boot(true, 2), es, more);
    es := es + more;
  }

  /** The master's calls: a delete of the key that the abort has left, and a commit. */
  lemma DeleteLeft(s: System, r: Record, d: Record) returns (es: seq<Event>)
    requires Whole(s) && s.master == Published(map[Place(r) := r.value], [[]], [Slot([], true, 1), CLEAR])
    requires d.kind.Del? && RecordFits(d) && d.value == [] && Place(d) == Place(r) && Room([], d)
    ensures RunOk(s, es)
    ensures After(s, es) == s.(ended := s.ended + [Txn([d], false)],
                               master := Published(map[], [[], [d]], [Slot([], true, 1), Slot([d], true, 2)]))
  {
    hide RunOk;
    hide After;
    hide Published;
    es := Transact(s, map[Place(r) := r.value], [[]], [Slot([], true, 1), CLEAR], d, false);
    assert [Slot([], true, 1), CLEAR][1 := Slot([d], true, 2)] == [Slot([], true, 1), Slot([d], true, 2)];
    assert [[]] + [[d]] == [[], [d]];
    assert Effect(map[Place(r) := r.value], d) == map[];
  }

  /** The publisher thread sends both transactions. */
  lemma SendBoth(s: System, d: Record) returns (es: seq<Event>)
    requires Whole(s) && s.link == [] && s.applied == []
    requires s.master == Published(map[], [[], [d]], [Slot([], true, 1), Slot([d], true, 2)])
    ensures RunOk(s, es)
    ensures var s' := After(s, es);
            && s'.link == [Message(1, []), Message(2, [d])]
            && s'.ended == s.ended && s'.applied == [] && s'.stopped == s.stopped
  {
    hide RunOk;
    hide After;
    var s1 := Do(s, Poll);
    var s2 := Do(s1, SendNext);
    assert s2.link == [Message(1, [])] && s2.master.slots == [CLEAR, Slot([d], true, 2)];
    var s3 := Do(s2, SendNext);
    assert s3.link == [Message(1, []), Message(2, [d])];
    NoSteps(s3);
    es := [];
    OneStep(s2, SendNext, es);
    es := [SendNext] + es;
    OneStep(s1, SendNext, es);
    es := [SendNext] + es;
    OneStep(s, Poll, es);
    es := [Poll] + es;
  }

  /** The slave receives both, unless it stops at the first. */
  lemma ReceiveBoth(s: System, d: Record) returns (es: seq<Event>)
    requires Whole(s) && s.link == [Message(1, []), Message(2, [d])] && s.applied == [] && !s.stopped
    ensures RunOk(s, es)
    ensures var s' := After(s, es); s'.ended == s.ended && (s'.stopped || |s'.applied| == 2)
  {
    hide RunOk;
    hide After;
    hide Replication.Replayed;
    var s1 := Do(s, Receive([]));
    assert s1.link == [Message(2, [d])];
    if s1.stopped {
      NoSteps(s1);
      es := [];
    } else {
      var s2 := Do(s1, Receive([0]));
      NoSteps(s2);
      OneStep(s1, Receive([0]), []);
      es := [Receive([0])] + [];
    }
    OneStep(s, Receive([]), es);
    es := [Receive([])] + es;
  }

  /** A put, an abort, a delete of the same key, a commit: the delete succeeds on the master, its replay
      fails, and the slave's assertion with it. */
  lemma AbortStopsSlave(r: Record, d: Record) returns (es: seq<Event>)
    requires r.kind.Put? && RecordFits(r) && r.value != [] && Room([], r)
    requires d.kind.Del? && RecordFits(d) && d.value == [] && Place(d) == Place(r) && Room([], d)
    ensures RunOk(Boot(true, 2), es) && After(Boot(true, 2), es).failed
  {
    hide SystemInv;
    hide RunOk;
    hide After;
    var s0 := Boot(true, 2);
    es := AbortedPut(r);
    var more := DeleteLeft(After(s0, es), r, d);
    RunConcat(s0, es, more);
    es := es + more;
    more := SendBoth(After(s0, es), d);
    RunConcat(s0, es, more);
    es := es + more;
    more := ReceiveBoth(After(s0, es), d);
    RunConcat(s0, es, more);
    es := es + more;
    FailsExactly(true, 2, es);
    Left(r, d);
    assert After(s0, es).ended == [Txn([r], true), Txn([d], false)];
    assert Refused([Txn([r], true), Txn([d], false)], 1);
  }

  lemma Left(r: Record, d: Record)
    requires d.kind.Del?
    ensures Refused([Txn([r], true), Txn([d], false)], 1)
  {
    var ended := [Txn([r], true), Txn([d], false)];
    assert ended[..1] == [Txn([r], true)] && ended[..1][..0] == [];
    assert [d][..0] == [];
    assert Committed(ended[..1]) == map[];
  }
}
