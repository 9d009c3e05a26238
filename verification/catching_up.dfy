/**
 No reachable state of the replicated system is stuck: the threads can always send and apply all
 that has ended, and a begin that waits for a slot can always get one.
 */
module CatchingUp {
  import Disruptor
  import opened LogFormat
  import opened Replay
  import opened Transactions
  import opened Replication
  import Agreement
  import Clients

  /** The master's clients have done nothing. */
  predicate SameEnded(s: System, s': System) {
    && s'.ended == s.ended && s'.master.open == s.master.open && s'.master.pending == s.master.pending
    && s'.master.tables == s.master.tables
  }

  /** One more step at the front. */
  lemma Cons(s: System, e: Event, rest: seq<Event>)
    requires SystemInv(s) && CanDo(s, e) && RunOk(Do(s, e), rest)
    ensures RunOk(s, [e] + rest) && After(s, [e] + rest) == After(Do(s, e), rest)
  {
    Agreement.OneStep(s, e, rest);
  }

  /** The publisher thread's step is the ring consumer's. */
  lemma Sender(s: System)
    requires SystemInv(s) && s.master.replicated
    ensures var c := s.master.ctl;
            && Disruptor.ConsumerOk(Ring(s.master), c, 0)
            && |s.ended| == c.cursor + 1 && |s.sent| == c.cons[0].next
            && |s.ended| >= |s.sent| >= |s.applied| && |s.link| == |s.sent| - |s.applied|
  {
    assert Disruptor.ConsumerOk(Ring(s.master), s.master.ctl, 0);
  }

  /** How many steps the publisher thread is away from having sent and reported everything. */
  function ToSend(s: System): int
    requires Whole(s)
  {
    var me := s.master.ctl.cons[0];
    3 * (|s.ended| - |s.sent|) +
    match me.stage
    case Waiting(_, _) => 1
    case Handling(avail) => if me.next <= avail then 0 else 2
  }

  predicate AllSent(s: System)
    requires Whole(s)
  {
    s.master.ctl.cons[0].stage.Waiting? && s.master.ctl.cons[0].next > s.master.ctl.cursor
  }

  /** What the publisher thread's steps leave alone. */
  predicate SendsOnly(s: System, s': System) {
    && SameEnded(s, s') && s'.master.replicated == s.master.replicated
    && s'.master.ctl.phase == s.master.ctl.phase && s'.master.ctl.claimed == s.master.ctl.claimed
    && s'.applied == s.applied && s'.stopped == s.stopped
  }

  lemma PollStep(s: System)
    requires Sound(s.master) && s.master.ctl.cons[0].stage.Waiting? && s.master.replicated
    requires s.master.ctl.cons[0].next <= s.master.ctl.cursor && Sound(s.slave)
    ensures CanDo(s, Poll) && SendsOnly(s, Do(s, Poll)) && ToSend(Do(s, Poll)) == ToSend(s) - 1
  {
    hide Log;
  }

  lemma ReportStep(s: System)
    requires Whole(s) && s.master.ctl.cons[0].stage.Handling? && s.master.replicated
    requires s.master.ctl.cons[0].next > s.master.ctl.cons[0].stage.avail
    ensures CanDo(s, Reported) && SendsOnly(s, Do(s, Reported)) && ToSend(Do(s, Reported)) == ToSend(s) - 1
  {
    hide Log;
  }

  lemma NextStep(s: System)
    requires Whole(s) && s.master.ctl.cons[0].stage.Handling? && s.master.replicated
    requires s.master.ctl.cons[0].next <= s.master.ctl.cons[0].stage.avail
    ensures CanDo(s, SendNext) && SendsOnly(s, Do(s, SendNext)) && ToSend(Do(s, SendNext)) < ToSend(s)
  {
    hide Log;
  }

  /** One step of the publisher thread. */
  lemma SendStep(s: System) returns (e: Event)
    requires SystemInv(s) && s.master.replicated && !AllSent(s)
    ensures CanDo(s, e) && SystemInv(Do(s, e)) && SendsOnly(s, Do(s, e))
    ensures 0 <= ToSend(Do(s, e)) < ToSend(s)
  {
    var me := s.master.ctl.cons[0];
    if me.stage.Waiting? {
      e := Poll;
      PollStep(s);
    } else if me.next <= me.stage.avail {
      e := SendNext;
      NextStep(s);
    } else {
      e := Reported;
      ReportStep(s);
    }
    hide Do;
    DoInv(s, e);
    Sender(Do(s, e));
  }

  /** The publisher thread sends what has ended and reports it. */
  lemma {:induction false} SendAll(s: System) returns (es: seq<Event>)
    requires SystemInv(s) && s.master.replicated
    ensures RunOk(s, es)
    ensures var s' := After(s, es);
            && SystemInv(s') && SendsOnly(s, s')
            && |s'.sent| == |s'.ended| && s'.master.ctl.cons[0].done == s'.master.ctl.cursor
    decreases ToSend(s)
  {
    hide Do;
    hide CanDo;
    Sender(s);
    if AllSent(s) {
      es := [];
    } else {
      hide Disruptor.ConsumerOk;
      hide SystemInv;
      var e := SendStep(s);
      var rest := SendAll(Do(s, e));
      Cons(s, e, rest);
      es := [e] + rest;
    }
  }

  /** The slave receives what has been sent, unless it stops. */
  lemma {:induction false} ReceiveAll(s: System) returns (es: seq<Event>)
    requires SystemInv(s)
    ensures RunOk(s, es)
    ensures var s' := After(s, es);
            && SystemInv(s') && s'.master == s.master && s'.ended == s.ended && s'.sent == s.sent
            && (s'.stopped || |s'.applied| == |s'.sent|)
    decreases |s.link|
  {
    if s.link == [] || s.stopped {
      es := [];
    } else {
      var pads := seq(|s.link[0].records|, _ => 0);
      DoInv(s, Receive(pads));
      var rest := ReceiveAll(Do(s, Receive(pads)));
      Cons(s, Receive(pads), rest);
      es := [Receive(pads)] + rest;
    }
  }

  /** From every reachable state the threads alone can bring it about that all that has ended is sent and
      applied, unless the slave stops at a transaction it cannot replay. */
  lemma CatchesUp(s: System) returns (es: seq<Event>)
    requires SystemInv(s) && s.master.replicated
    ensures RunOk(s, es)
    ensures var s' := After(s, es);
            && SystemInv(s') && SameEnded(s, s') && |s'.sent| == |s.ended|
            && (s'.stopped || |s'.applied| == |s.ended|)
  {
    es := SendAll(s);
    var more := ReceiveAll(After(s, es));
    Agreement.RunConcat(s, es, more);
    es := es + more;
  }

  /** The publisher's scan for a free slot runs to its end; one begun too early is repeated. */
  lemma {:induction false} FinishWait(s: System) returns (es: seq<Event>)
    requires SystemInv(s) && s.master.pending && s.master.ctl.phase.Gating?
    requires s.master.ctl.cons[0].done == s.master.ctl.cursor && s.master.ctl.claimed <= Disruptor.LONG_MAX
    ensures RunOk(s, es)
    ensures var s' := After(s, es);
            && SystemInv(s') && s'.ended == s.ended && s'.master.tables == s.master.tables
            && s'.master.pending && s'.master.ctl.phase.Granted?
    decreases
      (if s.master.ctl.claimed - |s.master.slots| <= s.master.ctl.phase.m then 1 else 3) - s.master.ctl.phase.i
  {
    WaitingIsReplicated(s);
    DoInv(s, Wait);
    var s' := Do(s, Wait);
    var rest := [];
    if s'.master.ctl.phase.Gating? {
      rest := FinishWait(s');
    }
    Cons(s, Wait, rest);
    es := [Wait] + rest;
  }

  /** A begin that waits for a slot gets one by steps of the threads and its own. */
  lemma BeginReturns(s: System) returns (es: seq<Event>)
    requires SystemInv(s) && s.master.pending && s.master.ctl.claimed <= Disruptor.LONG_MAX
    ensures RunOk(s, es)
    ensures var s' := After(s, es);
            && SystemInv(s') && s'.ended == s.ended && s'.master.tables == s.master.tables
            && s'.master.open && Log(s') == []
  {
    es := [];
    if s.master.ctl.phase.Gating? {
      WaitingIsReplicated(s);
      es := SendAll(s);
      var more := FinishWait(After(s, es));
      Agreement.RunConcat(s, es, more);
      es := es + more;
    }
    var s1 := After(s, es);
    DoInv(s1, Obtained);
    ObtainInv(s1.master);
    Cons(s1, Obtained, []);
    Agreement.RunConcat(s, es, [Obtained]);
    es := es + [Obtained];
  }

  /** From every reachable state in which no transaction is open or waiting, a client can begin one. */
  lemma Begins(s: System) returns (es: seq<Event>)
    requires SystemInv(s) && !s.master.open && !s.master.pending && s.master.ctl.claimed < Disruptor.LONG_MAX
    ensures RunOk(s, [Begin] + es)
    ensures var s' := After(s, [Begin] + es);
            && SystemInv(s') && s'.ended == s.ended && s'.master.tables == s.master.tables
            && s'.master.open && Log(s') == []
  {
    DoInv(s, Begin);
    BeginInv(s.master);
    es := [];
    if !Do(s, Begin).master.open {
      es := BeginReturns(Do(s, Begin));
    }
    Cons(s, Begin, es);
  }

  // ---- any transaction ----

  /** The records that a list of calls leaves in the log: a delete of a missing key leaves none. */
  function Kept(t: Tables, rs: seq<Record>): seq<Record> {
    if rs == [] then [] else
      var k := |rs| - 1;
      var before := Kept(t, rs[..k]);
      if rs[k].kind.Del? && Place(rs[k]) !in Effects(t, before) then before else before + [rs[k]]
  }

  /** Records that clients can ask for. */
  predicate Askable(rs: seq<Record>) {
    ListFits(rs) && forall r :: r in rs ==> (r.kind.Put? <==> r.value != [])
  }

  lemma {:induction false} KeptFits(t: Tables, rs: seq<Record>)
    ensures TotalSize(Kept(t, rs)) <= TotalSize(rs)
  {
    if rs != [] {
      var k := |rs| - 1;
      KeptFits(t, rs[..k]);
      TotalAppend(rs[..k], rs[k]);
      TotalAppend(Kept(t, rs[..k]), rs[k]);
      assert rs[..k] + [rs[k]] == rs;
    }
  }

  lemma AskablePrefix(rs: seq<Record>)
    requires rs != [] && Askable(rs)
    ensures var k := |rs| - 1; Askable(rs[..k]) && RecordFits(rs[k]) && Room(rs[..k], rs[k])
  {
    var k := |rs| - 1;
    TotalAppend(rs[..k], rs[k]);
    assert rs[..k] + [rs[k]] == rs;
  }

  lemma CanAsk(s: System, t: Tables, rs: seq<Record>)
    requires Whole(s) && s.master.open && rs != [] && Askable(rs) && Log(s) == Kept(t, rs[..|rs| - 1])
    ensures var r := rs[|rs| - 1]; CanDo(s, if r.kind.Put? then PutKey(r) else DelKey(r))
  {
    AskablePrefix(rs);
    KeptFits(t, rs[..|rs| - 1]);
    assert rs[|rs| - 1] in rs;
  }

  lemma KeptStep(t: Tables, rs: seq<Record>, log: seq<Record>)
    requires rs != [] && log == Kept(t, rs[..|rs| - 1])
    ensures var r, u := rs[|rs| - 1], Effects(t, log);
            var log' := if r.kind.Del? && (r.table, r.key) !in u then log else log + [r];
            && log' == Kept(t, rs)
            && Effects(t, log') == if r.kind.Put? then u[(r.table, r.key) := r.value] else u - {(r.table, r.key)}
  {
    AppendEffects(t, log, rs[|rs| - 1]);
  }

  /** One put or delete. */
  lemma AskOne(s: System, t: Tables, rs: seq<Record>) returns (e: Event)
    requires SystemInv(s) && s.master.open && rs != [] && Askable(rs)
    requires Log(s) == Kept(t, rs[..|rs| - 1]) && s.master.tables == Effects(t, Log(s))
    ensures CanDo(s, e)
    ensures var s' := Do(s, e);
            && SystemInv(s') && s'.master.open && s'.ended == s.ended
            && Log(s') == Kept(t, rs) && s'.master.tables == Effects(t, Log(s'))
  {
    assert Whole(s);
    hide SystemInv;
    hide Effects;
    hide Kept;
    hide Askable;
    hide Log;
    hide Do;
    var r := rs[|rs| - 1];
    CanAsk(s, t, rs);
    e := if r.kind.Put? then PutKey(r) else DelKey(r);
    hide CanDo;
    DoInv(s, e);
    Clients.CallIs(s, e);
    StaysOpen(s, e);
    KeptStep(t, rs, Log(s));
  }

  lemma StaysOpen(s: System, e: Event)
    requires SystemInv(s) && CanDo(s, e) && (e.PutKey? || e.DelKey?)
    ensures Do(s, e).master.open
  {
  }

  lemma {:induction false} AskAll(s: System, rs: seq<Record>) returns (es: seq<Event>)
    requires SystemInv(s) && s.master.open && Log(s) == [] && Askable(rs)
    ensures RunOk(s, es)
    ensures var s' := After(s, es);
            && SystemInv(s') && s'.master.open && s'.ended == s.ended
            && Log(s') == Kept(s.master.tables, rs) && s'.master.tables == Effects(s.master.tables, Log(s'))
    decreases |rs|
  {
    assert Whole(s);
    hide Do;
    hide CanDo;
    hide SystemInv;
    if rs == [] {
      es := [];
    } else {
      AskablePrefix(rs);
      es := AskAll(s, rs[..|rs| - 1]);
      var s1 := After(s, es);
      var e := AskOne(s1, s.master.tables, rs);
      Cons(s1, e, []);
      Agreement.RunConcat(s, es, [e]);
      es := es + [e];
    }
  }

  /** From every reachable state in which no transaction is open or waiting, a client can begin one, make any
      calls that fit a message, and end it: what it writes is what its successful calls are. */
  lemma AnyTransaction(s: System, rs: seq<Record>, abort: bool) returns (es: seq<Event>)
    requires SystemInv(s) && !s.master.open && !s.master.pending && s.master.ctl.claimed < Disruptor.LONG_MAX
    requires Askable(rs)
    ensures RunOk(s, es)
    ensures var s' := After(s, es);
            var log := Kept(s.master.tables, rs);
            && SystemInv(s') && s'.ended == s.ended + [Txn(log, abort)]
            && s'.master.tables == Effects(s.master.tables, log)
  {
    assert Whole(s);
    hide SystemInv;
    hide Do;
    hide CanDo;
    es := Begins(s);
    es := [Begin] + es;
    var more := AskAll(After(s, es), rs);
    Agreement.RunConcat(s, es, more);
    es := es + more;
    EndNow(After(s, es), abort);
    Agreement.RunConcat(s, es, [End(abort)]);
    es := es + [End(abort)];
  }

  lemma EndNow(s: System, abort: bool)
    requires SystemInv(s) && s.master.open
    ensures RunOk(s, [End(abort)])
    ensures var s' := After(s, [End(abort)]);
            && SystemInv(s') && s'.ended == s.ended + [Txn(Log(s), abort)] && s'.master.tables == s.master.tables
  {
    DoInv(s, End(abort));
    Clients.CallIs(s, End(abort));
    Cons(s, End(abort), []);
  }
}
