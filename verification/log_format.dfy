/**
 The replication message: a 16-byte header, then log records. A record is a 24-byte header,
 the key and the value, each padded to a multiple of eight bytes. Padding is whatever the
 buffer held before. Integers are little endian, as on the machines the message is copied between.
 */
module LogFormat {
  import opened KeyOrder

  const MESSAGE_SIZE: nat := 65536      // TX_REPLICATION_MESSAGE_SIZE
  const MESSAGE_HEADER: nat := 16       // sizeof(replication_message_header_t)
  const RECORD_HEADER: nat := 24        // sizeof(log_record_header_t)
  const MAX_TABLE: nat := 65536         // NLDB_MAX_TABLE_COUNT_PER_DB

  datatype Kind = Put | Del

  datatype Record = Record(table: nat, kind: Kind, key: seq<byte>, value: seq<byte>)

  function KindCode(k: Kind): nat {
    if k.Put? then 1 else 2
  }

  /** TX_ALIGN8_UP. */
  function Align8(x: nat): (r: nat)
    ensures x <= r < x + 8 && r % 8 == 0
  {
    (x + 7) / 8 * 8
  }

  /** calcLogSize. */
  function RecordSize(keyLength: nat, valueLength: nat): nat {
    RECORD_HEADER + Align8(keyLength) + Align8(valueLength)
  }

  function SizeOf(r: Record): nat {
    RecordSize(|r.key|, |r.value|)
  }

  // ---- integers ----

  function Le(n: nat, width: nat): (s: seq<byte>)
    ensures |s| == width
  {
    if width == 0 then [] else [(n % 256) as byte] + Le(n / 256, width - 1)
  }

  function UnLe(s: seq<byte>): nat {
    if s == [] then 0 else s[0] as int + 256 * UnLe(s[1..])
  }

  lemma {:induction false} LeRoundTrip(n: nat, width: nat)
    requires n < Pow256(width)
    ensures UnLe(Le(n, width)) == n
  {
    if width == 0 {
    } else {
      assert n / 256 < Pow256(width - 1);
      LeRoundTrip(n / 256, width - 1);
      assert Le(n, width)[1..] == Le(n / 256, width - 1);
    }
  }

  lemma Widths()
    ensures Pow256(4) == 0x1_0000_0000 && Pow256(8) == 0x1_0000_0000_0000_0000
  {
    assert Pow256(2) == 65536;
    assert Pow256(4) == 256 * 256 * Pow256(2);
    assert Pow256(6) == 256 * 256 * Pow256(4);
    assert Pow256(8) == 256 * 256 * Pow256(6);
  }

  // ---- where things are ----

  /** A stretch of the message. */
  function At(b: seq<byte>, off: nat, len: nat): seq<byte>
    requires off + len <= |b|
  {
    b[off..off + len]
  }

  /** The bytes at `off` are a record header. */
  predicate HeaderAt(b: seq<byte>, off: nat, r: Record) {
    && off + RECORD_HEADER <= |b|
    && At(b, off, 4) == Le(r.table, 4)
    && At(b, off + 4, 4) == Le(KindCode(r.kind), 4)
    && At(b, off + 8, 8) == Le(|r.key|, 8)
    && At(b, off + 16, 8) == Le(|r.value|, 8)
  }

  predicate RecordAt(b: seq<byte>, off: nat, r: Record) {
    && off + SizeOf(r) <= |b|
    && HeaderAt(b, off, r)
    && At(b, off + RECORD_HEADER, |r.key|) == r.key
    && At(b, off + RECORD_HEADER + Align8(|r.key|), |r.value|) == r.value
  }

  /** Consecutive records from `off` to `end`. */
  predicate RecordsAt(b: seq<byte>, off: nat, rs: seq<Record>, end: nat)
    decreases |rs|
  {
    if rs == [] then off == end else
      RecordAt(b, off, rs[0]) && RecordsAt(b, off + SizeOf(rs[0]), rs[1..], end)
  }

  function TotalSize(rs: seq<Record>): nat {
    if rs == [] then 0 else SizeOf(rs[0]) + TotalSize(rs[1..])
  }

  /** A finalized message for a transaction. */
  predicate MessageOf(b: seq<byte>, txId: nat, rs: seq<Record>) {
    && |b| == MESSAGE_HEADER + TotalSize(rs) <= MESSAGE_SIZE
    && At(b, 0, 8) == Le(txId, 8)
    && At(b, 8, 8) == Le(TotalSize(rs), 8)
    && RecordsAt(b, MESSAGE_HEADER, rs, |b|)
  }

  function Zeros(n: nat): (s: seq<byte>)
    ensures |s| == n && forall i :: 0 <= i < n ==> s[i] == 0
  {
    if n == 0 then [] else [0] + Zeros(n - 1)
  }

  /** A small number has its lowest byte first, and zeros behind it. */
  lemma {:induction false} LeSmall(n: nat, width: nat)
    requires n < 256 && width > 0
    ensures Le(n, width) == [n as byte] + Zeros(width - 1)
  {
    if width > 1 { LeSmall(0, width - 1); }
  }

  /** The bytes of a message with one short put: header, record header, key, padding, value. */
  lemma OnePut(b: seq<byte>, id: byte, table: byte, k: byte, v: byte, w: byte)
    requires MessageOf(b, id as nat, [Record(table as nat, Put, [k], [v, w])])
    ensures |b| == 56
    ensures b[..16] == [id] + Zeros(7) + [40] + Zeros(7)
    ensures b[16..40] == [table] + Zeros(3) + [1] + Zeros(3) + [1] + Zeros(7) + [2] + Zeros(7)
    ensures b[40] == k && b[48] == v && b[49] == w
  {
    var r := Record(table as nat, Put, [k], [v, w]);
    assert [r][1..] == [];
    assert TotalSize([r]) == 40;
    LeSmall(id as nat, 8);
    LeSmall(40, 8);
    LeSmall(table as nat, 4);
    LeSmall(1, 4);
    LeSmall(1, 8);
    LeSmall(2, 8);
    assert b[..16] == At(b, 0, 8) + At(b, 8, 8);
    assert b[16..40] == At(b, 16, 4) + At(b, 20, 4) + At(b, 24, 8) + At(b, 32, 8);
    assert At(b, 40, 1)[0] == b[40] && At(b, 48, 2)[0] == b[48] && At(b, 48, 2)[1] == b[49];
  }

  lemma {:induction false} RecordsEnd(b: seq<byte>, off: nat, rs: seq<Record>, end: nat)
    requires RecordsAt(b, off, rs, end)
    ensures end == off + TotalSize(rs)
    decreases |rs|
  {
    if rs == [] {
    } else {
      RecordsEnd(b, off + SizeOf(rs[0]), rs[1..], end);
    }
  }

  lemma {:induction false} TotalAppend(rs: seq<Record>, r: Record)
    ensures TotalSize(rs + [r]) == TotalSize(rs) + SizeOf(r)
  {
    if rs == [] {
      assert [r][1..] == [];
    } else {
      assert (rs + [r])[0] == rs[0] && (rs + [r])[1..] == rs[1..] + [r];
      TotalAppend(rs[1..], r);
    }
  }

  /** Two buffers agree on a range. */
  predicate Agree(b: seq<byte>, b': seq<byte>, from: nat, to: nat) {
    from <= to <= |b| && to <= |b'| && b[from..to] == b'[from..to]
  }

  lemma AgreePart(b: seq<byte>, b': seq<byte>, from: nat, to: nat, off: nat, len: nat)
    requires Agree(b, b', from, to) && from <= off && off + len <= to
    ensures At(b, off, len) == At(b', off, len)
  {
    forall t | 0 <= t < len ensures At(b, off, len)[t] == At(b', off, len)[t] {
      assert b[from..to][off - from + t] == b'[from..to][off - from + t];
    }
  }

  lemma RecordFrame(b: seq<byte>, b': seq<byte>, from: nat, to: nat, off: nat, r: Record)
    requires Agree(b, b', from, to) && from <= off && off + SizeOf(r) <= to && RecordAt(b, off, r)
    ensures RecordAt(b', off, r)
  {
    AgreePart(b, b', from, to, off, 4);
    AgreePart(b, b', from, to, off + 4, 4);
    AgreePart(b, b', from, to, off + 8, 8);
    AgreePart(b, b', from, to, off + 16, 8);
    AgreePart(b, b', from, to, off + RECORD_HEADER, |r.key|);
    AgreePart(b, b', from, to, off + RECORD_HEADER + Align8(|r.key|), |r.value|);
  }

  /** Writing elsewhere leaves records readable. */
  lemma {:induction false} RecordsFrame(b: seq<byte>, b': seq<byte>, from: nat, to: nat, off: nat, rs: seq<Record>,
                                        end: nat)
    requires Agree(b, b', from, to) && from <= off && end <= to && RecordsAt(b, off, rs, end)
    ensures RecordsAt(b', off, rs, end)
    decreases |rs|
  {
    if rs == [] {
    } else {
      RecordsEnd(b, off + SizeOf(rs[0]), rs[1..], end);
      RecordFrame(b, b', from, to, off, rs[0]);
      RecordsFrame(b, b', from, to, off + SizeOf(rs[0]), rs[1..], end);
    }
  }

  lemma {:induction false} RecordsAppend(b: seq<byte>, off: nat, rs: seq<Record>, end: nat, r: Record)
    requires RecordsAt(b, off, rs, end) && RecordAt(b, end, r)
    ensures RecordsAt(b, off, rs + [r], end + SizeOf(r))
    decreases |rs|
  {
    hide RecordAt;
    if rs == [] {
      assert [r][1..] == [];
    } else {
      assert (rs + [r])[0] == rs[0] && (rs + [r])[1..] == rs[1..] + [r];
      RecordsAppend(b, off + SizeOf(rs[0]), rs[1..], end, r);
    }
  }

  // ---- the value that replay stores ----

  /** `redoLog` passes `sizeof(valueLength)` as the value's length: two bytes from where the value starts. */
  function ReplayedValue(b: seq<byte>, off: nat, r: Record): seq<byte>
    requires RecordAt(b, off, r) && r.value != []
  {
    At(b, off + RECORD_HEADER + Align8(|r.key|), 2)
  }

  /** The replayed value is the logged one exactly if that has two bytes. */
  lemma ReplayedExactly(b: seq<byte>, off: nat, r: Record)
    requires RecordAt(b, off, r) && r.value != []
    ensures ReplayedValue(b, off, r) == r.value <==> |r.value| == 2
    ensures |r.value| > 2 ==> ReplayedValue(b, off, r) == r.value[..2]
  {
    var o := off + RECORD_HEADER + Align8(|r.key|);
    if |r.value| >= 2 { assert At(b, o, 2) == At(b, o, |r.value|)[..2]; }
  }

  // ---- the buffer ----

  /** What a log buffer stands for. */
  datatype Slot = Slot(records: seq<Record>, finalized: bool, txId: nat)

  const CLEAR := Slot([], false, 0)

  /** `TxTransactionLogBuffer`. */
  class TxLogBuffer {
    const buffer: array<byte>
    var next: nat            // nextLogAddr_, as an offset
    var totalSize: nat
    var count: nat
    var txId: nat            // 0: not set
    var finalized: bool
    ghost var records: seq<Record>

    ghost predicate Valid()
      reads this, buffer
    {
      && buffer.Length == MESSAGE_SIZE
      && next == MESSAGE_HEADER + totalSize <= MESSAGE_SIZE
      && count == |records|
      && RecordsAt(buffer[..], MESSAGE_HEADER, records, next)
      && (finalized ==> txId > 0 && At(buffer[..], 0, 8) == Le(txId, 8) && At(buffer[..], 8, 8) == Le(totalSize, 8))
    }

    ghost function View(): Slot
      reads this
    {
      Slot(records, finalized, txId)
    }

    constructor ()
      ensures Valid() && View() == CLEAR && fresh(buffer)
    {
      buffer := new byte[MESSAGE_SIZE];
      next, totalSize, count, txId, finalized := MESSAGE_HEADER, 0, 0, 0, false;
      records := [];
    }

    /** `clearLog`: the transaction id stays. */
    method ClearLog()
      requires buffer.Length == MESSAGE_SIZE
      modifies this`next, this`totalSize, this`count, this`finalized, this`records
      ensures Valid() && View() == CLEAR.(txId := old(txId))
    {
      next, totalSize, count, finalized := MESSAGE_HEADER, 0, 0, false;
      records := [];
    }

    /** `reset`. */
    method Reset()
      requires buffer.Length == MESSAGE_SIZE
      modifies this
      ensures Valid() && View() == CLEAR
    {
      ClearLog();
      txId := 0;
    }

    method SetTransactionId(id: nat)
      requires Valid() && txId == 0
      modifies this`txId
      ensures Valid() && View() == old(View()).(txId := id)
    {
      txId := id;
    }

    /** memcpy into the buffer. */
    method Copy(off: nat, bytes: seq<byte>)
      requires off + |bytes| <= buffer.Length
      modifies buffer
      ensures Agree(old(buffer[..]), buffer[..], 0, off) && At(buffer[..], off, |bytes|) == bytes
      ensures Agree(old(buffer[..]), buffer[..], off + |bytes|, buffer.Length)
    {
      forall i | 0 <= i < |bytes| {
        buffer[off + i] := bytes[i];
      }
      assert At(buffer[..], off, |bytes|) == bytes;
    }

    /** `appendLog`. The caller must leave room for the record. */
    method AppendLog(r: Record)
      requires Valid() && !finalized
      requires MESSAGE_HEADER + totalSize + SizeOf(r) < MESSAGE_SIZE
      modifies this`next, this`totalSize, this`count, this`records, buffer
      ensures Valid() && View() == old(View()).(records := old(records) + [r])
    {
      hide Le;
      hide RecordAt;
      hide RecordsAt;
      ghost var was := buffer[..];
      WriteRecord(r);
      RecordsFrame(was, buffer[..], MESSAGE_HEADER, next, MESSAGE_HEADER, records, next);
      RecordsAppend(buffer[..], MESSAGE_HEADER, records, next, r);
      next := next + SizeOf(r);
      totalSize := totalSize + SizeOf(r);
      count := count + 1;
      records := records + [r];
    }

    /** The copies of `appendLog`: header, key, and the value if it is not empty. */
    method WriteRecord(r: Record)
      requires next + SizeOf(r) <= buffer.Length
      modifies buffer
      ensures RecordAt(buffer[..], next, r)
      ensures Agree(old(buffer[..]), buffer[..], 0, next)
    {
      hide Le;
      hide RecordAt;
      ghost var b0 := buffer[..];
      Copy(next, Le(r.table, 4) + Le(KindCode(r.kind), 4) + Le(|r.key|, 8) + Le(|r.value|, 8));
      ghost var b1 := buffer[..];
      HeaderWritten(b1, next, r);
      Copy(next + RECORD_HEADER, r.key);
      ghost var b2 := buffer[..];
      if |r.value| > 0 {
        Copy(next + RECORD_HEADER + Align8(|r.key|), r.value);
      }
      RecordWritten(b0, b1, b2, buffer[..], next, r);
    }

    /** `finalize`: the header goes in front of the records. */
    method Finalize()
      requires Valid() && txId > 0
      modifies this`finalized, buffer
      ensures Valid() && View() == old(View()).(finalized := true)
    {
      hide Le;
      hide RecordAt;
      hide RecordsAt;
      ghost var was := buffer[..];
      Copy(0, Le(txId, 8) + Le(totalSize, 8));
      SplitAt(buffer[..], 0, Le(txId, 8), Le(totalSize, 8));
      RecordsFrame(was, buffer[..], MESSAGE_HEADER, buffer.Length, MESSAGE_HEADER, records, next);
      finalized := true;
    }

    /** `buildReplicationMessage`: everything up to the next free byte. */
    method BuildMessage() returns (message: seq<byte>)
      requires Valid() && finalized
      ensures MessageOf(message, txId, records)
    {
      message := buffer[..next];
      RecordsEnd(buffer[..], MESSAGE_HEADER, records, next);
      assert Agree(buffer[..], message, 0, next);
      RecordsFrame(buffer[..], message, 0, next, MESSAGE_HEADER, records, next);
      AgreePart(buffer[..], message, 0, next, 0, 8);
      AgreePart(buffer[..], message, 0, next, 8, 8);
    }
  }

  lemma RecordWritten(b0: seq<byte>, b1: seq<byte>, b2: seq<byte>, b3: seq<byte>, off: nat, r: Record)
    requires |b0| == |b1| == |b2| == |b3| && off + SizeOf(r) <= |b0|
    requires Agree(b0, b1, 0, off) && HeaderAt(b1, off, r)
    requires Agree(b1, b2, 0, off + RECORD_HEADER) && At(b2, off + RECORD_HEADER, |r.key|) == r.key
    requires Agree(b2, b3, 0, off + RECORD_HEADER + Align8(|r.key|))
    requires At(b3, off + RECORD_HEADER + Align8(|r.key|), |r.value|) == r.value
    ensures RecordAt(b3, off, r) && Agree(b0, b3, 0, off)
  {
    hide Le;
    var to := off + RECORD_HEADER + Align8(|r.key|);
    HeaderFrame(b1, b2, off, off + RECORD_HEADER, r);
    HeaderFrame(b2, b3, off, to, r);
    AgreePart(b2, b3, 0, to, off + RECORD_HEADER, |r.key|);
    AgreeTrans(b0, b1, b2, b3, off, off + RECORD_HEADER, to);
  }

  lemma AgreeTrans(b0: seq<byte>, b1: seq<byte>, b2: seq<byte>, b3: seq<byte>, x: nat, y: nat, z: nat)
    requires x <= y <= z && Agree(b0, b1, 0, x) && Agree(b1, b2, 0, y) && Agree(b2, b3, 0, z)
    ensures Agree(b0, b3, 0, x)
  {
    AgreePart(b1, b2, 0, y, 0, x);
    AgreePart(b2, b3, 0, z, 0, x);
  }

  lemma HeaderWritten(b: seq<byte>, off: nat, r: Record)
    requires off + RECORD_HEADER <= |b|
    requires At(b, off, RECORD_HEADER) == Le(r.table, 4) + Le(KindCode(r.kind), 4) + Le(|r.key|, 8) + Le(|r.value|, 8)
    ensures HeaderAt(b, off, r)
  {
    hide Le;
    var p, q, x, y := Le(r.table, 4), Le(KindCode(r.kind), 4), Le(|r.key|, 8), Le(|r.value|, 8);
    SplitAt(b, off, p + q + x, y);
    SplitAt(b, off, p + q, x);
    SplitAt(b, off, p, q);
  }

  /** A stretch that is a concatenation consists of the two parts. */
  lemma SplitAt(b: seq<byte>, off: nat, u: seq<byte>, v: seq<byte>)
    requires off + |u| + |v| <= |b| && At(b, off, |u| + |v|) == u + v
    ensures At(b, off, |u|) == u && At(b, off + |u|, |v|) == v
  {
    var whole := At(b, off, |u| + |v|);
    forall t | 0 <= t < |u| ensures At(b, off, |u|)[t] == u[t] {
      assert whole[t] == u[t];
    }
    forall t | 0 <= t < |v| ensures At(b, off + |u|, |v|)[t] == v[t] {
      assert whole[|u| + t] == v[t];
    }
  }

  lemma HeaderFrame(b: seq<byte>, b': seq<byte>, off: nat, to: nat, r: Record)
    requires HeaderAt(b, off, r) && Agree(b, b', 0, to) && off + RECORD_HEADER <= to
    ensures HeaderAt(b', off, r)
  {
    AgreePart(b, b', 0, to, off, 4);
    AgreePart(b, b', 0, to, off + 4, 4);
    AgreePart(b, b', 0, to, off + 8, 8);
    AgreePart(b, b', 0, to, off + 16, 8);
  }

  // ---- reading a message ----

  /** What the fields of a record can hold: the table exists, and key and value lengths have 16 bits. */
  predicate RecordFits(r: Record) {
    0 < r.table <= MAX_TABLE && |r.key| < 65536 && |r.value| < 65536
  }

  function KindOf(code: nat): Kind {
    if code == 1 then Put else Del
  }

  /** `parseLog`. Its assertions about the table hold, and it stays inside the record. */
  method ParseRecord(b: seq<byte>, off: nat, ghost r: Record) returns (out: Record)
    requires RecordAt(b, off, r) && RecordFits(r)
    ensures out == r
  {
    Widths();
    LeRoundTrip(r.table, 4);
    LeRoundTrip(KindCode(r.kind), 4);
    LeRoundTrip(|r.key|, 8);
    LeRoundTrip(|r.value|, 8);
    var table, code := UnLe(At(b, off, 4)), UnLe(At(b, off + 4, 4));
    var keyLength, valueLength := UnLe(At(b, off + 8, 8)), UnLe(At(b, off + 16, 8));
    assert 0 < table <= MAX_TABLE && code in {1, 2};
    var key := At(b, off + RECORD_HEADER, keyLength);
    var value := [];
    if valueLength > 0 {
      value := At(b, off + RECORD_HEADER + Align8(keyLength), valueLength);
    }
    out := Record(table, KindOf(code), key, value);
  }

  /** The loop of `applyReplicationMessage` over a message: it yields the records that were appended,
      in order, ends where `totalLogSize_` says, and reads nothing behind the message. */
  method ParseMessage(b: seq<byte>, ghost id: nat, ghost rs: seq<Record>) returns (txId: nat, out: seq<Record>)
    requires MessageOf(b, id, rs) && id < Pow256(8)
    requires forall r :: r in rs ==> RecordFits(r)
    ensures txId == id && out == rs
  {
    hide Pow256;
    hide Le;
    hide UnLe;
    hide RecordAt;
    hide RecordsAt;
    hide TotalSize;
    SizesRead(id, TotalSize(rs));
    txId := UnLe(At(b, 0, 8));
    var total := UnLe(At(b, 8, 8));
    assert MESSAGE_HEADER + total <= |b|;
    var off := MESSAGE_HEADER;
    ghost var rest := rs;
    out := [];
    while off < MESSAGE_HEADER + total
      invariant rs == out + rest && RecordsAt(b, off, rest, |b|)
      invariant off <= MESSAGE_HEADER + total == |b|
      decreases |b| - off
    {
      NextRecord(b, off, rest, |b|);
      assert rest[0] in rs;
      var r := ParseRecord(b, off, rest[0]);
      out, rest, off := out + [r], rest[1..], off + RecordSize(|r.key|, |r.value|);
    }
    NoRecords(b, off, rest, |b|);
  }

  lemma SizesRead(id: nat, total: nat)
    requires id < Pow256(8) && total <= MESSAGE_SIZE
    ensures UnLe(Le(id, 8)) == id && UnLe(Le(total, 8)) == total
  {
    Widths();
    LeRoundTrip(id, 8);
    LeRoundTrip(total, 8);
  }

  /** Before the end there is another record, and it ends in time. */
  lemma NextRecord(b: seq<byte>, off: nat, rs: seq<Record>, end: nat)
    requires RecordsAt(b, off, rs, end) && off < end
    ensures rs != [] && RecordAt(b, off, rs[0]) && RecordsAt(b, off + SizeOf(rs[0]), rs[1..], end)
    ensures off < off + SizeOf(rs[0]) <= end
  {
    RecordsEnd(b, off + SizeOf(rs[0]), rs[1..], end);
  }

  lemma NoRecords(b: seq<byte>, off: nat, rs: seq<Record>, end: nat)
    requires RecordsAt(b, off, rs, end) && off >= end
    ensures rs == [] && off == end
  {
    RecordsEnd(b, off, rs, end);
  }

  /** What `appendLog` asks for: the whole list leaves room in the buffer. */
  predicate ListFits(rs: seq<Record>) {
    MESSAGE_HEADER + TotalSize(rs) < MESSAGE_SIZE && forall r :: r in rs ==> RecordFits(r)
  }

  lemma {:induction false} TotalPrefix(rs: seq<Record>, n: nat)
    requires n <= |rs|
    ensures TotalSize(rs[..n]) <= TotalSize(rs)
    ensures n < |rs| ==> TotalSize(rs[..n]) + SizeOf(rs[n]) <= TotalSize(rs)
    decreases |rs| - n
  {
    if n == |rs| {
      assert rs[..n] == rs;
    } else {
      TotalAppend(rs[..n], rs[n]);
      assert rs[..n] + [rs[n]] == rs[..n + 1];
      TotalPrefix(rs, n + 1);
    }
  }

  /** Append, finalize, send, parse: the slave reads what the master logged. */
  method RoundTrip(id: nat, rs: seq<Record>) returns (txId: nat, out: seq<Record>)
    requires 0 < id < Pow256(8) && ListFits(rs)
    ensures txId == id && out == rs
  {
    hide Le;
    hide Pow256;
    hide RecordAt;
    hide RecordsAt;
    hide TotalSize;
    var log := new TxLogBuffer();
    log.SetTransactionId(id);
    for i := 0 to |rs|
      invariant log.Valid() && !log.finalized && log.records == rs[..i] && log.txId == id && fresh(log.buffer)
    {
      TotalPrefix(rs, i);
      assert rs[..i + 1] == rs[..i] + [rs[i]];
      RecordsEnd(log.buffer[..], MESSAGE_HEADER, rs[..i], log.next);
      log.AppendLog(rs[i]);
    }
    assert rs[..|rs|] == rs;
    log.Finalize();
    var message := log.BuildMessage();
    txId, out := ParseMessage(message, id, rs);
  }
}
