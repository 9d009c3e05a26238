/** What log records do to tables: when the master writes them, and when a slave replays them. */
module Replay {
  import opened KeyOrder
  import opened LogFormat

  /** All tables of a database, by table id and key. */
  type Tables = map<(nat, seq<byte>), seq<byte>>

  function Place(r: Record): (nat, seq<byte>) {
    (r.table, r.key)
  }

  function Effect(t: Tables, r: Record): Tables {
    match r.kind
    case Put => t[Place(r) := r.value]
    case Del => t - {Place(r)}
  }

  /** What a transaction with these records has done. */
  function Effects(t: Tables, rs: seq<Record>): Tables {
    if rs == [] then t else Effect(Effects(t, rs[..|rs| - 1]), rs[|rs| - 1])
  }

  /** The record is about this key of this table. */
  predicate Concerns(r: Record, x: (nat, seq<byte>)) {
    r.table == x.0 && r.key == x.1
  }

  /** The last record about a key, or -1. */
  function LastAt(rs: seq<Record>, x: (nat, seq<byte>)): (k: int)
    ensures -1 <= k < |rs| && (k >= 0 ==> Concerns(rs[k], x))
    ensures forall j :: k < j < |rs| ==> !Concerns(rs[j], x)
  {
    if rs == [] then -1
    else if Concerns(rs[|rs| - 1], x) then |rs| - 1
    else LastAt(rs[..|rs| - 1], x)
  }

  /** Of each key the last record about it decides; a key without a record is as it was. */
  lemma {:induction false} EffectsAt(t: Tables, rs: seq<Record>, x: (nat, seq<byte>))
    ensures var e, k := Effects(t, rs), LastAt(rs, x);
            if k < 0 then (x in e <==> x in t) && (x in t ==> e[x] == t[x])
            else (x in e <==> rs[k].kind.Put?) && (rs[k].kind.Put? ==> e[x] == rs[k].value)
  {
    if rs != [] { EffectsAt(t, rs[..|rs| - 1], x); }
  }

  /** Only successful deletes are logged: each deletes a key that is there by then. */
  predicate Logged(t: Tables, rs: seq<Record>) {
    rs == [] ||
    (Logged(t, rs[..|rs| - 1]) && (rs[|rs| - 1].kind.Del? ==> Place(rs[|rs| - 1]) in Effects(t, rs[..|rs| - 1])))
  }

  /** The value a slave stores: `redoLog` passes `sizeof(valueLength)`, two bytes. Behind a value of
      one byte it finds padding. */
  function Replayed(v: seq<byte>, pad: byte): (w: seq<byte>)
    ensures v != [] ==> |w| == 2 && (w == v <==> |v| == 2)
  {
    if |v| >= 2 then v[..2] else v + [pad]
  }

  /** This is what lies in the message. */
  lemma ReplayedReads(b: seq<byte>, off: nat, r: Record)
    requires RecordAt(b, off, r) && r.value != []
    ensures var o := off + RECORD_HEADER + Align8(|r.key|);
            o + 1 < |b| && ReplayedValue(b, off, r) == Replayed(r.value, b[o + 1])
  {
    TwoBytes(b, off + RECORD_HEADER + Align8(|r.key|), r.value);
  }

  lemma TwoBytes(b: seq<byte>, o: nat, v: seq<byte>)
    requires o + 2 <= |b| && o + |v| <= |b| && At(b, o, |v|) == v && v != []
    ensures At(b, o, 2) == Replayed(v, b[o + 1])
  {
    assert At(b, o, 2) == [b[o], b[o + 1]];
    assert v[0] == b[o];
    if |v| >= 2 { assert v[1] == b[o + 1]; }
  }

  function ReplayedRecord(r: Record, pad: byte): Record
  {
    match r.kind
    case Put => r.(value := Replayed(r.value, pad))
    case Del => r.(value := [])
  }

  predicate PutsStore(rs: seq<Record>) {
    forall r :: r in rs && r.kind.Put? ==> r.value != []
  }

  datatype Outcome = Outcome(tables: Tables, ok: bool)

  /** `redoLog` over the records, up to the first delete that does not find its key. */
  function Redo(t: Tables, rs: seq<Record>, pads: seq<byte>): Outcome
    requires |pads| == |rs|
  {
    if rs == [] then Outcome(t, true) else
      var before := Redo(t, rs[..|rs| - 1], pads[..|rs| - 1]);
      var r := rs[|rs| - 1];
      if !before.ok || (r.kind.Del? && Place(r) !in before.tables) then before.(ok := false)
      else Outcome(Effect(before.tables, ReplayedRecord(r, pads[|rs| - 1])), true)
  }

  /** On a slave with the keys of m, replay succeeds exactly if the records could have been logged on m:
      if each delete finds its key there. It then ends with the same keys. */
  lemma {:induction false} RedoKeys(m: Tables, s: Tables, rs: seq<Record>, pads: seq<byte>)
    requires PutsStore(rs) && |pads| == |rs|
    requires m.Keys == s.Keys
    ensures Redo(s, rs, pads).ok <==> Logged(m, rs)
    ensures Logged(m, rs) ==> Redo(s, rs, pads).tables.Keys == Effects(m, rs).Keys
  {
    if rs == [] {
    } else {
      RedoKeys(m, s, rs[..|rs| - 1], pads[..|rs| - 1]);
    }
  }

  /** The slave has the master's keys, and of each value the two bytes that replay stores. */
  predicate Mirrors(m: Tables, s: Tables) {
    && m.Keys == s.Keys
    && forall x {:trigger s[x]} :: x in m ==> m[x] != [] && exists pad :: s[x] == Replayed(m[x], pad)
  }

  lemma {:induction false} RedoMirrors(m: Tables, s: Tables, rs: seq<Record>, pads: seq<byte>)
    requires PutsStore(rs) && |pads| == |rs|
    requires Mirrors(m, s)
    ensures Redo(s, rs, pads).ok <==> Logged(m, rs)
    ensures Logged(m, rs) ==> Mirrors(Effects(m, rs), Redo(s, rs, pads).tables)
  {
    if rs == [] {
    } else {
      var n := |rs| - 1;
      RedoMirrors(m, s, rs[..n], pads[..n]);
      if Logged(m, rs[..n]) {
        EffectMirrors(Effects(m, rs[..n]), Redo(s, rs[..n], pads[..n]).tables, rs[n], pads[n]);
      }
    }
  }

  lemma EffectMirrors(m: Tables, s: Tables, r: Record, pad: byte)
    requires Mirrors(m, s) && (r.kind.Put? ==> r.value != [])
    ensures Mirrors(Effect(m, r), Effect(s, ReplayedRecord(r, pad)))
  {
    var m', s' := Effect(m, r), Effect(s, ReplayedRecord(r, pad));
    assert m'.Keys == s'.Keys;
    forall x | x in m' ensures m'[x] != [] && exists p :: s'[x] == Replayed(m'[x], p) {
      if x == Place(r) {
        assert s'[x] == Replayed(m'[x], pad);
      } else {
        var p :| s[x] == Replayed(m[x], p);
        assert s'[x] == Replayed(m'[x], p);
      }
    }
  }

  /** A mirrored value is the master's exactly if that has two bytes. */
  lemma MirrorExact(m: Tables, s: Tables, x: (nat, seq<byte>))
    requires Mirrors(m, s) && x in m
    ensures s[x] == m[x] <==> |m[x]| == 2
    ensures |m[x]| >= 2 ==> s[x] == m[x][..2]
  {
    var p :| s[x] == Replayed(m[x], p);
  }

  lemma AppendEffects(t: Tables, rs: seq<Record>, r: Record)
    ensures Effects(t, rs + [r]) == Effect(Effects(t, rs), r)
    ensures Logged(t, rs + [r]) <==> Logged(t, rs) && (r.kind.Del? ==> Place(r) in Effects(t, rs))
  {
    assert (rs + [r])[..|rs + [r]| - 1] == rs;
  }

  /** A replay that fails has done what the records before the first refused one do. */
  lemma {:induction false} RedoStops(m: Tables, s: Tables, rs: seq<Record>, pads: seq<byte>) returns (k: nat)
    requires PutsStore(rs) && |pads| == |rs| && Mirrors(m, s) && !Logged(m, rs)
    ensures k < |rs| && Logged(m, rs[..k]) && rs[k].kind.Del? && Place(rs[k]) !in Effects(m, rs[..k])
    ensures Mirrors(Effects(m, rs[..k]), Redo(s, rs, pads).tables)
  {
    var n := |rs| - 1;
    RedoMirrors(m, s, rs[..n], pads[..n]);
    if Logged(m, rs[..n]) {
      k := n;
    } else {
      k := RedoStops(m, s, rs[..n], pads[..n]);
      assert rs[..n][..k] == rs[..k];
    }
  }
}
