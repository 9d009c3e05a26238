/**
 Fixed-length byte keys. memcmp orders two keys of one length as the numbers they spell in
 base 256, most significant byte first, and different keys spell different numbers.
 */
module KeyOrder {

  newtype byte = x: int | 0 <= x < 256

  /** The sign of `memcmp` over the whole of two keys: the first differing byte decides. */
  function MemCmp(a: seq<byte>, b: seq<byte>): int
    requires |a| == |b|
  {
    if a == [] then 0
    else if a[0] != b[0] then a[0] as int - b[0] as int
    else MemCmp(a[1..], b[1..])
  }

  function Pow256(n: nat): nat {
    if n == 0 then 1 else 256 * Pow256(n - 1)
  }

  function Value(a: seq<byte>): nat {
    if a == [] then 0 else a[0] as int * Pow256(|a| - 1) + Value(a[1..])
  }

  lemma {:induction false} ValueBound(a: seq<byte>)
    ensures Value(a) < Pow256(|a|)
  {
    if a == [] {
    } else {
      ValueBound(a[1..]);
      Carry(a[0] as int, 255, Pow256(|a| - 1));
    }
  }

  lemma Carry(x: int, y: int, p: int)
    requires x <= y && p >= 0
    ensures x * p <= y * p
  {
  }

  /** A smaller leading byte outweighs everything behind it. */
  lemma LeadingByte(a: seq<byte>, b: seq<byte>)
    requires |a| == |b| > 0 && a[0] < b[0]
    ensures Value(a) < Value(b)
  {
    var p := Pow256(|a| - 1);
    ValueBound(a[1..]);
    Carry(a[0] as int + 1, b[0] as int, p);
    assert (a[0] as int + 1) * p == a[0] as int * p + p;
  }

  /** memcmp order is numeric order. */
  lemma {:induction false} MemCmpIsOrder(a: seq<byte>, b: seq<byte>)
    requires |a| == |b|
    ensures MemCmp(a, b) < 0 <==> Value(a) < Value(b)
    ensures MemCmp(a, b) == 0 <==> Value(a) == Value(b)
    ensures MemCmp(a, b) == 0 <==> a == b
  {
    if a == [] {
    } else {
      if a[0] < b[0] {
        LeadingByte(a, b);
      } else if b[0] < a[0] {
        LeadingByte(b, a);
      } else {
        MemCmpIsOrder(a[1..], b[1..]);
        assert a == [a[0]] + a[1..] && b == [b[0]] + b[1..];
      }
    }
  }

  /** The byte offset of slot i. */
  function Off(len: nat, i: nat): nat {
    if i == 0 then 0 else Off(len, i - 1) + len
  }

  lemma {:induction false} OffIsMul(len: nat, i: nat)
    ensures Off(len, i) == i * len
  {
    if i == 0 {
    } else {
      OffIsMul(len, i - 1);
    }
  }

  /** As many slots fit as the division says, whether or not it leaves a remainder. */
  lemma SlotsFit(len: nat, size: nat, i: nat)
    requires len > 0
    ensures Off(len, i) <= size <==> i <= size / len
  {
    OffIsMul(len, i);
    var q := size / len;
    assert q * len <= size < (q + 1) * len;
    if i <= q { Carry(i, q, len); } else { Carry(q + 1, i, len); }
  }
}
