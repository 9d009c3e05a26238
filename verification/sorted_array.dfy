/**
 `nldb_sorted_array` on its own memory: one arena of key bytes, a parallel array of data
 pointers, and byte positions that run in step with pointer positions. Each operation is
 proved to do to the array's value what module `SortedView` says.
 */
module SortedArrays {
  import opened KeyOrder
  import opened SortedView

  /** The keys in consecutive slots of an arena; bytes too few for a key at the end are no slot. */
  function Slots(s: seq<byte>, len: nat): (r: seq<int>)
    requires len > 0
  {
    if |s| < len then [] else [Value(s[..len])] + Slots(s[len..], len)
  }

  lemma {:induction false} SlotsCount(s: seq<byte>, len: nat)
    requires len > 0
    ensures Off(len, |Slots(s, len)|) <= |s| < Off(len, |Slots(s, len)|) + len
  {
    if |s| >= len {
      SlotsCount(s[len..], len);
      OffShift(len, |Slots(s[len..], len)|);
    }
  }

  lemma OffShift(len: nat, n: nat)
    ensures Off(len, n + 1) == Off(len, n) + len
  {
  }

  /** Whole slots followed by anything. */
  lemma {:induction false} SlotsConcat(a: seq<byte>, b: seq<byte>, len: nat, n: nat)
    requires len > 0 && |a| == Off(len, n)
    ensures Slots(a + b, len) == Slots(a, len) + Slots(b, len) && |Slots(a, len)| == n
  {
    if n == 0 {
      assert a + b == b;
    } else {
      OffShift(len, n - 1);
      assert (a + b)[..len] == a[..len] && (a + b)[len..] == a[len..] + b;
      SlotsConcat(a[len..], b, len, n - 1);
    }
  }

  lemma SlotsOne(key: seq<byte>, len: nat)
    requires len > 0 && |key| == len
    ensures Slots(key, len) == [Value(key)]
  {
    assert key[..len] == key && Slots(key[len..], len) == [];
  }

  lemma {:induction false} OffDiff(len: nat, p: nat, n: nat)
    requires p <= n
    ensures Off(len, n) == Off(len, p) + Off(len, n - p)
  {
    if p == n {
    } else {
      OffDiff(len, p, n - 1);
    }
  }

  /** Two whole stretches followed by anything. */
  lemma SlotsConcat2(a: seq<byte>, b: seq<byte>, c: seq<byte>, len: nat, n: nat, m: nat)
    requires len > 0 && |a| == Off(len, n) && |b| == Off(len, m)
    ensures Slots(a + b + c, len) == Slots(a, len) + Slots(b, len) + Slots(c, len)
    ensures |Slots(a, len)| == n && |Slots(b, len)| == m
  {
    assert a + b + c == a + (b + c);
    SlotsConcat(a, b + c, len, n);
    SlotsConcat(b, c, len, m);
  }

  lemma SlotsConcat3(a: seq<byte>, b: seq<byte>, c: seq<byte>, d: seq<byte>, len: nat, n: nat, m: nat, k: nat)
    requires len > 0 && |a| == Off(len, n) && |b| == Off(len, m) && |c| == Off(len, k)
    ensures Slots(a + b + c + d, len) == Slots(a, len) + Slots(b, len) + Slots(c, len) + Slots(d, len)
    ensures |Slots(a, len)| == n && |Slots(b, len)| == m && |Slots(c, len)| == k
  {
    hide Slots;
    hide Off;
    assert a + b + c + d == a + b + (c + d);
    SlotsConcat2(a, b, c + d, len, n, m);
    SlotsConcat(c, d, len, k);
  }

  /** Where the slots p and n lie in the arena. */
  lemma Offsets(len: nat, p: nat, n: nat)
    requires p <= n
    ensures Off(len, p) <= Off(len, n) && Off(len, n) - Off(len, p) == Off(len, n - p)
    ensures p < n ==> Off(len, p) + len <= Off(len, n) && Off(len, n) - Off(len, p) - len == Off(len, n - p - 1)
    ensures Off(len, n + 1) == Off(len, n) + len && Off(len, 1) == len
  {
    OffDiff(len, p, n);
    if p < n { OffDiff(len, p + 1, n); }
  }

  /** An arena of n = p + m live keys a + b, the vacant slot r and the rest c: putting a key's bytes
      between a and b over the vacant slot inserts its value. */
  lemma InsertedSlots(a: seq<byte>, b: seq<byte>, r: seq<byte>, c: seq<byte>, key: seq<byte>, len: nat, p: nat, m: nat)
    requires len > 0 && |a| == Off(len, p) && |b| == Off(len, m) && |r| == |key| == len
    ensures var all := Slots(a + b + r + c, len);
            p + m < |all| && Slots(a + key + b + c, len) == all[..p] + [Value(key)] + all[p..p + m] + all[p + m + 1..]
  {
    SlotsOne(key, len);
    Offsets(len, 0, 1);
    hide Slots;
    hide Value;
    hide Off;
    SlotsConcat3(a, b, r, c, len, p, m, 1);
    SlotsConcat3(a, key, b, c, len, p, 1, m);
    Cut4(Slots(a + b + r + c, len), Slots(a + key + b + c, len),
         Slots(a, len), Slots(b, len), Slots(r, len), Slots(c, len), [Value(key)], p, m);
  }

  lemma Cut4(all: seq<int>, all': seq<int>, a: seq<int>, b: seq<int>, r: seq<int>, c: seq<int>, k: seq<int>, p: nat,
             m: nat)
    requires all == a + b + r + c && all' == a + k + b + c && |r| == 1 && |a| == p && |b| == m
    ensures p + m < |all| && all' == all[..p] + k + all[p..p + m] + all[p + m + 1..]
  {
    assert all[..p] == a && all[p..p + m] == b && all[p + m + 1..] == c;
  }

  /** An arena of the live keys a + k + b and the rest c: moving b over k removes k's value, and
      the last live slot keeps its bytes and becomes the first behind. `last` is that slot and
      the rest. */
  lemma RemovedSlots(a: seq<byte>, k: seq<byte>, b: seq<byte>, c: seq<byte>, before: seq<byte>, last: seq<byte>,
                     len: nat, p: nat, m: nat)
    requires len > 0 && |a| == Off(len, p) && |b| == Off(len, m) && |k| == len && |before| == Off(len, p + m)
    requires before + last == a + k + b + c
    ensures var all := Slots(a + k + b + c, len);
            p + m < |all| && Slots(a + b + last, len) == all[..p] + all[p + 1..p + m + 1] + all[p + m..]
  {
    Offsets(len, 0, 1);
    hide Slots;
    hide Off;
    SlotsConcat3(a, k, b, c, len, p, 1, m);
    SlotsConcat(before, last, len, p + m);
    SlotsConcat2(a, b, last, len, p, m);
    CutRemoved(Slots(a + k + b + c, len), Slots(a, len), Slots(k, len), Slots(b, len), Slots(c, len),
               Slots(before, len), Slots(last, len));
  }

  lemma CutRemoved(all: seq<int>, a: seq<int>, k: seq<int>, b: seq<int>, c: seq<int>, before: seq<int>, last: seq<int>)
    requires all == a + k + b + c && all == before + last && |k| == 1 && |before| == |a| + |b|
    ensures var p, n := |a|, |a| + |b| + 1;
            all[..p] == a && all[p + 1..n] == b && all[n - 1..] == last
  {
  }

  /** One slot, read in place. */
  lemma SlotAt(s: seq<byte>, len: nat, i: nat)
    requires len > 0 && Off(len, i) + len <= |s|
    ensures i < |Slots(s, len)| && Slots(s, len)[i] == Value(s[Off(len, i)..Off(len, i) + len])
  {
    var o := Off(len, i);
    SlotsOne(s[o..o + len], len);
    hide Slots;
    hide Value;
    assert s == s[..o] + s[o..o + len] + s[o + len..];
    SlotsConcat2(s[..o], s[o..o + len], s[o + len..], len, i, 1);
  }

  /** The stretch from `from` to `end` now starts at `to`; the rest is as it was. */
  lemma Shifted(s: seq<byte>, s': seq<byte>, from: nat, end: nat, to: nat)
    requires |s'| == |s| && from <= end <= |s| && to + end - from <= |s|
    requires forall i {:trigger s'[i]} :: 0 <= i < to || to + end - from <= i < |s| ==> s'[i] == s[i]
    requires forall i {:trigger s'[i]} :: to <= i < to + end - from ==> s'[i] == s[i - to + from]
    ensures s' == s[..to] + s[from..end] + s[to + end - from..]
  {
    ThreePieces(s', to, to + end - from);
    assert s'[..to] == s[..to];
    assert s'[to..to + end - from] == s[from..end];
    assert s'[to + end - from..] == s[to + end - from..];
  }

  lemma ThreePieces(s: seq<byte>, x: nat, y: nat)
    requires x <= y <= |s|
    ensures s == s[..x] + s[x..y] + s[y..]
  {
  }

  lemma NothingMoved(s: seq<byte>, x: nat, y: nat)
    requires x <= y <= |s|
    ensures s[..x] + s[y..y] + s[x..] == s
  {
  }

  lemma FourPieces(s: seq<byte>, x: nat, y: nat, z: nat)
    requires x <= y <= z <= |s|
    ensures s == s[..x] + s[x..y] + s[y..z] + s[z..]
  {
  }

  lemma IterBefore(len: nat, n: nat)
    ensures Off(len, 0) == 0
    ensures n > 0 ==> Off(len, n - 1) == Off(len, n) - len
  {
  }

  /** One slot back. */
  lemma SlotBefore(len: nat, n: nat, count: nat)
    requires len > 0 && n <= count
    ensures n == 0 <==> Off(len, n) < len
    ensures n > 0 ==> Off(len, n - 1) == Off(len, n) - len && Off(len, n - 1) + len <= Off(len, count)
  {
    if n > 0 { Offsets(len, n - 1, count); }
  }

  /** The arena after a key goes in at `pos`: the keys in use behind it move right. */
  function Inserted(s: seq<byte>, pos: nat, used: nat, key: seq<byte>): (r: seq<byte>)
    requires pos <= used && used + |key| <= |s|
    ensures |r| == |s|
  {
    s[..pos] + key + s[pos..used] + s[used + |key|..]
  }

  /** The arena after the key at `pos` goes out: the keys behind it move left, the last one also stays. */
  function Removed(s: seq<byte>, pos: nat, used: nat, len: nat): (r: seq<byte>)
    requires pos + len <= used <= |s|
    ensures |r| == |s|
  {
    s[..pos] + s[pos + len..used] + s[used - len..]
  }

  class SortedArray {
    const keySpace: array<byte>
    const data: array<int>
    var maxKeyCount: nat
    var keyCount: nat
    var usedKeySpace: nat
    var keyLength: nat

    ghost predicate Valid()
      reads this, keySpace, data
    {
      && keyLength > 0
      && data.Length == keySpace.Length
      && maxKeyCount == |Slots(keySpace[..], keyLength)| <= data.Length
      && keyCount <= maxKeyCount
      && usedKeySpace == Off(keyLength, keyCount)
      && Wf(View(), maxKeyCount)
    }

    /** The value: the live slots with their pointers, and the slots behind. */
    ghost function View(): SArr<int>
      requires keyLength > 0 && keyCount <= |Slots(keySpace[..], keyLength)| && keyCount <= data.Length
      reads this, keySpace, data
    {
      var slots := Slots(keySpace[..], keyLength);
      SArr(slots[..keyCount], data[..keyCount], slots[keyCount..])
    }

    /** `init`: as many keys fit as the division says, whether or not it leaves a remainder. */
    constructor (size: nat, length: nat)
      requires 0 < length
      ensures Valid() && View().keys == [] && keyLength == length && keySpace.Length == size
      ensures fresh(keySpace) && fresh(data) && maxKeyCount == size / length
    {
      keySpace := new byte[size];
      data := new int[size];
      maxKeyCount, keyCount, usedKeySpace, keyLength := size / length, 0, 0, length;
      new;
      MaxKeys(keySpace[..], length);
      QuotientBound(size, length);
      hide Slots;
    }

    /** `search_forward`: positions of the last key not above the given one, and whether it is equal. */
    method SearchForward(key: seq<byte>) returns (keyPos: int, dataPos: int, found: bool)
      requires Valid() && |key| == keyLength
      ensures dataPos == Passed(View().keys, Value(key)) - 1
      ensures dataPos >= 0 ==> keyPos == Off(keyLength, dataPos)
      ensures dataPos < 0 ==> keyPos == -(keyLength as int)
      ensures found <==> Found(View().keys, Value(key))
    {
      hide Slots;
      hide Value;
      var prevCmp := -1;
      keyPos, dataPos := -(keyLength as int), -1;
      var k := 0;
      ghost var keys := View().keys;
      while k < usedKeySpace
        invariant -1 <= dataPos < keyCount && k == Off(keyLength, dataPos + 1) && keyPos == k - keyLength
        invariant dataPos >= 0 ==> keyPos == Off(keyLength, dataPos)
        invariant dataPos >= 0 ==> keys[dataPos] <= Value(key) && (prevCmp == 0 <==> keys[dataPos] == Value(key))
        invariant dataPos < 0 ==> prevCmp == -1
        decreases keyCount - dataPos
      {
        var next := ReadSlot(dataPos + 1, k);
        var cmp := MemCmp(key, next);
        MemCmpIsOrder(key, next);
        if cmp < 0 {
          break;
        }
        prevCmp := cmp;
        keyPos := keyPos + keyLength;
        dataPos := dataPos + 1;
        k := k + keyLength;
      }
      Offsets(keyLength, dataPos + 1, keyCount);
      found := prevCmp == 0;
      PassedUnique(keys, Value(key), dataPos + 1);
    }

    /** The bytes at an offset in use. */
    method ReadSlot(ghost i: nat, k: nat) returns (key: seq<byte>)
      requires Valid() && i <= keyCount && k == Off(keyLength, i) < usedKeySpace
      ensures i < keyCount && |key| == keyLength && Value(key) == View().keys[i]
      ensures Off(keyLength, i + 1) == k + keyLength
    {
      Offsets(keyLength, i, keyCount);
      ArenaBound(keySpace[..], keyLength, keyCount);
      key := keySpace[k..k + keyLength];
      SlotAt(keySpace[..], keyLength, i);
      assert keySpace[..][k..k + keyLength] == key;
    }

    /** `search_backward`: positions of the last key below the given one, or of the equal one. */
    method SearchBackward(key: seq<byte>) returns (keyPos: int, dataPos: int, found: bool)
      requires Valid() && |key| == keyLength
      ensures found <==> Found(View().keys, Value(key))
      ensures dataPos == Passed(View().keys, Value(key)) - if found then 1 else 0
      ensures 0 <= dataPos <= keyCount && keyPos == Off(keyLength, dataPos)
    {
      hide Slots;
      hide Value;
      hide Off;
      var prevCmp := -1;
      keyPos, dataPos := usedKeySpace, keyCount;
      ghost var keys := View().keys;
      var k := usedKeySpace - keyLength;
      while k >= 0
        invariant 0 <= dataPos <= keyCount && keyPos == Off(keyLength, dataPos) && k == keyPos - keyLength
        invariant dataPos < keyCount ==> Value(key) <= keys[dataPos] && (prevCmp == 0 <==> keys[dataPos] == Value(key))
        invariant dataPos == keyCount ==> prevCmp == -1
        decreases dataPos
      {
        SlotBefore(keyLength, dataPos, keyCount);
        var next := ReadSlot(dataPos - 1, k);
        var cmp := MemCmp(next, key);
        MemCmpIsOrder(next, key);
        if cmp < 0 {
          break;
        }
        prevCmp := cmp;
        keyPos := keyPos - keyLength;
        dataPos := dataPos - 1;
        k := k - keyLength;
      }
      SlotBefore(keyLength, dataPos, keyCount);
      found := prevCmp == 0;
      assert found && dataPos + 1 < keyCount ==> Less(keys, dataPos, dataPos + 1);
      PassedUnique(keys, Value(key), if found then dataPos + 1 else dataPos);
    }

    /** `iter_forward` from a key: the first key not below it. */
    method IterForward(key: seq<byte>) returns (keyPos: int, dataPos: int)
      requires Valid() && |key| == keyLength
      ensures IterOk(keyPos, dataPos)
      ensures dataPos == Passed(View().keys, Value(key)) - if Found(View().keys, Value(key)) then 1 else 0
    {
      hide Slots;
      hide Value;
      var found;
      keyPos, dataPos, found := SearchForward(key);
      if !found {
        keyPos, dataPos := keyPos + keyLength, dataPos + 1;
      }
    }

    /** `iter_backward` from a key: the last key not above it. */
    method IterBackward(key: seq<byte>) returns (keyPos: int, dataPos: int)
      requires Valid() && |key| == keyLength
      ensures IterOk(keyPos, dataPos)
      ensures dataPos == Passed(View().keys, Value(key)) - 1
    {
      hide Slots;
      hide Value;
      var found;
      keyPos, dataPos, found := SearchBackward(key);
      if !found {
        keyPos, dataPos := keyPos - keyLength, dataPos - 1;
      }
      IterBefore(keyLength, dataPos + 1);
    }

    /** `iter_forward` and `iter_backward` from an order. */
    method IterAt(order: nat) returns (keyPos: int, dataPos: int)
      requires Valid() && 1 <= order <= keyCount
      ensures IterOk(keyPos, dataPos) && dataPos == order - 1
    {
      OffIsMul(keyLength, order - 1);
      keyPos, dataPos := (order - 1) * keyLength, order - 1;
    }

    /** Key and data position of an iterator go together, also before the first key. */
    ghost predicate IterOk(keyPos: int, dataPos: int)
      reads this
    {
      -1 <= dataPos <= keyCount && keyPos == if dataPos >= 0 then Off(keyLength, dataPos) else -(keyLength as int)
    }

    /** `iter_next`: the key here and its data, and one step on; nothing behind the last key. */
    method IterNext(keyPos: int, dataPos: int)
      returns (key: seq<byte>, d: seq<int>, keyPos': int, dataPos': int)
      requires Valid() && IterOk(keyPos, dataPos) && dataPos >= 0
      ensures IterOk(keyPos', dataPos')
      ensures dataPos < keyCount ==>
                && |key| == keyLength && Value(key) == View().keys[dataPos] && d == [View().data[dataPos]]
                && dataPos' == dataPos + 1
      ensures dataPos == keyCount ==> d == [] && dataPos' == dataPos
    {
      hide Slots;
      hide Value;
      hide Off;
      Offsets(keyLength, dataPos, keyCount);
      key, d, keyPos', dataPos' := [], [], keyPos, dataPos;
      if keyPos < usedKeySpace {
        key := ReadSlot(dataPos, keyPos);
        d := [data[dataPos]];
        keyPos', dataPos' := keyPos + keyLength, dataPos + 1;
      }
    }

    /** `iter_prev`: the same the other way; nothing before the first key. */
    method IterPrev(keyPos: int, dataPos: int)
      returns (key: seq<byte>, d: seq<int>, keyPos': int, dataPos': int)
      requires Valid() && IterOk(keyPos, dataPos) && dataPos < keyCount
      ensures IterOk(keyPos', dataPos')
      ensures dataPos >= 0 ==>
                && |key| == keyLength && Value(key) == View().keys[dataPos] && d == [View().data[dataPos]]
                && dataPos' == dataPos - 1
      ensures dataPos < 0 ==> d == [] && dataPos' == dataPos
    {
      hide Slots;
      hide Value;
      hide Off;
      key, d, keyPos', dataPos' := [], [], keyPos, dataPos;
      if keyPos >= 0 {
        Offsets(keyLength, dataPos, keyCount);
        IterBefore(keyLength, dataPos);
        key := ReadSlot(dataPos, keyPos);
        d := [data[dataPos]];
        keyPos', dataPos' := keyPos - keyLength, dataPos - 1;
      }
    }

    /** `move_keys_right_by_the_key_length_from`: one overlapping memmove. */
    method MoveKeysRight(keyPos: nat)
      requires keyPos < usedKeySpace && usedKeySpace + keyLength <= keySpace.Length
      modifies keySpace
      ensures keySpace[..] == old(keySpace[..keyPos + keyLength]) + old(keySpace[keyPos..usedKeySpace])
                + old(keySpace[usedKeySpace + keyLength..])
    {
      forall i | keyPos <= i < usedKeySpace {
        keySpace[i + keyLength] := keySpace[i];
      }
      Shifted(old(keySpace[..]), keySpace[..], keyPos, usedKeySpace, keyPos + keyLength);
    }

    /** `move_keys_left_by_the_key_length_from`: the key before the position is overwritten. */
    method MoveKeysLeft(keyPos: nat)
      requires keyLength <= keyPos < usedKeySpace <= keySpace.Length
      modifies keySpace
      ensures keySpace[..] == old(keySpace[..keyPos - keyLength]) + old(keySpace[keyPos..usedKeySpace])
                + old(keySpace[usedKeySpace - keyLength..])
    {
      forall i | keyPos <= i < usedKeySpace {
        keySpace[i - keyLength] := keySpace[i];
      }
      Shifted(old(keySpace[..]), keySpace[..], keyPos, usedKeySpace, keyPos - keyLength);
    }

    /** `move_data_right_by_one_from`. */
    method MoveDataRight(dataPos: nat)
      requires dataPos < keyCount < data.Length
      modifies data
      ensures data[..keyCount + 1] == old(data[..dataPos + 1]) + old(data[dataPos..keyCount])
    {
      forall i | dataPos <= i < keyCount {
        data[i + 1] := data[i];
      }
    }

    /** `move_data_left_by_one_from`. */
    method MoveDataLeft(dataPos: nat)
      requires 0 < dataPos < keyCount <= data.Length
      modifies data
      ensures data[..keyCount - 1] == old(data[..dataPos - 1]) + old(data[dataPos..keyCount])
    {
      forall i | dataPos <= i < keyCount {
        data[i - 1] := data[i];
      }
    }

    /** `set_key_data_at`. */
    method SetKeyDataAt(keyPos: nat, dataPos: nat, key: seq<byte>, d: int)
      requires |key| == keyLength && keyPos + keyLength <= keySpace.Length && dataPos < data.Length
      modifies keySpace, data
      ensures keySpace[..] == old(keySpace[..keyPos]) + key + old(keySpace[keyPos + keyLength..])
      ensures data[..] == old(data[..])[dataPos := d]
    {
      forall i | 0 <= i < keyLength {
        keySpace[keyPos + i] := key[i];
      }
      assert keySpace[keyPos..keyPos + keyLength] == key;
      data[dataPos] := d;
    }

    /** `insert_key_data_at`. */
    method InsertKeyDataAt(keyPos: nat, dataPos: nat, key: seq<byte>, d: int)
      requires |key| == keyLength > 0 && dataPos <= keyCount < data.Length
      requires keyPos <= usedKeySpace && usedKeySpace + keyLength <= keySpace.Length
      requires keyPos == usedKeySpace <==> dataPos == keyCount
      modifies this`keyCount, this`usedKeySpace, keySpace, data
      ensures keyCount == old(keyCount) + 1 && usedKeySpace == old(usedKeySpace) + keyLength
      ensures keySpace[..] == Inserted(old(keySpace[..]), keyPos, old(usedKeySpace), key)
      ensures data[..keyCount] == InsertAt(old(data[..keyCount]), dataPos, d)
    {
      if keyPos != usedKeySpace {
        MoveKeysRight(keyPos);
        MoveDataRight(dataPos);
      }
      SetKeyDataAt(keyPos, dataPos, key, d);
      keyCount := keyCount + 1;
      usedKeySpace := usedKeySpace + keyLength;
    }

    /** `remove_key_data_at`. */
    method RemoveKeyDataAt(keyPos: nat, dataPos: nat)
      requires 0 < keyLength && dataPos < keyCount <= data.Length
      requires keyPos + keyLength <= usedKeySpace <= keySpace.Length
      requires keyPos + keyLength == usedKeySpace <==> dataPos + 1 == keyCount
      modifies this`keyCount, this`usedKeySpace, keySpace, data
      ensures keyCount == old(keyCount) - 1 && usedKeySpace == old(usedKeySpace) - keyLength
      ensures keySpace[..] == Removed(old(keySpace[..]), keyPos, old(usedKeySpace), keyLength)
      ensures data[..keyCount] == RemoveAt(old(data[..keyCount]), dataPos)
    {
      if keyPos + keyLength != usedKeySpace {
        MoveKeysLeft(keyPos + keyLength);
        MoveDataLeft(dataPos + 1);
      } else {
        NothingMoved(keySpace[..], keyPos, usedKeySpace);
      }
      keyCount := keyCount - 1;
      usedKeySpace := usedKeySpace - keyLength;
    }

    /** `is_full`. */
    method TestFull() returns (full: bool)
      requires Valid()
      ensures full <==> IsFull(View())
    {
      full := !(usedKeySpace + keyLength <= keySpace.Length);
      ArenaBound(keySpace[..], keyLength, keyCount);
    }

    /** `put`. */
    method Put(key: seq<byte>, d: int)
      requires Valid() && |key| == keyLength
      requires Found(View().keys, Value(key)) || !IsFull(View())
      modifies this`keyCount, this`usedKeySpace, keySpace, data
      ensures Valid() && View() == SortedView.Put(old(View()), Value(key), d)
    {
      hide Slots;
      hide Value;
      var keyPos, dataPos, found := SearchForward(key);
      if found {
        data[dataPos] := d;
      } else {
        PutNew(keyPos + keyLength, dataPos + 1, key, d);
      }
    }

    method PutNew(keyPos: nat, dataPos: nat, key: seq<byte>, d: int)
      requires Valid() && |key| == keyLength && !IsFull(View())
      requires dataPos == Passed(View().keys, Value(key)) && keyPos == Off(keyLength, dataPos)
      requires !Found(View().keys, Value(key))
      modifies this`keyCount, this`usedKeySpace, keySpace, data
      ensures Valid() && View() == SortedView.Put(old(View()), Value(key), d)
    {
      hide Slots;
      hide Value;
      hide Off;
      hide Inserted;
      ghost var s, v := keySpace[..], View();
      ArenaBound(s, keyLength, keyCount);
      InsertPieces(s, keyLength, dataPos, keyCount, key);
      PutWf(v, Value(key), d, maxKeyCount);
      InsertKeyDataAt(keyPos, dataPos, key, d);
    }

    /** `del`: the data of the removed key, or nothing. */
    method Del(key: seq<byte>) returns (was: seq<int>)
      requires Valid() && |key| == keyLength
      modifies this`keyCount, this`usedKeySpace, keySpace, data
      ensures Valid() && View() == SortedView.Del(old(View()), Value(key))
      ensures was == if Found(old(View()).keys, Value(key))
                     then [old(View()).data[Passed(old(View()).keys, Value(key)) - 1]] else []
    {
      hide Slots;
      hide Value;
      var keyPos, dataPos, found := SearchForward(key);
      if found {
        was := [data[dataPos]];
        DelFound(keyPos, dataPos, key);
      } else {
        was := [];
      }
    }

    method DelFound(keyPos: nat, dataPos: nat, key: seq<byte>)
      requires Valid() && Found(View().keys, Value(key))
      requires dataPos == Passed(View().keys, Value(key)) - 1 && keyPos == Off(keyLength, dataPos)
      modifies this`keyCount, this`usedKeySpace, keySpace, data
      ensures Valid() && View() == SortedView.Del(old(View()), Value(key))
    {
      hide Slots;
      hide Value;
      hide Off;
      hide Removed;
      ghost var s, v := keySpace[..], View();
      DelWf(v, Value(key), maxKeyCount);
      ArenaBound(s, keyLength, keyCount);
      RemovePieces(s, keyLength, dataPos, keyCount);
      RemoveKeyDataAt(keyPos, dataPos);
    }

    /** `get` by key: the data and the 1-based position, or nothing and 0. */
    method Get(key: seq<byte>) returns (d: seq<int>, order: nat)
      requires Valid() && |key| == keyLength
      ensures Value(key) in View().keys <==> |d| == 1
      ensures |d| == 1 ==>
                && 1 <= order <= keyCount && View().keys[order - 1] == Value(key)
                && d == [View().data[order - 1]]
      ensures |d| != 1 ==> d == [] && order == 0
    {
      hide Slots;
      hide Value;
      var keyPos, dataPos, found := SearchForward(key);
      FoundIsMember(View().keys, Value(key));
      if found {
        d, order := [data[dataPos]], dataPos + 1;
      } else {
        d, order := [], 0;
      }
    }

    /** `get` by position. */
    method GetAt(order: nat) returns (key: seq<byte>, d: int)
      requires Valid() && 1 <= order <= keyCount
      ensures |key| == keyLength && Value(key) == View().keys[order - 1] && d == View().data[order - 1]
    {
      OffIsMul(keyLength, order - 1);
      Offsets(keyLength, order - 1, keyCount);
      key := ReadSlot(order - 1, (order - 1) * keyLength);
      d := data[order - 1];
    }

    /** `remove_max_key`. The position returned is a pointer to the removed key: its bytes stay in
        the first slot behind the live ones, and can be read there. */
    method RemoveMaxKey() returns (keyPos: int, d: seq<int>)
      requires Valid()
      modifies this`keyCount, this`usedKeySpace, keySpace, data
      ensures Valid()
      ensures old(keyCount) == 0 ==> d == [] && View() == old(View())
      ensures old(keyCount) > 0 ==>
                && View() == SortedView.RemoveMax(old(View()))
                && d == [old(View()).data[|old(View()).data| - 1]]
                && keyPos == usedKeySpace && keyPos + keyLength <= keySpace.Length && View().stale != []
                && Value(keySpace[keyPos..keyPos + keyLength]) == View().stale[0]
                && View().stale[0] == old(View()).keys[|old(View()).keys| - 1]
    {
      hide Slots;
      hide Value;
      hide Off;
      keyPos, d := -1, [];
      if keyCount > 0 {
        ghost var s, v := keySpace[..], View();
        RemoveMaxWf(v, maxKeyCount);
        MaxPieces(s, keyLength, keyCount);
        hide Wf;
        keyPos := usedKeySpace - keyLength;
        d := [data[keyCount - 1]];
        RemoveKeyDataAt(keyPos, keyCount - 1);
        NothingMoved(s, keyPos, keyPos + keyLength);
        assert keySpace[..] == s;
        assert keySpace[keyPos..keyPos + keyLength] == s[keyPos..keyPos + keyLength];
      }
    }

    /** The copying `init`: n keys' bytes and pointers become the content, whatever it was before, and
        whatever the key length was. */
    method InitFrom(length: nat, n: nat, bytes: seq<byte>, pointers: seq<int>)
      requires 0 < length && n <= keySpace.Length / length && data.Length == keySpace.Length
      requires |bytes| == Off(length, n) && |pointers| == n && Ascending(Slots(bytes, length))
      modifies this`keyLength, this`maxKeyCount, this`keyCount, this`usedKeySpace, keySpace, data
      ensures Valid() && keyLength == length && maxKeyCount == keySpace.Length / length
      ensures var was := old(Slots(keySpace[..], length));
              n <= |was| && View() == SArr(Slots(bytes, length), pointers, was[n..])
    {
      hide Slots;
      hide Value;
      hide Off;
      ghost var s := keySpace[..];
      MaxKeys(s, length);
      QuotientBound(|s|, length);
      ArenaBound(s, length, n);
      forall i | 0 <= i < |bytes| {
        keySpace[i] := bytes[i];
      }
      forall i | 0 <= i < n {
        data[i] := pointers[i];
      }
      assert keySpace[..] == bytes + s[|bytes|..];
      assert s == s[..|bytes|] + s[|bytes|..];
      SlotsConcat(bytes, s[|bytes|..], length, n);
      SlotsConcat(s[..|bytes|], s[|bytes|..], length, n);
      maxKeyCount := keySpace.Length / length;
      keyCount, usedKeySpace, keyLength := n, |bytes|, length;
    }

    /** `split`: the upper half of the keys is copied into the empty array `right`; the bytes also
        stay behind the keys kept. */
    method Split(right: SortedArray)
      requires Valid() && right.Valid() && keyCount >= 2
      requires right.keyLength == keyLength && right.keyCount == 0 && right.maxKeyCount == maxKeyCount
      requires right != this && keySpace != right.keySpace && data != right.data
      modifies this`keyCount, this`usedKeySpace
      modifies right`keyLength, right`maxKeyCount, right`keyCount, right`usedKeySpace, right.keySpace, right.data
      ensures right.keyLength == old(right.keyLength) && right.maxKeyCount == old(right.maxKeyCount)
      ensures Valid() && View() == SplitLeft(old(View()))
      ensures right.Valid() && right.View() == SplitRight(old(View()), old(right.View()).stale[old(keyCount) / 2..])
    {
      hide Slots;
      hide Value;
      hide Off;
      var rightCount := keyCount / 2;
      var newCount := keyCount - rightCount;
      Offsets(keyLength, newCount, keyCount);
      OffIsMul(keyLength, rightCount);
      var newUsed := usedKeySpace - rightCount * keyLength;
      ghost var s, v := keySpace[..], View();
      ArenaBound(s, keyLength, keyCount);
      UpperHalf(s, keyLength, newCount, keyCount);
      SplitWf(v, right.View().stale[rightCount..], maxKeyCount);
      MaxKeys(right.keySpace[..], keyLength);
      hide Ascending;
      hide Wf;
      assert keySpace[newUsed..usedKeySpace] == s[newUsed..usedKeySpace];
      right.InitFrom(keyLength, rightCount, keySpace[newUsed..usedKeySpace], data[newCount..keyCount]);
      keyCount, usedKeySpace := newCount, newUsed;
    }
  }

  /** The bytes of slots m to n are those slots' keys. */
  lemma UpperHalf(s: seq<byte>, len: nat, m: nat, n: nat)
    requires len > 0 && m <= n && Off(len, m) <= Off(len, n) <= |s|
    ensures var all := Slots(s, len);
            && n <= |all| && Slots(s[Off(len, m)..Off(len, n)], len) == all[m..n]
            && all[..n][..m] == all[..m] && all[..n][m..] == all[m..n] && all[m..n] + all[n..] == all[m..]
  {
    hide Slots;
    Offsets(len, m, n);
    var from, to := Off(len, m), Off(len, n);
    hide Off;
    assert s == s[..from] + s[from..to] + s[to..];
    SlotsConcat2(s[..from], s[from..to], s[to..], len, m, n - m);
  }

  lemma RemoveMaxWf(a: SArr<int>, cap: nat)
    requires Wf(a, cap) && |a.keys| > 0
    ensures Wf(SortedView.RemoveMax(a), cap)
  {
    SliceAscending(a.keys, 0, |a.keys| - 1);
    assert a.keys[0..|a.keys| - 1] == a.keys[..|a.keys| - 1];
  }

  lemma LastSlot(all: seq<int>, n: nat)
    requires 0 < n <= |all|
    ensures all[n - 1..] == [all[n - 1]] + all[n..] && all[..n][..n - 1] == all[..n - 1]
  {
  }

  /** The last of n slots, and the slots without it. */
  lemma MaxPieces(s: seq<byte>, len: nat, n: nat)
    requires len > 0 && 0 < n <= |Slots(s, len)|
    ensures Off(len, n) <= |s| && Off(len, n - 1) == Off(len, n) - len
    ensures var all := Slots(s, len);
            && all[n - 1] == Value(s[Off(len, n) - len..Off(len, n)])
            && all[n - 1..] == [all[n - 1]] + all[n..] && all[..n][..n - 1] == all[..n - 1]
  {
    hide Slots;
    hide Value;
    ArenaBound(s, len, n);
    Offsets(len, n - 1, n);
    LastSlot(Slots(s, len), n);
    SlotAt(s, len, n - 1);
  }

  /** The value after an insertion at slot p of n. */
  lemma InsertPieces(s: seq<byte>, len: nat, p: nat, n: nat, key: seq<byte>)
    requires len > 0 && |key| == len && p <= n && Off(len, n) + len <= |s|
    ensures Off(len, p) <= Off(len, n) && (Off(len, p) == Off(len, n) <==> p == n)
    ensures Off(len, n + 1) == Off(len, n) + len
    ensures var s' := Inserted(s, Off(len, p), Off(len, n), key);
            var all, all' := Slots(s, len), Slots(s', len);
            && n < |all| == |all'|
            && all'[..n + 1] == InsertAt(all[..n], p, Value(key))
            && all'[n + 1..] == all[n..][1..]
  {
    hide Slots;
    hide Value;
    Offsets(len, p, n);
    var from, used := Off(len, p), Off(len, n);
    var a, b, r, c := s[..from], s[from..used], s[used..used + len], s[used + len..];
    hide Off;
    assert s == a + b + r + c;
    InsertedSlots(a, b, r, c, key, len, p, n - p);
    ViewInserted(Slots(s, len), Slots(a + key + b + c, len), p, n, Value(key));
  }

  lemma ViewInserted(all: seq<int>, all': seq<int>, p: nat, n: nat, k: int)
    requires p <= n < |all| && all' == all[..p] + [k] + all[p..n] + all[n + 1..]
    ensures |all'| == |all| && all'[..n + 1] == InsertAt(all[..n], p, k) && all'[n + 1..] == all[n..][1..]
  {
  }

  /** The value after the removal of slot p of n. */
  lemma RemovePieces(s: seq<byte>, len: nat, p: nat, n: nat)
    requires len > 0 && p < n && Off(len, n) <= |s|
    ensures Off(len, p) + len <= Off(len, n) && (Off(len, p) + len == Off(len, n) <==> p + 1 == n)
    ensures Off(len, n - 1) == Off(len, n) - len
    ensures var s' := Removed(s, Off(len, p), Off(len, n), len);
            var all, all' := Slots(s, len), Slots(s', len);
            && n <= |all| == |all'|
            && all'[..n - 1] == RemoveAt(all[..n], p)
            && all'[n - 1..] == [all[n - 1]] + all[n..]
  {
    hide Slots;
    Offsets(len, p, n);
    Offsets(len, n - 1, n);
    var from, used := Off(len, p), Off(len, n);
    var a, k, b, c := s[..from], s[from..from + len], s[from + len..used], s[used..];
    var before, last := s[..used - len], s[used - len..];
    hide Off;
    FourPieces(s, from, from + len, used);
    assert s == before + last;
    RemovedSlots(a, k, b, c, before, last, len, p, n - p - 1);
    ViewRemoved(Slots(s, len), Slots(a + b + last, len), p, n);
  }

  lemma ViewRemoved(all: seq<int>, all': seq<int>, p: nat, n: nat)
    requires p < n <= |all| && all' == all[..p] + all[p + 1..n] + all[n - 1..]
    ensures |all'| == |all| && all'[..n - 1] == RemoveAt(all[..n], p) && all'[n - 1..] == [all[n - 1]] + all[n..]
  {
  }

  lemma QuotientBound(size: nat, len: nat)
    requires len > 0
    ensures size / len <= size
  {
    Carry(1, len, size / len);
  }

  lemma MaxKeys(s: seq<byte>, len: nat)
    requires len > 0
    ensures |Slots(s, len)| == |s| / len
  {
    var n := |Slots(s, len)|;
    SlotsCount(s, len);
    SlotsFit(len, |s|, n);
    SlotsFit(len, |s|, n + 1);
    OffShift(len, n);
  }

  /** The first n slots lie inside the arena. */
  lemma ArenaBound(s: seq<byte>, len: nat, n: nat)
    requires len > 0 && n <= |Slots(s, len)|
    ensures Off(len, n) <= |s|
    ensures n < |Slots(s, len)| <==> Off(len, n) + len <= |s|
  {
    SlotsCount(s, len);
    hide Slots;
    Offsets(len, n, |Slots(s, len)|);
  }
}
