/**
  The growable output buffer of `src/block/tx.c` and the append functions on top of it.

  `realloc` may fail at any call: the heap answers as it likes, and an append fails exactly when it is refused memory.
  The capacity and length fields are 64-bit
  `size_t`; buffers up to `MAX_BUFFER` bytes are modelled, which is exactly the range in which the doubling
  loop comes to an end (`DoublingEndsExactly`).
 */
module RlpBuffers {
  import opened Bytes
  import opened Rlp
  import opened Heaps

  const MAX_BUFFER: nat := 0x8000_0000_0000_0000

  /** The capacities a buffer goes through: 64, 128, 256, ... */
  function Capacity(j: nat): (c: nat)
    ensures c >= 64
  {
    if j == 0 then 64 else 2 * Capacity(j - 1)
  }

  ghost predicate IsCapacity(c: nat) { exists j: nat :: c == Capacity(j) }

  lemma DoubleCapacity(c: nat)
    requires IsCapacity(c)
    ensures IsCapacity(2 * c)
  {
    var j: nat :| c == Capacity(j);
    assert 2 * c == Capacity(j + 1);
  }

  /** `new_cap` after `n` rounds of `new_cap *= 2` in 64 bits, starting from `c`. */
  function Doubled(c: nat, n: nat): nat
    decreases n
  {
    if n == 0 then c else Doubled(Cast64(2 * c), n - 1)
  }

  /**
    The doubling loop, run in 64-bit arithmetic from any capacity a buffer can have, reaches the needed size
    exactly when that size is at most 2^63. Past it the capacity wraps to 0 and stays there.
   */
  lemma DoublingEndsExactly(j: nat, needed: nat)
    requires Capacity(j) <= MAX_BUFFER
    ensures needed <= MAX_BUFFER <==> exists n: nat :: Doubled(Capacity(j), n) >= needed
  {
    if needed <= MAX_BUFFER {
      var n := DoublingReaches(j, needed);
    } else {
      forall n: nat
        ensures Doubled(Capacity(j), n) < needed
      {
        DoublingStaysBelow(j, n);
      }
    }
  }

  lemma {:induction false} DoublingReaches(j: nat, needed: nat) returns (n: nat)
    requires needed <= MAX_BUFFER
    requires Capacity(j) <= MAX_BUFFER
    ensures Doubled(Capacity(j), n) >= needed
    decreases MAX_BUFFER - Capacity(j)
  {
    if Capacity(j) >= needed {
      n := 0;
    } else {
      CapacityGap(j);
      var m := DoublingReaches(j + 1, needed);
      n := m + 1;
    }
  }

  lemma {:induction false} DoublingStaysBelow(j: nat, n: nat)
    requires Capacity(j) <= MAX_BUFFER
    ensures Doubled(Capacity(j), n) <= MAX_BUFFER
    decreases n
  {
    if n > 0 {
      if Capacity(j) == MAX_BUFFER {
        DoubledZero(n - 1);
      } else {
        CapacityGap(j);
        DoublingStaysBelow(j + 1, n - 1);
      }
    }
  }

  lemma {:induction false} DoubledZero(n: nat)
    ensures Doubled(0, n) == 0
  {
    if n > 0 {
      DoubledZero(n - 1);
    }
  }

  /** 2^63 is itself a capacity, and there is none strictly between it and its half. */
  lemma CapacityGap(j: nat)
    requires Capacity(j) < MAX_BUFFER
    ensures Capacity(j + 1) <= MAX_BUFFER
  {
    CapacityTop();
    if j >= 57 {
      CapacityMonotone(57, j);
    } else {
      CapacityMonotone(j + 1, 57);
    }
  }

  lemma {:induction false} CapacityMonotone(i: nat, j: nat)
    requires i <= j
    ensures Capacity(i) <= Capacity(j)
  {
    if i < j {
      CapacityMonotone(i, j - 1);
    }
  }

  lemma CapacityTop()
    ensures Capacity(57) == MAX_BUFFER
  {
    assert Capacity(12) == 0x4_0000;
    assert Capacity(24) == 0x4000_0000;
    assert Capacity(36) == 0x400_0000_0000;
    assert Capacity(48) == 0x40_0000_0000_0000;
  }

  /** The capacity does not depend on how the bytes arrived: it is the least one that holds them. */
  lemma LeastCapacity(j: nat, len: nat, i: nat)
    requires len <= Capacity(j) && (Capacity(j) <= 64 || Capacity(j) < 2 * len)
    requires len <= Capacity(i)
    ensures Capacity(j) <= Capacity(i)
  {
    if i < j {
      CapacityMonotone(i, j - 1);
    } else {
      CapacityMonotone(j, i);
    }
  }

  class RlpBuffer {
    var data: array<byte>
    var len: nat
    var cap: nat
    ghost var moved: nat // bytes of capacity given up in all reallocations so far

    ghost predicate Shape()
      reads this
    {
      && data.Length == cap
      && len <= cap <= MAX_BUFFER
      && (cap == 0 || IsCapacity(cap))
      && moved <= cap
    }

    /** Never more than twice what is needed, beyond the first 64 bytes. */
    ghost predicate Valid()
      reads this
    {
      Shape() && (cap <= 64 || cap < 2 * len)
    }

    ghost function Contents(): seq<byte>
      reads this, data
      requires Shape()
    {
      data[..len]
    }

    constructor ()
      ensures Valid() && fresh(data) && Contents() == [] && cap == 0 && moved == 0
    {
      data := new byte[0];
      len, cap, moved := 0, 0, 0;
    }

    method Reserve(heap: Heap, additional: nat) returns (ok: bool)
      requires Valid() && len + additional <= MAX_BUFFER
      modifies this, heap
      ensures old(heap.calls) <= heap.calls && (ok <==> heap.Granted(old(heap.calls)))
      ensures moved == old(moved) + (if cap == old(cap) then 0 else old(cap))
      ensures Shape() && len == old(len) && Contents() == old(Contents())
      ensures data == old(data) || fresh(data)
      ensures ok ==> len + additional <= cap && (cap == old(cap) || cap <= 64 || cap < 2 * (len + additional))
      ensures !ok ==> unchanged(this) && cap < len + additional
    {
      var needed := len + additional;
      var newCap := if cap != 0 then cap else 64;
      if needed <= cap {
        return true;
      }
      assert IsCapacity(64) by {
        assert 64 == Capacity(0);
      }
      while newCap < needed
        invariant cap <= newCap <= MAX_BUFFER && IsCapacity(newCap)
        invariant newCap == cap || newCap <= 64 || newCap < 2 * needed
        invariant cap == 0 || newCap == cap || 2 * cap <= newCap
        decreases MAX_BUFFER - newCap
        modifies {}
      {
        ghost var j: nat :| newCap == Capacity(j);
        CapacityGap(j);
        DoubleCapacity(newCap);
        newCap := newCap * 2;
      }
      var granted := heap.Request();
      if !granted {
        return false;
      }
      var newData := new byte[newCap];
      forall i | 0 <= i < len {
        newData[i] := data[i];
      }
      moved := moved + cap;
      data, cap := newData, newCap;
      ok := true;
    }

    method Append(heap: Heap, src: seq<byte>) returns (ok: bool)
      requires Valid() && len + |src| <= MAX_BUFFER
      modifies this, data, heap
      ensures old(heap.calls) <= heap.calls && (ok <==> heap.Granted(old(heap.calls)))
      ensures Valid() && (data == old(data) || fresh(data))
      ensures moved == old(moved) + (if cap == old(cap) then 0 else old(cap))
      ensures Appended(old(Contents()), src, ok, Contents())
      ensures !ok ==> Contents() == old(Contents()) && cap == old(cap) < old(len) + |src|
    {
      ok := Reserve(heap, |src|);
      if !ok {
        return;
      }
      ghost var before := Contents();
      var start := len;
      forall i | 0 <= i < |src| {
        data[start + i] := src[i];
      }
      len := len + |src|;
      assert Contents() == before + src;
    }

    method AppendByte(heap: Heap, value: byte) returns (ok: bool)
      requires Valid() && len + 1 <= MAX_BUFFER
      modifies this, data, heap
      ensures old(heap.calls) <= heap.calls && (ok <==> heap.Granted(old(heap.calls)))
      ensures Valid() && (data == old(data) || fresh(data))
      ensures Appended(old(Contents()), [value], ok, Contents())
    {
      ok := Append(heap, [value]);
    }

    /** Two appends in a row; the second is not tried if the first fails. */
    method AppendTwo(heap: Heap, a: seq<byte>, b: seq<byte>) returns (ok: bool)
      requires Valid() && len + |a| + |b| <= MAX_BUFFER
      modifies this, data, heap
      ensures old(heap.calls) <= heap.calls && (ok <==> heap.Granted(old(heap.calls)))
      ensures Valid() && (data == old(data) || fresh(data))
      ensures Appended(old(Contents()), a + b, ok, Contents())
    {
      ghost var before := Contents();
      ok := Append(heap, a);
      ghost var between := Contents();
      if ok {
        ok := Append(heap, b);
        AppendedTwice(before, a, between, b, ok, Contents());
      } else {
        AppendedPart(before, a, b, between);
      }
    }

    method AppendLength(heap: Heap, n: nat, shortBase: byte, longBase: byte) returns (ok: bool)
      requires n < U64
      requires Valid() && len + |Header(n, shortBase, longBase)| <= MAX_BUFFER
      modifies this, data, heap
      ensures old(heap.calls) <= heap.calls && (ok <==> heap.Granted(old(heap.calls)))
      ensures Valid() && (data == old(data) || fresh(data))
      ensures Appended(old(Contents()), Header(n, shortBase, longBase), ok, Contents())
    {
      if n <= 55 {
        ok := AppendByte(heap, Cast8(shortBase + n));
      } else {
        var bytes := MinimalBytes(n);
        var prefix := Cast8(longBase + |bytes|);
        assert [prefix] + bytes == Header(n, shortBase, longBase);
        ok := AppendTwo(heap, [prefix], bytes);
      }
    }

    method AppendBytes(heap: Heap, s: seq<byte>) returns (ok: bool)
      requires Valid() && len + |EncBytes(s)| <= MAX_BUFFER
      modifies this, data, heap
      ensures old(heap.calls) <= heap.calls && (ok <==> heap.Granted(old(heap.calls)))
      ensures Valid() && (data == old(data) || fresh(data))
      ensures Appended(old(Contents()), EncBytes(s), ok, Contents())
    {
      if |s| == 1 && s[0] <= 0x7f {
        assert EncBytes(s) == [s[0]];
        ok := AppendByte(heap, s[0]);
        return;
      }
      ghost var before := Contents();
      ok := AppendLength(heap, |s|, 0x80, 0xb7);
      ghost var between := Contents();
      if ok {
        ok := Append(heap, s);
        AppendedTwice(before, Head(s), between, s, ok, Contents());
      } else {
        AppendedPart(before, Head(s), s, between);
      }
    }

    method AppendUint64(heap: Heap, value: uint64) returns (ok: bool)
      requires Valid() && len + |EncBytes(MinBE(value))| <= MAX_BUFFER
      modifies this, data, heap
      ensures old(heap.calls) <= heap.calls && (ok <==> heap.Granted(old(heap.calls)))
      ensures Valid() && (data == old(data) || fresh(data))
      ensures Appended(old(Contents()), EncBytes(MinBE(value)), ok, Contents())
    {
      var bytes := MinimalBytes(value);
      ok := AppendBytes(heap, bytes);
    }

    method AppendBytes32(heap: Heap, value: Word) returns (ok: bool)
      requires Valid() && len + |EncBytes(Strip(value))| <= MAX_BUFFER
      modifies this, data, heap
      ensures old(heap.calls) <= heap.calls && (ok <==> heap.Granted(old(heap.calls)))
      ensures Valid() && (data == old(data) || fresh(data))
      ensures Appended(old(Contents()), EncBytes(Strip(value)), ok, Contents())
    {
      var offset := 0;
      while offset < 32 && value[offset] == 0
        invariant 0 <= offset <= 32
        invariant Strip(value[offset..]) == Strip(value)
      {
        assert value[offset..][1..] == value[offset + 1..];
        offset := offset + 1;
      }
      ok := AppendBytes(heap, value[offset..]);
    }

    method AppendAddress(heap: Heap, addr: Addr, isNull: bool) returns (ok: bool)
      requires Valid() && len + |EncBytes(if isNull then [] else addr)| <= MAX_BUFFER
      modifies this, data, heap
      ensures old(heap.calls) <= heap.calls && (ok <==> heap.Granted(old(heap.calls)))
      ensures Valid() && (data == old(data) || fresh(data))
      ensures Appended(old(Contents()), EncBytes(if isNull then [] else addr), ok, Contents())
    {
      ok := AppendBytes(heap, if isNull then [] else addr);
    }

    method WrapList(heap: Heap, payload: RlpBuffer) returns (ok: bool)
      requires Valid() && payload.Valid() && payload != this && payload.data != data
      requires len + |EncList(payload.Contents())| <= MAX_BUFFER
      modifies this, data, heap
      ensures old(heap.calls) <= heap.calls && (ok <==> heap.Granted(old(heap.calls)))
      ensures Valid() && (data == old(data) || fresh(data))
      ensures Appended(old(Contents()), EncList(old(payload.Contents())), ok, Contents())
    {
      ghost var before, body := Contents(), payload.Contents();
      ghost var head := Header(|body|, 0xc0, 0xf7);
      ok := AppendLength(heap, payload.len, 0xc0, 0xf7);
      ghost var between := Contents();
      if ok {
        ok := Append(heap, payload.data[..payload.len]);
        AppendedTwice(before, head, between, body, ok, Contents());
      } else {
        AppendedPart(before, head, body, between);
      }
    }
  }

  /** A successful append adds exactly `e`; one whose allocation failed has added a part of it. */
  predicate Appended(before: seq<byte>, e: seq<byte>, ok: bool, after: seq<byte>)
  {
    if ok then after == before + e else before <= after <= before + e
  }

  lemma AppendedTwice(before: seq<byte>, a: seq<byte>, between: seq<byte>, b: seq<byte>, ok: bool, after: seq<byte>)
    requires Appended(before, a, true, between) && Appended(between, b, ok, after)
    ensures Appended(before, a + b, ok, after)
  {
    assert before + a + b == before + (a + b);
  }

  lemma AppendedPart(before: seq<byte>, a: seq<byte>, b: seq<byte>, after: seq<byte>)
    requires Appended(before, a, false, after)
    ensures Appended(before, a + b, false, after)
  {
    assert before + a + b == before + (a + b);
  }

  /** The digit loop shared by `rlp_append_length` and `rlp_append_uint64`: fill eight bytes from the right. */
  method MinimalBytes(value: nat) returns (s: seq<byte>)
    requires value < U64
    ensures s == MinBE(value)
  {
    var bytes := new byte[8];
    var rest, n := value, 0;
    MinBELength64(value);
    while rest > 0
      invariant 0 <= n <= 8
      invariant MinBE(value) == MinBE(rest) + bytes[8 - n..]
      decreases rest
    {
      ShiftSplits(rest);
      ghost var tail := bytes[8 - n..];
      assert n < 8 by {
        MinBENoLeadingZero(rest);
      }
      bytes[7 - n] := Cast8(rest);
      assert bytes[7 - n..] == [Cast8(rest)] + tail;
      rest := Shr8(rest);
      n := n + 1;
    }
    s := bytes[8 - n..];
  }
}
