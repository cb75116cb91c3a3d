/** Bytes, 64-bit words and big-endian numerals, shared by the codecs and the 256-bit arithmetic. */
module Bytes {

  const U64: nat := 0x1_0000_0000_0000_0000

  type byte = b: int | 0 <= b < 256
  type uint64 = n: int | 0 <= n < U64

  /** `evmdb_bytes32_t`, `evmdb_hash_t` and `evmdb_address_t`: fixed-width byte strings. */
  type Word = s: seq<byte> | |s| == 32 witness Zeros(32)
  type Addr = s: seq<byte> | |s| == 20 witness Zeros(20)

  /** C text without its NUL, and Redis keys, fields and values. */
  type Text = seq<byte>

  /** A text written out. */
  function Ascii(s: string): (t: Text)
    ensures |t| == |s| && forall i :: 0 <= i < |s| && s[i] as int < 256 ==> t[i] == s[i] as int
  {
    seq(|s|, i requires 0 <= i < |s| => if s[i] as int < 256 then s[i] as int else 0)
  }

  datatype Option<+T> = None | Some(value: T)

  function Zeros(n: nat): (s: seq<byte>)
    ensures |s| == n && forall i :: 0 <= i < n ==> s[i] == 0
  {
    seq(n, _ => 0)
  }

  const ZERO_WORD: Word := Zeros(32)
  const ZERO_ADDR: Addr := Zeros(20)

  function Min(a: nat, b: nat): nat { if a < b then a else b }

  // Shifts and casts are defined by subtraction, so that unfolding them never brings in a division.

  /** `n >> 8` */
  function Shr8(n: nat): nat { if n < 256 then 0 else 1 + Shr8(n - 256) }

  /** The cast to `uint8_t`. */
  function Cast8(n: nat): byte { if n < 256 then n else Cast8(n - 256) }

  lemma {:induction false} ShiftSplits(n: nat)
    ensures n == 256 * Shr8(n) + Cast8(n)
  {
    if n >= 256 {
      ShiftSplits(n - 256);
    }
  }

  /** The cast to a 64-bit `size_t` or `uint64_t`. */
  function Cast64(n: nat): uint64 { if n < U64 then n else Cast64(n - U64) }

  function Pow256(n: nat): (p: nat)
    ensures p >= 1
  {
    if n == 0 then 1 else 256 * Pow256(n - 1)
  }

  /** The number that a big-endian byte string denotes. */
  function BE(s: seq<byte>): nat
  {
    if s == [] then 0 else BE(s[..|s| - 1]) * 256 + s[|s| - 1]
  }

  /** The shortest big-endian byte string of a number: no leading zero, empty for 0. */
  function MinBE(n: nat): seq<byte>
  {
    if n == 0 then [] else ShiftSplits(n); MinBE(Shr8(n)) + [Cast8(n)]
  }

  /** A byte string without its leading zero bytes. */
  function Strip(s: seq<byte>): (r: seq<byte>)
    ensures |r| <= |s|
    ensures r == s[|s| - |r|..]
    ensures r == [] || r[0] != 0
    ensures forall i :: 0 <= i < |s| - |r| ==> s[i] == 0
  {
    if s == [] || s[0] != 0 then s else Strip(s[1..])
  }

  /** A byte string right-aligned in `n` bytes. */
  function PadLeft(s: seq<byte>, n: nat): (r: seq<byte>)
    requires |s| <= n
    ensures |r| == n
  {
    Zeros(n - |s|) + s
  }

  lemma {:induction false} BEBound(s: seq<byte>)
    ensures BE(s) < Pow256(|s|)
  {
    if s != [] {
      BEBound(s[..|s| - 1]);
    }
  }

  lemma {:induction false} BEAppend(a: seq<byte>, b: seq<byte>)
    ensures BE(a + b) == BE(a) * Pow256(|b|) + BE(b)
  {
    if b == [] {
      assert a + b == a;
    } else {
      var m := |b| - 1;
      assert (a + b)[..|a + b| - 1] == a + b[..m];
      BEAppend(a, b[..m]);
      calc {
        BE(a + b);
        (BE(a) * Pow256(m) + BE(b[..m])) * 256 + b[m];
        BE(a) * Pow256(m) * 256 + BE(b);
        { MulSwap(BE(a), Pow256(m)); }
        BE(a) * Pow256(|b|) + BE(b);
      }
    }
  }

  lemma MulSwap(x: nat, p: nat)
    ensures x * p * 256 == x * (256 * p)
  {
  }

  lemma {:induction false} BEZeros(n: nat)
    ensures BE(Zeros(n)) == 0
  {
    if n > 0 {
      assert Zeros(n)[..n - 1] == Zeros(n - 1);
      BEZeros(n - 1);
    }
  }

  lemma {:induction false} BEPad(s: seq<byte>, n: nat)
    requires |s| <= n
    ensures BE(PadLeft(s, n)) == BE(s)
  {
    BEAppend(Zeros(n - |s|), s);
    BEZeros(n - |s|);
  }

  /** Byte strings of one length that denote the same number are equal. */
  lemma {:induction false} BEInjective(a: seq<byte>, b: seq<byte>)
    requires |a| == |b| && BE(a) == BE(b)
    ensures a == b
  {
    if a != [] {
      BEInjective(a[..|a| - 1], b[..|b| - 1]);
      assert a == a[..|a| - 1] + [a[|a| - 1]];
      assert b == b[..|b| - 1] + [b[|b| - 1]];
    }
  }

  /** The first byte decides: the byte-wise order of equally long strings is the numeric order. */
  lemma BEFirstByte(a: seq<byte>, b: seq<byte>)
    requires |a| == |b| > 0 && a[0] < b[0]
    ensures BE(a) < BE(b)
  {
    var n := |a| - 1;
    assert a == [a[0]] + a[1..] && b == [b[0]] + b[1..];
    BEAppend([a[0]], a[1..]);
    BEAppend([b[0]], b[1..]);
    BEBound(a[1..]);
    assert BE([a[0]]) == a[0] && BE([b[0]]) == b[0];
    assert (a[0] + 1) * Pow256(n) <= b[0] * Pow256(n) by {
      MulMonotone(a[0] + 1, b[0], Pow256(n));
    }
  }

  lemma MulMonotone(x: nat, y: nat, p: nat)
    requires x <= y
    ensures x * p <= y * p
  {
  }

  /** `n + 1` in 64 bits */
  function Succ64(n: uint64): uint64 { if n + 1 == U64 then 0 else n + 1 }

  lemma {:induction false} Cast64IsMod(n: nat)
    ensures Cast64(n) == n % U64
  {
    if n >= U64 {
      Cast64IsMod(n - U64);
    }
  }

  lemma {:induction false} MinBEValue(n: nat)
    ensures BE(MinBE(n)) == n
  {
    if n != 0 {
      ShiftSplits(n);
      MinBEValue(Shr8(n));
      assert MinBE(n)[..|MinBE(n)| - 1] == MinBE(Shr8(n));
    }
  }

  lemma {:induction false} MinBENoLeadingZero(n: nat)
    requires n > 0
    ensures MinBE(n) != [] && MinBE(n)[0] != 0
  {
    ShiftSplits(n);
    if n >= 256 {
      MinBENoLeadingZero(Shr8(n));
    } else {
      assert MinBE(Shr8(n)) == [];
    }
  }

  lemma {:induction false} MinBELength(n: nat, k: nat)
    requires n < Pow256(k)
    ensures |MinBE(n)| <= k
  {
    if n != 0 {
      ShiftSplits(n);
      MinBELength(Shr8(n), k - 1);
    }
  }

  lemma MinBELength64(n: nat)
    requires n < U64
    ensures |MinBE(n)| <= 8
  {
    assert Pow256(8) == U64 by {
      assert Pow256(4) == 0x1_0000_0000;
    }
    MinBELength(n, 8);
  }

  /** A byte string without leading zeros is the shortest one for its value. */
  lemma {:induction false} MinBEUnique(s: seq<byte>)
    requires s == [] || s[0] != 0
    ensures MinBE(BE(s)) == s
  {
    if s != [] {
      var t := s[..|s| - 1];
      MinBEUnique(t);
      ShiftSplits(BE(s));
      assert Shr8(BE(s)) == BE(t);
      if t == [] {
        assert BE(s) == s[0];
      } else {
        MinBEPositive(t);
      }
      assert s == t + [s[|s| - 1]];
    }
  }

  lemma MinBEPositive(s: seq<byte>)
    requires s != [] && s[0] != 0
    ensures BE(s) > 0
  {
    assert s == [s[0]] + s[1..];
    BEAppend([s[0]], s[1..]);
    assert BE([s[0]]) == s[0];
    MulMonotone(1, s[0], Pow256(|s| - 1));
  }

  /** Stripping and right-aligning undo each other, so stripping loses nothing at a fixed width. */
  lemma {:induction false} StripPad(s: seq<byte>)
    ensures PadLeft(Strip(s), |s|) == s
  {
    ZerosThen(s, |s| - |Strip(s)|);
  }

  lemma ZerosThen(s: seq<byte>, k: nat)
    requires k <= |s| && forall i :: 0 <= i < k ==> s[i] == 0
    ensures Zeros(k) + s[k..] == s
  {
  }

  lemma {:induction false} StripIsMinBE(s: seq<byte>)
    ensures Strip(s) == MinBE(BE(s))
  {
    StripPad(s);
    BEPad(Strip(s), |s|);
    MinBEUnique(Strip(s));
  }
}
