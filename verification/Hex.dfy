/**
  Hexadecimal text of `src/core/hex.c`, and the balance trimming of `src/rpc/handlers.c`. C strings are byte
  sequences without their terminating NUL. Text is handled in two steps: characters to nibbles, and nibbles to
  bytes or numbers.
 */
module Hex {
  import opened Bytes

  type nib = n: int | 0 <= n < 16

  // ---- Characters ------------------------------------------------------------------------------------------

  const ZERO_CHAR: byte := 48 // '0'

  /** `hex_chars[n]` */
  function Digit(n: nib): byte { if n < 10 then 48 + n else 87 + n }

  /** `hex_char_val`: -1 for anything that is not a hexadecimal digit. */
  function CharValue(c: byte): int
  {
    if 48 <= c <= 57 then c - 48 else if 97 <= c <= 102 then c - 87 else if 65 <= c <= 70 then c - 55 else -1
  }

  function Lower(c: byte): byte { if 65 <= c <= 70 then c + 32 else c }

  predicate AllHex(t: seq<byte>) { forall i :: 0 <= i < |t| ==> CharValue(t[i]) >= 0 }

  function NibText(ns: seq<nib>): (t: seq<byte>)
    ensures |t| == |ns| && forall i :: 0 <= i < |ns| ==> t[i] == Digit(ns[i])
  {
    seq(|ns|, i requires 0 <= i < |ns| => Digit(ns[i]))
  }

  function Values(t: seq<byte>): (ns: seq<nib>)
    requires AllHex(t)
    ensures |ns| == |t| && forall i :: 0 <= i < |t| ==> ns[i] == CharValue(t[i])
  {
    seq(|t|, i requires 0 <= i < |t| => CharValue(t[i]))
  }

  function LowerText(t: seq<byte>): (u: seq<byte>)
    ensures |u| == |t| && forall i :: 0 <= i < |t| ==> u[i] == Lower(t[i])
  {
    seq(|t|, i requires 0 <= i < |t| => Lower(t[i]))
  }

  lemma TextBack(ns: seq<nib>)
    ensures AllHex(NibText(ns)) && Values(NibText(ns)) == ns
  {
  }

  lemma ValuesBack(t: seq<byte>)
    requires AllHex(t)
    ensures NibText(Values(t)) == LowerText(t)
  {
  }

  /** The digits written are `hex_chars`; those and the upper-case letters are read, and nothing else. */
  lemma DigitTable(n: nib, c: byte)
    ensures Digit(n) == Ascii("0123456789abcdef")[n]
    ensures CharValue(Ascii("0123456789abcdef")[n]) == n == CharValue(Ascii("0123456789ABCDEF")[n])
    ensures CharValue(c) == -1 || c == Ascii("0123456789abcdef")[CharValue(c)]
            || c == Ascii("0123456789ABCDEF")[CharValue(c)]
  {
    var lower, upper := "0123456789abcdef", "0123456789ABCDEF";
    assert forall i :: 0 <= i < 16 ==> lower[i] as int == if i < 10 then 48 + i else 87 + i;
    assert forall i :: 0 <= i < 16 ==> upper[i] as int == if i < 10 then 48 + i else 55 + i;
  }

  // ---- Nibbles and bytes -----------------------------------------------------------------------------------

  /** `n >> 4` and `n & 0xf` by subtraction. */
  function Shr4(n: nat): nat { if n < 16 then 0 else 1 + Shr4(n - 16) }

  function Low4(n: nat): nib { if n < 16 then n else Low4(n - 16) }

  lemma {:induction false} Shift4Splits(n: nat)
    ensures n == 16 * Shr4(n) + Low4(n)
  {
    if n >= 16 {
      Shift4Splits(n - 16);
    }
  }

  function Hi(b: byte): nib
  {
    Shift4Splits(b);
    Shr4(b)
  }

  function Lo(b: byte): nib { Low4(b) }

  /** `(hi << 4) | lo` */
  function Pair(hi: nib, lo: nib): byte
  {
    var h: int := hi;
    16 * h + lo
  }

  function Nibs(s: seq<byte>): (ns: seq<nib>)
    ensures |ns| == 2 * |s|
  {
    if s == [] then [] else Nibs(s[..|s| - 1]) + [Hi(s[|s| - 1]), Lo(s[|s| - 1])]
  }

  /** `n / 2` by subtraction. */
  function Half(n: nat): nat { if n < 2 then 0 else 1 + Half(n - 2) }

  predicate Even(n: nat) { n == 2 * Half(n) }

  lemma {:induction false} HalfOf(n: nat)
    ensures Half(2 * n) == n && Half(2 * n + 1) == n
  {
    if n > 0 {
      HalfOf(n - 1);
    }
  }

  function Pack(ns: seq<nib>): (s: seq<byte>)
    requires Even(|ns|)
    ensures 2 * |s| == |ns|
  {
    if ns == [] then [] else Pack(ns[..|ns| - 2]) + [Pair(ns[|ns| - 2], ns[|ns| - 1])]
  }

  lemma {:induction false} PackNibs(s: seq<byte>)
    ensures Even(|Nibs(s)|) && Pack(Nibs(s)) == s
  {
    HalfOf(|s|);
    if s != [] {
      var n := |s| - 1;
      PackNibs(s[..n]);
      assert Nibs(s)[..2 * n] == Nibs(s[..n]);
      BytePair(s[n]);
      assert s == s[..n] + [s[n]];
    }
  }

  lemma {:induction false} NibsPack(ns: seq<nib>)
    requires Even(|ns|)
    ensures Nibs(Pack(ns)) == ns
  {
    if ns != [] {
      var n := |ns| - 2;
      NibsPack(ns[..n]);
      NibsSnoc(Pack(ns[..n]), Pair(ns[n], ns[n + 1]));
      PairBack(ns[n], ns[n + 1]);
      assert ns == ns[..n] + [ns[n], ns[n + 1]];
    }
  }

  lemma NibsSnoc(s: seq<byte>, b: byte)
    ensures Nibs(s + [b]) == Nibs(s) + [Hi(b), Lo(b)]
  {
    assert (s + [b])[..|s|] == s;
  }

  lemma PairBack(a: nib, b: nib)
    ensures Hi(Pair(a, b)) == a && Lo(Pair(a, b)) == b
  {
    Shift4Splits(Pair(a, b));
  }

  lemma BytePair(b: byte)
    ensures Pair(Hi(b), Lo(b)) == b
  {
    Shift4Splits(b);
  }

  // ---- Nibbles and numbers ---------------------------------------------------------------------------------

  function Value(ns: seq<nib>): nat
  {
    if ns == [] then 0 else 16 * Value(ns[..|ns| - 1]) + ns[|ns| - 1]
  }

  lemma {:induction false} NibsValue(s: seq<byte>)
    ensures Value(Nibs(s)) == BE(s)
  {
    if s != [] {
      var n := |s| - 1;
      NibsValue(s[..n]);
      var ns := Nibs(s);
      assert ns[..2 * n] == Nibs(s[..n]);
      ValueLastTwo(ns);
      BytePair(s[n]);
    }
  }

  lemma ValueLastTwo(ns: seq<nib>)
    requires |ns| >= 2
    ensures Value(ns) == 256 * Value(ns[..|ns| - 2]) + Pair(ns[|ns| - 2], ns[|ns| - 1])
  {
    assert ns[..|ns| - 1][..|ns| - 2] == ns[..|ns| - 2];
  }

  /** The digits of `%llx`: no leading zero, one digit for 0. */
  function MinNibs(n: nat): seq<nib>
  {
    if n < 16 then [n] else Shift4Splits(n); MinNibs(Shr4(n)) + [Low4(n)]
  }

  lemma {:induction false} MinNibsValue(n: nat)
    ensures Value(MinNibs(n)) == n
  {
    if n >= 16 {
      Shift4Splits(n);
      MinNibsValue(Shr4(n));
      assert MinNibs(n)[..|MinNibs(n)| - 1] == MinNibs(Shr4(n));
    }
  }

  predicate Trimmed(ns: seq<nib>) { ns != [] && (|ns| == 1 || ns[0] != 0) }

  lemma {:induction false} MinNibsTrimmed(n: nat)
    ensures Trimmed(MinNibs(n))
    ensures n > 0 ==> MinNibs(n)[0] != 0
  {
    if n >= 16 {
      Shift4Splits(n);
      MinNibsTrimmed(Shr4(n));
    }
  }

  lemma {:induction false} ValuePositive(ns: seq<nib>)
    requires ns != [] && ns[0] != 0
    ensures Value(ns) > 0
  {
    if |ns| > 1 {
      ValuePositive(ns[..|ns| - 1]);
    }
  }

  /** A number has one digit string without leading zeros. */
  lemma {:induction false} MinNibsUnique(ns: seq<nib>)
    requires Trimmed(ns)
    ensures MinNibs(Value(ns)) == ns
  {
    var n := |ns| - 1;
    if n > 0 {
      var front := ns[..n];
      MinNibsUnique(front);
      ValuePositive(front);
      Shift4Splits(Value(ns));
      assert Value(ns) == 16 * Value(front) + ns[n];
      assert ns == front + [ns[n]];
    } else {
      assert ns[..0] == [];
      assert Value(ns) == ns[0];
      assert ns == [ns[0]];
    }
  }

  /** Drop leading zeros, but keep one digit. */
  function Trim(ns: seq<nib>): (r: seq<nib>)
    requires ns != []
    ensures Trimmed(r)
  {
    if |ns| > 1 && ns[0] == 0 then Trim(ns[1..]) else ns
  }

  lemma {:induction false} ValueDropZero(ns: seq<nib>)
    requires ns != [] && ns[0] == 0
    ensures Value(ns) == Value(ns[1..])
  {
    if |ns| > 1 {
      var n := |ns| - 1;
      ValueDropZero(ns[..n]);
      assert ns[..n][1..] == ns[1..][..n - 1];
    } else {
      assert ns[..0] == [] && ns[1..] == [];
    }
  }

  lemma {:induction false} TrimValue(ns: seq<nib>)
    requires ns != []
    ensures Value(Trim(ns)) == Value(ns)
  {
    if |ns| > 1 && ns[0] == 0 {
      ValueDropZero(ns);
      TrimValue(ns[1..]);
    }
  }

  // ---- The text functions ----------------------------------------------------------------------------------

  const PREFIX: seq<byte> := [48, 120] // "0x"

  /** `evmdb_hex_encode` without the terminating NUL. */
  function Encode(data: seq<byte>): seq<byte> { PREFIX + NibText(Nibs(data)) }

  /** The text behind an optional `0x` or `0X`. */
  function Body(t: seq<byte>): seq<byte>
  {
    if |t| >= 2 && t[0] == 48 && (t[1] == 120 || t[1] == 88) then t[2..] else t
  }

  /** `evmdb_hex_decode` into a buffer of `cap` bytes. */
  function Decode(t: seq<byte>, cap: nat): Option<seq<byte>>
  {
    var b := Body(t);
    if !Even(|b|) || Half(|b|) > cap || !AllHex(b) then None else Some(Pack(Values(b)))
  }

  /** Decoding undoes encoding for every byte string that fits. */
  lemma {:induction false} DecodeEncode(s: seq<byte>, cap: nat)
    requires |s| <= cap
    ensures Decode(Encode(s), cap) == Some(s)
  {
    DecodeText(Nibs(s), |s|, cap);
    PackNibs(s);
  }

  lemma DecodeText(ns: seq<nib>, n: nat, cap: nat)
    requires |ns| == 2 * n && n <= cap
    ensures Even(|ns|) && Decode(PREFIX + NibText(ns), cap) == Some(Pack(ns))
  {
    HalfOf(n);
    BodyPrefixed(NibText(ns));
    TextBack(ns);
  }

  lemma BodyPrefixed(b: seq<byte>)
    ensures Body(PREFIX + b) == b
  {
  }

  /** A prefix in either case is dropped, and a text without one is taken as it is. */
  lemma PrefixOptional(b: seq<byte>)
    ensures Body(Ascii("0x") + b) == b && Body(Ascii("0X") + b) == b
    ensures !(Ascii("0x") <= b) && !(Ascii("0X") <= b) ==> Body(b) == b
    ensures PREFIX == Ascii("0x")
  {
    assert Ascii("0x") == [48, 120] && Ascii("0X") == [48, 88];
  }

  /** Encoding what was decoded gives the text back, lower-cased and with its prefix. */
  lemma EncodeDecode(t: seq<byte>, cap: nat)
    requires Decode(t, cap).Some?
    ensures Encode(Decode(t, cap).value) == PREFIX + LowerText(Body(t))
  {
    NibsPack(Values(Body(t)));
    ValuesBack(Body(t));
  }

  lemma EncodeInjective(a: seq<byte>, b: seq<byte>)
    requires Encode(a) == Encode(b)
    ensures a == b
  {
    DecodeEncode(a, |a| + |b|);
    DecodeEncode(b, |a| + |b|);
  }

  /** `evmdb_hex_from_uint64` without the terminating NUL. */
  function FromUint64(n: nat): seq<byte> { PREFIX + NibText(MinNibs(n)) }

  /** `evmdb_hex_to_uint64`: the value of the digits modulo 2^64. */
  function ToUint64(t: seq<byte>): Option<uint64>
  {
    if AllHex(Body(t)) then Some(Value(Values(Body(t))) % U64) else None
  }

  lemma ToFromUint64(n: uint64)
    ensures ToUint64(FromUint64(n)) == Some(n)
  {
    var ns := MinNibs(n);
    BodyPrefixed(NibText(ns));
    TextBack(ns);
    MinNibsValue(n);
  }

  /** The balance text of `eth_getBalance`: full-width digits with the leading zeros skipped. */
  function BalanceText(balance: seq<byte>): seq<byte>
    requires balance != []
  {
    PREFIX + NibText(Trim(Nibs(balance)))
  }

  /** The trimmed text is the shortest text of the balance: same integer, no leading zeros. */
  lemma BalanceTextIsMinimal(balance: seq<byte>)
    requires balance != []
    ensures BalanceText(balance) == FromUint64(BE(balance))
  {
    var ns := Nibs(balance);
    TrimValue(ns);
    NibsValue(balance);
    MinNibsUnique(Trim(ns));
  }

  // ---- The code --------------------------------------------------------------------------------------------

  /** `evmdb_hex_encode` */
  method HexEncode(data: seq<byte>, out: array<byte>) returns (rc: int)
    modifies out
    ensures rc == 0 || rc == -1
    ensures rc == 0 <==> out.Length >= 2 * |data| + 3
    ensures rc == 0 ==> out[..2 * |data| + 3] == Encode(data) + [0]
                        && out[2 * |data| + 3..] == old(out[2 * |data| + 3..])
    ensures rc == -1 ==> out[..] == old(out[..])
  {
    var needed := |data| * 2 + 3;
    if out.Length < needed {
      return -1;
    }
    ghost var tail, text := out[needed..], NibText(Nibs(data));
    out[0] := 48;
    out[1] := 120;
    for i := 0 to |data|
      invariant out[0] == 48 && out[1] == 120
      invariant forall k :: 0 <= k < 2 * i ==> out[2 + k] == text[k]
      invariant out[needed..] == tail
    {
      NibsAt(data, i);
      out[2 + i * 2] := Digit(Hi(data[i]));
      out[2 + i * 2 + 1] := Digit(Lo(data[i]));
    }
    out[2 + |data| * 2] := 0;
    assert out[..needed] == PREFIX + text + [0];
    rc := 0;
  }

  /** Byte `i` becomes the digits `2i` and `2i + 1`. */
  lemma {:induction false} NibsAt(s: seq<byte>, i: nat)
    requires i < |s|
    ensures Nibs(s)[2 * i] == Hi(s[i]) && Nibs(s)[2 * i + 1] == Lo(s[i])
  {
    if i < |s| - 1 {
      NibsAt(s[..|s| - 1], i);
    }
  }

  /** `evmdb_hex_decode`: the number of bytes written, or -1, in which case bytes may have been overwritten. */
  method HexDecode(hex: seq<byte>, out: array<byte>) returns (rc: int)
    modifies out
    ensures rc == -1 <==> Decode(hex, out.Length) == None
    ensures rc != -1 ==> 0 <= rc <= out.Length && Decode(hex, out.Length) == Some(out[..rc])
                         && out[rc..] == old(out[rc..])
  {
    var t := Body(hex);
    if !Even(|t|) {
      return -1;
    }
    var n := Half(|t|);
    if n > out.Length {
      return -1;
    }
    for i := 0 to n
      invariant Even(2 * i) && AllHex(t[..2 * i])
      invariant out[..i] == Pack(Values(t[..2 * i]))
      invariant out[n..] == old(out[n..])
    {
      var hi, lo := CharValue(t[i * 2]), CharValue(t[i * 2 + 1]);
      if hi < 0 || lo < 0 {
        return -1;
      }
      DecodeStep(t, i);
      out[i] := Pair(hi, lo);
      assert out[..i + 1] == out[..i] + [Pair(hi, lo)];
    }
    assert t[..2 * n] == t;
    rc := n;
  }

  lemma DecodeStep(t: seq<byte>, i: nat)
    requires 2 * i + 2 <= |t| && AllHex(t[..2 * i]) && CharValue(t[2 * i]) >= 0 && CharValue(t[2 * i + 1]) >= 0
    ensures Even(2 * i) && Even(2 * (i + 1)) && AllHex(t[..2 * (i + 1)])
    ensures Pack(Values(t[..2 * (i + 1)]))
            == Pack(Values(t[..2 * i])) + [Pair(CharValue(t[2 * i]), CharValue(t[2 * i + 1]))]
  {
    HalfOf(i);
    HalfOf(i + 1);
    var u := t[..2 * (i + 1)];
    forall k | 0 <= k < |u|
      ensures CharValue(u[k]) >= 0
    {
      if k < 2 * i {
        assert t[..2 * i][k] == u[k];
      }
    }
    assert Values(u)[..2 * i] == Values(t[..2 * i]);
  }

  /** `evmdb_hex_to_uint64`: shift and or in 64 bits, digit by digit. */
  method HexToUint64(hex: seq<byte>) returns (r: Option<uint64>)
    ensures r == ToUint64(hex)
  {
    var t := Body(hex);
    var acc: nat := 0;
    for i := 0 to |t|
      invariant AllHex(t[..i])
      invariant acc == Value(Values(t[..i])) % U64
    {
      var v := CharValue(t[i]);
      if v < 0 {
        return None;
      }
      assert AllHex(t[..i + 1]) && Values(t[..i + 1])[..i] == Values(t[..i]);
      ShiftOr(Value(Values(t[..i])), v);
      acc := (16 * acc + v) % U64;
    }
    assert t[..|t|] == t;
    r := Some(acc);
  }

  /** Reducing before the shift does not change the result modulo 2^64. */
  lemma ShiftOr(x: nat, v: nat)
    ensures (16 * (x % U64) + v) % U64 == (16 * x + v) % U64
  {
    var q := x / U64;
    assert 16 * x + v == 16 * (x % U64) + v + U64 * (16 * q);
    ModAddMultiple(16 * (x % U64) + v, 16 * q);
  }

  lemma {:induction false} ModAddMultiple(r: nat, q: nat)
    ensures (r + U64 * q) % U64 == r % U64
  {
    if q > 0 {
      ModAddMultiple(r, q - 1);
      assert (r + U64 * (q - 1) + U64) % U64 == (r + U64 * (q - 1)) % U64;
    }
  }

  /** The skip loop of `handle_get_balance` on the digits behind the prefix. */
  method TrimBalance(balance: seq<byte>) returns (text: seq<byte>)
    requires |balance| == 32
    ensures text == FromUint64(BE(balance))
  {
    var digits := NibText(Nibs(balance));
    var ns := Nibs(balance);
    var p := 0;
    while digits[p] == ZERO_CHAR && p + 1 != |digits|
      invariant 0 <= p < |digits|
      invariant Trim(ns[p..]) == Trim(ns)
      decreases |digits| - p
    {
      assert ns[p..][1..] == ns[p + 1..];
      p := p + 1;
    }
    assert NibText(ns[p..]) == digits[p..];
    BalanceTextIsMinimal(balance);
    text := PREFIX + digits[p..];
  }
}
