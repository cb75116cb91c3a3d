/**
  256-bit balance arithmetic of `src/state/accounts.c`, on big-endian byte arrays that may alias each other. The
  carry chains are shown for any width; the code uses 32 bytes.
 */
module Balance {
  import opened Bytes

  /** A carry or borrow out of `n` bytes. */
  function Over(c: nat, n: nat): nat { if c == 0 then 0 else Pow256(n) }

  /** `s` is the sum of `a` and `b`, with the carry out of the top byte. */
  predicate IsSum(a: seq<byte>, b: seq<byte>, s: seq<byte>, carry: nat)
  {
    |a| == |b| == |s| && carry <= 1 && BE(s) + Over(carry, |s|) == BE(a) + BE(b)
  }

  /** `d` is the difference of `a` and `b`, with the borrow into the top byte. */
  predicate IsDifference(a: seq<byte>, b: seq<byte>, d: seq<byte>, borrow: nat)
  {
    |a| == |b| == |d| && borrow <= 1 && BE(d) + BE(b) == BE(a) + Over(borrow, |d|)
  }

  /** `memcmp`: the first differing byte decides. */
  function Compare(a: seq<byte>, b: seq<byte>): int
    requires |a| == |b|
  {
    if a == [] then 0 else if a[0] != b[0] then (if a[0] < b[0] then -1 else 1) else Compare(a[1..], b[1..])
  }

  /** Byte-wise comparison of equally long big-endian strings is numeric comparison. */
  lemma {:induction false} CompareIsNumeric(a: seq<byte>, b: seq<byte>)
    requires |a| == |b|
    ensures Compare(a, b) < 0 <==> BE(a) < BE(b)
    ensures Compare(a, b) == 0 <==> a == b
    ensures Compare(a, b) > 0 <==> BE(a) > BE(b)
  {
    if a != [] {
      if a[0] < b[0] {
        BEFirstByte(a, b);
      } else if b[0] < a[0] {
        BEFirstByte(b, a);
      } else {
        CompareIsNumeric(a[1..], b[1..]);
        assert a == [a[0]] + a[1..] && b == [b[0]] + b[1..];
        BEAppend([a[0]], a[1..]);
        BEAppend([b[0]], b[1..]);
      }
    }
  }

  /** The value of a number with one more byte in front. */
  lemma BECons(x: byte, s: seq<byte>)
    ensures BE([x] + s) == x * Pow256(|s|) + BE(s)
  {
    BEAppend([x], s);
    assert BE([x]) == x;
  }

  lemma Distribute(x: int, y: int, c: int, p: int)
    ensures (x + y + c) * p == x * p + y * p + c * p
  {
  }

  /** One column: what carries into it and out of it, at the weight `p` of the column. */
  lemma CarryStep(x: int, y: int, c: nat, z: int, k: nat, p: nat)
    requires x + y + c == z + 256 * k && c <= 1 && k <= 1
    ensures x * p + y * p + (if c == 0 then 0 else p) == z * p + (if k == 0 then 0 else 256 * p)
  {
    Distribute(x, y, c, p);
    Distribute(z, 256 * k, 0, p);
  }

  lemma SumStep(x: byte, y: byte, c: nat, z: byte, k: nat, a: seq<byte>, b: seq<byte>, s: seq<byte>)
    requires IsSum(a, b, s, c) && x + y + c == z + 256 * k && k <= 1
    ensures IsSum([x] + a, [y] + b, [z] + s, k)
  {
    BECons(x, a);
    BECons(y, b);
    BECons(z, s);
    CarryStep(x, y, c, z, k, Pow256(|s|));
  }

  lemma DifferenceStep(x: byte, y: byte, c: nat, z: byte, k: nat, a: seq<byte>, b: seq<byte>, d: seq<byte>)
    requires IsDifference(a, b, d, c) && x - y - c == z - 256 * k && k <= 1
    ensures IsDifference([x] + a, [y] + b, [z] + d, k)
  {
    BECons(x, a);
    BECons(y, b);
    BECons(z, d);
    CarryStep(z, y, c, x, k, Pow256(|d|));
  }

  /** The columns from `i` on, once column `i` is done too. */
  lemma SumColumn(a: seq<byte>, b: seq<byte>, s: seq<byte>, i: nat, c: nat, z: byte, k: nat)
    requires |a| == |b| && i < |a| && IsSum(a[i + 1..], b[i + 1..], s, c)
    requires a[i] as int + b[i] as int + c == z + 256 * k && k <= 1
    ensures IsSum(a[i..], b[i..], [z] + s, k)
  {
    assert a[i..] == [a[i]] + a[i + 1..] && b[i..] == [b[i]] + b[i + 1..];
    SumStep(a[i], b[i], c, z, k, a[i + 1..], b[i + 1..], s);
  }

  lemma DifferenceColumn(a: seq<byte>, b: seq<byte>, d: seq<byte>, i: nat, c: nat, z: byte, k: nat)
    requires |a| == |b| && i < |a| && IsDifference(a[i + 1..], b[i + 1..], d, c)
    requires a[i] as int - b[i] as int - c == z - 256 * k && k <= 1
    ensures IsDifference(a[i..], b[i..], [z] + d, k)
  {
    assert a[i..] == [a[i]] + a[i + 1..] && b[i..] == [b[i]] + b[i + 1..];
    DifferenceStep(a[i], b[i], c, z, k, a[i + 1..], b[i + 1..], d);
  }

  /** The carry out of the top column says whether the sum is too big for the width. */
  lemma CarryOut(a: seq<byte>, b: seq<byte>, s: seq<byte>, carry: nat)
    requires IsSum(a, b, s, carry)
    ensures carry == 1 <==> BE(a) + BE(b) >= Pow256(|a|)
  {
    BEBound(s);
  }

  /** The borrow out of the top column says whether the first operand compares below the second. */
  lemma BorrowOut(a: seq<byte>, b: seq<byte>, d: seq<byte>, borrow: nat)
    requires IsDifference(a, b, d, borrow)
    ensures borrow == 1 <==> Compare(a, b) < 0
  {
    BEBound(d);
    CompareIsNumeric(a, b);
  }

  /** `sum & 0xff` and `sum >> 8` */
  method AddColumn(x: byte, y: byte, carry: nat) returns (low: byte, high: nat)
    requires carry <= 1
    ensures x as int + y as int + carry == low + 256 * high && high <= 1
  {
    var a: int, b: int := x, y;
    var sum := a + b + carry;
    low, high := sum % 256, sum / 256;
  }

  method SubColumn(x: byte, y: byte, borrow: nat) returns (diff: byte, out: nat)
    requires borrow <= 1
    ensures x as int - y as int - borrow == diff - 256 * out && out <= 1
  {
    var a: int, b: int := x, y;
    var d := a - b - borrow;
    if d < 0 {
      diff, out := d + 256, 1;
    } else {
      diff, out := d, 0;
    }
  }

  /** `evmdb_balance_add`; `out` may be `a` or `b`. */
  method Add(a: array<byte>, b: array<byte>, out: array<byte>) returns (rc: int)
    requires a.Length == b.Length == out.Length
    modifies out
    ensures rc == 0 || rc == -1
    ensures IsSum(old(a[..]), old(b[..]), out[..], -rc)
    ensures rc == -1 <==> BE(old(a[..])) + BE(old(b[..])) >= Pow256(out.Length)
  {
    ghost var a0, b0 := a[..], b[..];
    var carry, i := 0, out.Length - 1;
    ghost var done: seq<byte> := [];
    while i >= 0
      invariant -1 <= i < out.Length
      invariant forall j :: 0 <= j <= i ==> a[j] == a0[j] && b[j] == b0[j]
      invariant out[i + 1..] == done && IsSum(a0[i + 1..], b0[i + 1..], done, carry)
    {
      var low, high := AddColumn(a[i], b[i], carry);
      SumColumn(a0, b0, done, i, carry, low, high);
      out[i], carry := low, high;
      done := [low] + done;
      i := i - 1;
    }
    assert a0[0..] == a0 && b0[0..] == b0 && out[0..] == out[..];
    CarryOut(a0, b0, out[..], carry);
    rc := if carry != 0 then -1 else 0;
  }

  /** `evmdb_balance_sub`; `out` may be `a` or `b`. Underflow is reported exactly when `a` compares below `b`. */
  method Sub(a: array<byte>, b: array<byte>, out: array<byte>) returns (rc: int)
    requires a.Length == b.Length == out.Length
    modifies out
    ensures rc == 0 || rc == -1
    ensures IsDifference(old(a[..]), old(b[..]), out[..], -rc)
    ensures rc == -1 <==> Compare(old(a[..]), old(b[..])) < 0
  {
    ghost var a0, b0 := a[..], b[..];
    var borrow, i := 0, out.Length - 1;
    ghost var done: seq<byte> := [];
    while i >= 0
      invariant -1 <= i < out.Length
      invariant forall j :: 0 <= j <= i ==> a[j] == a0[j] && b[j] == b0[j]
      invariant out[i + 1..] == done && IsDifference(a0[i + 1..], b0[i + 1..], done, borrow)
    {
      var diff, next := SubColumn(a[i], b[i], borrow);
      DifferenceColumn(a0, b0, done, i, borrow, diff, next);
      out[i], borrow := diff, next;
      done := [diff] + done;
      i := i - 1;
    }
    assert a0[0..] == a0 && b0[0..] == b0 && out[0..] == out[..];
    BorrowOut(a0, b0, out[..], borrow);
    rc := if borrow != 0 then -1 else 0;
  }

  /** Subtracting what was added gives the first operand back, wrap-around included, and borrows iff the sum carried. */
  lemma SubUndoesAdd(a: seq<byte>, b: seq<byte>, s: seq<byte>, carry: nat, d: seq<byte>, borrow: nat)
    requires IsSum(a, b, s, carry) && IsDifference(s, b, d, borrow)
    ensures d == a && borrow == carry
  {
    BEBound(a);
    BEBound(d);
    BEInjective(a, d);
  }

  /** Sum and difference are the results modulo 256 to the width, so they are unique. */
  lemma SumIsModular(a: seq<byte>, b: seq<byte>, s: seq<byte>, carry: nat)
    requires IsSum(a, b, s, carry)
    ensures BE(s) == (BE(a) + BE(b)) % Pow256(|a|)
  {
    BEBound(s);
    ModCarry(BE(a) + BE(b), BE(s), carry, Pow256(|a|));
  }

  lemma DifferenceIsModular(a: seq<byte>, b: seq<byte>, d: seq<byte>, borrow: nat)
    requires IsDifference(a, b, d, borrow)
    ensures BE(d) == (BE(a) - BE(b)) % Pow256(|a|)
  {
    BEBound(d);
    ModBorrow(BE(a) - BE(b), BE(d), borrow, Pow256(|a|));
  }

  lemma ModCarry(x: int, r: int, carry: nat, p: int)
    requires 0 <= r < p && x == r + if carry == 0 then 0 else p
    ensures x % p == r
  {
    QuotientIs(x, if carry == 0 then 0 else 1, r, p);
  }

  lemma ModBorrow(x: int, r: int, borrow: nat, p: int)
    requires 0 <= r < p && x == r - if borrow == 0 then 0 else p
    ensures x % p == r
  {
    QuotientIs(x, if borrow == 0 then 0 else -1, r, p);
  }

  /** Division by `p` is determined by its remainder. */
  lemma QuotientIs(x: int, q: int, r: int, p: int)
    requires x == q * p + r && 0 <= r < p
    ensures x % p == r
  {
    var e := x / p - q;
    NegMul(e, p);
    assert x == (x / p) * p + x % p;
    assert (x / p) * p - q * p == e * p;
    if e >= 1 {
      MulMonotone(1, e, p);
    } else if e <= -1 {
      MulMonotone(1, -e, p);
    }
  }

  lemma NegMul(e: int, p: int)
    ensures (-e) * p == -(e * p)
  {
  }

  /** `evmdb_balance_from_uint64` */
  method FromUint64(val: uint64, out: array<byte>)
    requires out.Length == 32
    modifies out
    ensures BE(out[..]) == val
    ensures |MinBE(val)| <= 32 && out[..] == PadLeft(MinBE(val), 32)
  {
    forall i | 0 <= i < 32 {
      out[i] := 0;
    }
    var rest := val;
    var digits: seq<byte> := [];
    assert out[..] == Zeros(32);
    for i := 0 to 8
      invariant 0 <= rest && |digits| == i
      invariant out[..] == Zeros(32 - i) + digits
      invariant val == rest * Pow256(i) + BE(digits)
    {
      ShiftSplits(rest);
      digits := [Cast8(rest)] + digits;
      BECons(Cast8(rest), digits[1..]);
      DigitStep(rest, Shr8(rest), Cast8(rest), Pow256(i));
      out[31 - i] := Cast8(rest);
      rest := Shr8(rest);
    }
    assert Pow256(8) == U64 by {
      assert Pow256(4) == 0x1_0000_0000;
    }
    NoRest(rest, Pow256(8), BE(digits), val);
    var w := out[..];
    assert w == PadLeft(digits, 32);
    BEPad(digits, 32);
    MinBELength64(val);
    MinBEValue(val);
    BEPad(MinBE(val), 32);
    BEInjective(w, PadLeft(MinBE(val), 32));
  }

  lemma DigitStep(rest: nat, hi: nat, lo: nat, p: nat)
    requires rest == 256 * hi + lo
    ensures rest * p == hi * (256 * p) + lo * p
  {
    calc {
      rest * p;
      (256 * hi + lo) * p;
      hi * (256 * p) + lo * p;
    }
  }

  lemma NoRest(rest: nat, p: nat, low: nat, val: nat)
    requires val == rest * p + low && val < p
    ensures rest == 0
  {
    if rest > 0 {
      MulMonotone(1, rest, p);
    }
  }

  /** `evmdb_balance_is_zero` */
  method IsZero(val: array<byte>) returns (z: bool)
    requires val.Length == 32
    ensures z <==> BE(val[..]) == 0
  {
    for i := 0 to 32
      invariant forall j :: 0 <= j < i ==> val[j] == 0
    {
      if val[i] != 0 {
        NonZero(val[..], i);
        return false;
      }
    }
    assert val[..] == Zeros(32);
    BEZeros(32);
    z := true;
  }

  lemma NonZero(s: seq<byte>, i: nat)
    requires i < |s| && s[i] != 0
    ensures BE(s) > 0
  {
    if BE(s) == 0 {
      BEZeros(|s|);
      BEInjective(s, Zeros(|s|));
    }
  }
}
