/**
  The sponge of `src/core/keccak.c` as the hash that the transaction code and the executor use: bytes as numbers there,
  as bit vectors in the sponge. With it, what is fed to the permutation determines what was hashed.
 */
module KeccakHash {
  import opened Bytes
  import opened Keccak
  import opened CreateAddress
  import opened Transactions

  /** Four bits, the highest first. */
  datatype Quad = Quad(b3: bool, b2: bool, b1: bool, b0: bool) {

    function Vector(): bv8
    {
      (if b3 then 0x08 else 0) | (if b2 then 0x04 else 0) | (if b1 then 0x02 else 0) | (if b0 then 0x01 else 0)
    }

    function Number(): (n: nat)
      ensures n < 16
    {
      (if b3 then 8 else 0) + (if b2 then 4 else 0) + (if b1 then 2 else 0) + (if b0 then 1 else 0)
    }
  }

  /** What remains of a number below the bit of weight `w`. */
  function Less(n: nat, w: nat): nat { if n >= w then n - w else n }

  function QuadOf(n: nat): Quad
    requires n < 16
  {
    Quad(n >= 8, Less(n, 8) >= 4, Less(Less(n, 8), 4) >= 2, Less(Less(Less(n, 8), 4), 2) >= 1)
  }

  function QuadIn(v: bv8): Quad { Quad(v & 0x08 != 0, v & 0x04 != 0, v & 0x02 != 0, v & 0x01 != 0) }

  lemma QuadBack(n: nat)
    requires n < 16
    ensures QuadOf(n).Number() == n
  {
  }

  /** A byte as a bit vector, and back. */
  function ToBit(n: byte): bv8 { (QuadOf(n / 16).Vector() << 4) | QuadOf(n % 16).Vector() }

  function FromBit(v: bv8): byte { 16 * QuadIn(v >> 4).Number() + QuadIn(v).Number() }

  lemma VectorBack(h: Quad, l: Quad)
    ensures var v := (h.Vector() << 4) | l.Vector(); QuadIn(v >> 4) == h && QuadIn(v) == l
  {
  }

  lemma BitBack(n: byte)
    ensures FromBit(ToBit(n)) == n
  {
    VectorBack(QuadOf(n / 16), QuadOf(n % 16));
    QuadBack(n / 16);
    QuadBack(n % 16);
  }

  /** Bit by bit, the vector is the binary form of the number. */
  lemma BitsOf(n: byte)
    ensures var v, h, l := ToBit(n), n / 16, n % 16;
            && (v & 0x80 != 0 <==> h >= 8) && (v & 0x40 != 0 <==> h % 8 >= 4)
            && (v & 0x20 != 0 <==> h % 4 >= 2) && (v & 0x10 != 0 <==> h % 2 == 1)
            && (v & 0x08 != 0 <==> l >= 8) && (v & 0x04 != 0 <==> l % 8 >= 4)
            && (v & 0x02 != 0 <==> l % 4 >= 2) && (v & 0x01 != 0 <==> l % 2 == 1)
  {
    HighBits(QuadOf(n / 16), QuadOf(n % 16));
    QuadBits(n / 16);
    QuadBits(n % 16);
  }

  lemma HighBits(h: Quad, l: Quad)
    ensures var v := (h.Vector() << 4) | l.Vector();
            && (v & 0x80 != 0 <==> h.b3) && (v & 0x40 != 0 <==> h.b2)
            && (v & 0x20 != 0 <==> h.b1) && (v & 0x10 != 0 <==> h.b0)
            && (v & 0x08 != 0 <==> l.b3) && (v & 0x04 != 0 <==> l.b2)
            && (v & 0x02 != 0 <==> l.b1) && (v & 0x01 != 0 <==> l.b0)
  {
  }

  lemma QuadBits(n: nat)
    requires n < 16
    ensures var q := QuadOf(n);
            && (q.b3 <==> n >= 8) && (q.b2 <==> n % 8 >= 4) && (q.b1 <==> n % 4 >= 2) && (q.b0 <==> n % 2 == 1)
  {
  }

  function ToBits(s: seq<byte>): (r: seq<bv8>)
    ensures |r| == |s| && forall i :: 0 <= i < |s| ==> r[i] == ToBit(s[i])
  {
    seq(|s|, i requires 0 <= i < |s| => ToBit(s[i]))
  }

  function FromBits(s: seq<bv8>): (r: seq<byte>)
    ensures |r| == |s| && forall i :: 0 <= i < |s| ==> r[i] == FromBit(s[i])
  {
    seq(|s|, i requires 0 <= i < |s| => FromBit(s[i]))
  }

  lemma BitsBack(s: seq<byte>)
    ensures FromBits(ToBits(s)) == s
  {
    forall i | 0 <= i < |s|
      ensures FromBits(ToBits(s))[i] == s[i]
    {
      BitBack(s[i]);
    }
  }

  /** Keccak-256 over the given permutation, as a hash on byte strings. */
  function HashOf(f: Permutation): Hash { (m: seq<byte>) => FromBits(Digest(f, ToBits(m))) }

  /** `evmdb_keccak256` on the bytes of the rest of the code. */
  method HashBytes(f: Permutation, data: seq<byte>) returns (h: Word)
    ensures h == HashOf(f)(data)
  {
    var out := new bv8[32];
    Keccak256(f, ToBits(data), out);
    h := FromBits(out[..]);
  }

  lemma BlocksDetermineBytes(a: seq<byte>, b: seq<byte>)
    requires Pad(ToBits(a)) == Pad(ToBits(b))
    ensures a == b
  {
    PadInjective(ToBits(a), ToBits(b));
    BitsBack(a);
    BitsBack(b);
  }

  /** The blocks absorbed for a signature are the same exactly when everything signed is the same. */
  lemma SignedBlocksExactly(t: Tx, u: Tx)
    requires t.kind != Eip2930 && u.kind != Eip2930
    requires |Preimage(t)| < U64 && |t.data| < U64 && |u.data| < U64
    ensures Pad(ToBits(Preimage(t))) == Pad(ToBits(Preimage(u))) <==> SameSigned(t, u)
  {
    PreimageInjective(t, u);
    if Pad(ToBits(Preimage(t))) == Pad(ToBits(Preimage(u))) {
      BlocksDetermineBytes(Preimage(t), Preimage(u));
    }
  }

  /** Different senders or nonces absorb different blocks for their contract address. */
  lemma CreateBlocksInjective(s: Addr, n: uint64, t: Addr, m: uint64)
    requires Pad(ToBits(CreatePreimage(s, n))) == Pad(ToBits(CreatePreimage(t, m)))
    ensures s == t && n == m
  {
    BlocksDetermineBytes(CreatePreimage(s, n), CreatePreimage(t, m));
    CreatePreimageInjective(s, n, t, m);
  }
}
