/**
  Contract addresses in `src/evm/executor.c`: the short-form RLP writers into fixed arrays, and the address
  derived from sender and nonce. `keccak` is the hash, as any function.
 */
module CreateAddress {
  import opened Bytes
  import opened Rlp
  import opened RlpBuffers

  type Hash = seq<byte> -> Word

  /** `rlp_encode_bytes`: always a one-byte header, whatever the length. */
  function ShortBytes(data: seq<byte>): seq<byte>
  {
    if |data| == 1 && data[0] <= 0x7f then data else [Cast8(0x80 + |data|)] + data
  }

  /** `rlp_encode_list` */
  function ShortList(payload: seq<byte>): seq<byte> { [Cast8(0xc0 + |payload|)] + payload }

  lemma LongHeaderSize(len: nat, shortBase: byte, longBase: byte)
    requires len > 55
    ensures |Header(len, shortBase, longBase)| >= 2
  {
    MinBENoLeadingZero(len);
  }

  /** The short writer and the general writer agree byte for byte exactly on strings of up to 55 bytes. */
  lemma ShortBytesExactly(data: seq<byte>)
    ensures ShortBytes(data) == EncBytes(data) <==> |data| <= 55
  {
    if |data| > 55 {
      LongHeaderSize(|data|, 0x80, 0xb7);
      assert |EncBytes(data)| != |ShortBytes(data)|;
    }
  }

  lemma ShortListExactly(payload: seq<byte>)
    ensures ShortList(payload) == EncList(payload) <==> |payload| <= 55
  {
    if |payload| > 55 {
      LongHeaderSize(|payload|, 0xc0, 0xf7);
      assert |EncList(payload)| != |ShortList(payload)|;
    }
  }

  function CreatePayload(sender: Addr, nonce: uint64): seq<byte> { EncBytes(sender) + EncBytes(MinBE(nonce)) }

  /** The bytes hashed for a contract address: RLP([sender, nonce]). */
  function CreatePreimage(sender: Addr, nonce: uint64): seq<byte> { EncList(CreatePayload(sender, nonce)) }

  function CreateAddressOf(keccak: Hash, sender: Addr, nonce: uint64): Addr
  {
    keccak(CreatePreimage(sender, nonce))[12..]
  }

  lemma ShortEncSize(data: seq<byte>)
    requires |data| <= 55
    ensures |EncBytes(data)| <= |data| + 1
  {
  }

  /** Every payload fits the 32-byte array, the short form and the 64-byte array. */
  lemma CreateSizes(sender: Addr, nonce: uint64)
    ensures |CreatePayload(sender, nonce)| <= 30 && |CreatePreimage(sender, nonce)| <= 31
  {
    MinBELength64(nonce);
    ShortEncSize(sender);
    ShortEncSize(MinBE(nonce));
  }

  /** Different senders or nonces hash different bytes. */
  lemma CreatePreimageInjective(s: Addr, n: uint64, t: Addr, m: uint64)
    requires CreatePreimage(s, n) == CreatePreimage(t, m)
    ensures s == t && n == m
  {
    CreateSizes(s, n);
    CreateSizes(t, m);
    ListInjective(CreatePayload(s, n), CreatePayload(t, m));
    PrefixFree(Str(s), EncBytes(MinBE(n)), Str(t), EncBytes(MinBE(m)));
    SameString(MinBE(n), MinBE(m));
    MinBEValue(n);
    MinBEValue(m);
  }

  /** The bytes hashed are the list of the sender and the nonce, in this order and with nothing else. */
  lemma CreatePreimageItems(s: Addr, n: uint64, ps: seq<Piece>)
    ensures CreatePreimage(s, n) == EncList(EncPieces(ps)) <==> ps == [Str(s), Str(MinBE(n))]
  {
    var items := [Str(s), Str(MinBE(n))];
    EncPiecesCons(items);
    EncPiecesCons(items[1..]);
    assert items[1..] == [Str(MinBE(n))] && items[1..][1..] == [];
    assert EncPieces(items) == CreatePayload(s, n);
    if CreatePreimage(s, n) == EncList(EncPieces(ps)) {
      CreateSizes(s, n);
      ListInjective(EncPieces(ps), EncPieces(items));
      PiecesInjective(ps, items);
    }
  }

  const ADDRESS_SPACE: nat := 0x1_0000000000_0000000000_0000000000_0000000000 // 2^160

  lemma AddressSpace()
    ensures Pow256(20) == ADDRESS_SPACE
  {
    assert Pow256(4) == 0x1_0000_0000;
    assert Pow256(8) == U64;
    assert Pow256(12) == 0x1_00000000_00000000_00000000;
    assert Pow256(16) == 0x1_00000000_00000000_00000000_00000000;
  }

  /** The address is the hash of that list modulo 2^160. */
  lemma AddressIsHashModulo(keccak: Hash, s: Addr, n: uint64)
    ensures BE(CreateAddressOf(keccak, s, n)) == BE(keccak(CreatePreimage(s, n))) % ADDRESS_SPACE
  {
    LastTwenty(keccak(CreatePreimage(s, n)));
  }

  lemma LastTwenty(h: Word)
    ensures BE(h[12..]) == BE(h) % ADDRESS_SPACE
  {
    assert h == h[..12] + h[12..];
    BEAppend(h[..12], h[12..]);
    BEBound(h[12..]);
    AddressSpace();
    LowPart(BE(h[..12]), BE(h[12..]));
  }

  lemma LowPart(q: nat, r: nat)
    requires r < ADDRESS_SPACE
    ensures (q * ADDRESS_SPACE + r) % ADDRESS_SPACE == r
  {
  }

  lemma SameString(a: seq<byte>, b: seq<byte>)
    requires EncBytes(a) == EncBytes(b) && |EncBytes(a)| < U64
    ensures a == b
  {
    assert EncBytes(a) + [] == EncBytes(a) && EncBytes(b) + [] == EncBytes(b);
    PrefixFree(Str(a), [], Str(b), []);
  }

  method EncodeBytes(data: seq<byte>, out: array<byte>, off: nat) returns (n: nat)
    requires off + |data| + 1 <= out.Length
    modifies out
    ensures n == |ShortBytes(data)| && n <= |data| + 1
    ensures out[off..off + n] == ShortBytes(data) && out[..off] == old(out[..off])
  {
    if |data| == 1 && data[0] <= 0x7f {
      out[off] := data[0];
      return 1;
    }
    out[off] := Cast8(0x80 + |data|);
    forall i | 0 <= i < |data| {
      out[off + 1 + i] := data[i];
    }
    n := |data| + 1;
  }

  method EncodeUint64(value: uint64, out: array<byte>, off: nat) returns (n: nat)
    requires off + 9 <= out.Length
    modifies out
    ensures n == |EncBytes(MinBE(value))| && n <= 9
    ensures out[off..off + n] == EncBytes(MinBE(value)) && out[..off] == old(out[..off])
  {
    MinBELength64(value);
    if value == 0 {
      out[off] := 0x80;
      ShortBytesExactly(MinBE(value));
      return 1;
    }
    var bytes := MinimalBytes(value);
    ShortBytesExactly(bytes);
    n := EncodeBytes(bytes, out, off);
  }

  method EncodeList(payload: seq<byte>, out: array<byte>) returns (n: nat)
    requires |payload| + 1 <= out.Length
    modifies out
    ensures n == |payload| + 1 && out[..n] == ShortList(payload)
  {
    out[0] := Cast8(0xc0 + |payload|);
    forall i | 0 <= i < |payload| {
      out[1 + i] := payload[i];
    }
    n := |payload| + 1;
  }

  /** The sender and the nonce, one behind the other. */
  method EncodePayload(sender: Addr, nonce: uint64, payload: array<byte>) returns (len: nat)
    requires payload.Length == 32
    modifies payload
    ensures len == |CreatePayload(sender, nonce)| <= 30 && payload[..len] == CreatePayload(sender, nonce)
  {
    CreateSizes(sender, nonce);
    SenderSize(sender);
    var n := EncodeBytes(sender, payload, 0);
    ghost var first := payload[0..n];
    var m := EncodeUint64(nonce, payload, n);
    assert payload[..n] == first;
    len := n + m;
    assert payload[..len] == payload[..n] + payload[n..len];
  }

  lemma SenderSize(sender: Addr)
    ensures ShortBytes(sender) == EncBytes(sender) && |EncBytes(sender)| == 21
  {
    ShortBytesExactly(sender);
  }

  /** `evmdb_evm_compute_create_address`, with its two fixed arrays. */
  method ComputeCreateAddress(keccak: Hash, sender: Addr, nonce: uint64) returns (addr: Addr)
    ensures addr == CreateAddressOf(keccak, sender, nonce)
  {
    var payload := new byte[32];
    var encoded := new byte[64];
    var n := EncodePayload(sender, nonce, payload);
    ShortListExactly(CreatePayload(sender, nonce));
    var k := EncodeList(payload[..n], encoded);
    addr := keccak(encoded[..k])[12..];
  }
}
