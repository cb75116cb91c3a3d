/** The imperative side of `src/block/tx.c`: the cursor that decodes, and the two buffers that build a preimage. */
module TxCode {
  import opened Bytes
  import opened Rlp
  import opened Heaps
  import opened RlpBuffers
  import opened Fields
  import opened Transactions

  /** `rlp_reader_t`: a data pointer, the declared length, and a cursor that moves. */
  class RlpReader {
    const data: seq<byte>
    const len: nat
    var pos: nat

    constructor (data: seq<byte>, len: nat)
      ensures this.data == data && this.len == len && pos == 0
    {
      this.data, this.len, pos := data, len, 0;
    }

    /** The length-of-length loop: `len = (len << 8) | byte`. */
    method AccumulateLength(start: nat, k: nat) returns (n: nat)
      requires start + k <= |data|
      ensures n == BEAt(data, start, k)
    {
      n := 0;
      for i := 0 to k
        invariant n == BEAt(data, start, i)
      {
        n := n * 256 + data[start + i];
      }
    }

    /** `rlp_decode_item`. When it fails the cursor may already have moved; no caller looks at it again. */
    method DecodeItem() returns (r: Result<Item>)
      modifies this
      ensures r == Rlp.DecodeItem(data, len, old(pos))
      ensures r.Ok? ==> pos == r.value.next
    {
      if pos >= len {
        return Malformed;
      }
      if pos >= |data| {
        return Overrun;
      }
      var prefix := data[pos];
      if prefix <= 0x7f {
        pos := pos + 1;
        return Ok(Item(pos - 1, 1, pos));
      }
      if prefix <= 0xb7 {
        var n := prefix - 0x80;
        pos := pos + 1;
        if Cast64(pos + n) > len {
          return Malformed;
        }
        var start := pos;
        pos := Cast64(pos + n);
        return Ok(Item(start, n, pos));
      }
      if prefix <= 0xbf {
        var k := prefix - 0xb7;
        pos := pos + 1;
        if Cast64(pos + k) > len {
          return Malformed;
        }
        if pos + k > |data| {
          return Overrun;
        }
        var n := AccumulateLength(pos, k);
        pos := pos + k;
        if Cast64(pos + n) > len {
          return Malformed;
        }
        var start := pos;
        pos := Cast64(pos + n);
        return Ok(Item(start, n, pos));
      }
      if prefix <= 0xf7 {
        pos := pos + 1;
        return Ok(Item(pos, prefix - 0xc0, pos));
      }
      var k := prefix - 0xf7;
      pos := pos + 1;
      if Cast64(pos + k) > len {
        return Malformed;
      }
      if pos + k > |data| {
        return Overrun;
      }
      var n := AccumulateLength(pos, k);
      pos := pos + k;
      return Ok(Item(pos, n, pos));
    }

    /** One `rlp_decode_item` followed by the conversion of the item to the field it stands for. */
    method Next(t: FieldType, kept: bool) returns (r: Result<Field>)
      modifies this
      ensures var s := if kept then ReadTyped(data, len, old(pos), t) else ReadLossy(data, len, old(pos), t);
              if s.Ok? then r == Ok(s.value.0) && pos == s.value.1 else r == s.PropagateFailure()
    {
      var item :- DecodeItem();
      if t.TData? && !kept {
        return Ok(Data([]));
      }
      var n := Min(item.len, t.Cap());
      if item.start + n > |data| {
        return Overrun;
      }
      r := Ok(t.Parse(data[item.start..item.start + n]));
    }

    /** The same step, seen as one of a reader. */
    method NextWith(t: FieldType, kept: bool, ghost rd: Reader) returns (r: Result<Field>)
      requires rd == if kept then ReaderOf(data, len) else LossyReader(data, len)
      modifies this
      ensures var s := rd(old(pos), t);
              if s.Ok? then r == Ok(s.value.0) && pos == s.value.1 else r == s.PropagateFailure()
    {
      ReaderKept(data, len, kept, pos, t);
      r := Next(t, kept);
    }

    /** The run of `Next` calls that fills a transaction, one per entry of the field table. */
    method NextAll(types: seq<FieldType>, kept: bool) returns (r: Result<seq<Field>>)
      modifies this
      ensures r == ReadFields(if kept then ReaderOf(data, len) else LossyReader(data, len), old(pos), types)
    {
      ghost var rd, start := if kept then ReaderOf(data, len) else LossyReader(data, len), pos;
      var fs := [];
      assert types[0..] == types;
      PrependNothing(ReadFields(rd, pos, types));
      for i := 0 to |types|
        invariant Prepend(fs, ReadFields(rd, pos, types[i..])) == ReadFields(rd, start, types)
      {
        PrependStep(rd, pos, types[i..], fs);
        assert types[i..][1..] == types[i + 1..];
        var f :- NextWith(types[i], kept, rd);
        fs := fs + [f];
      }
      assert fs + [] == fs;
      r := Ok(fs);
    }
  }

  lemma ReaderKept(mem: seq<byte>, lim: nat, kept: bool, pos: nat, t: FieldType)
    ensures (if kept then ReaderOf(mem, lim) else LossyReader(mem, lim))(pos, t)
            == if kept then ReadTyped(mem, lim, pos, t) else ReadLossy(mem, lim, pos, t)
  {
  }

  function Prepend(fs: seq<Field>, r: Result<seq<Field>>): Result<seq<Field>>
  {
    if r.Ok? then Ok(fs + r.value) else r
  }

  lemma PrependNothing(r: Result<seq<Field>>)
    ensures Prepend([], r) == r
  {
    if r.Ok? {
      assert [] + r.value == r.value;
    }
  }

  lemma PrependStep(rd: Reader, pos: nat, types: seq<FieldType>, fs: seq<Field>)
    requires WellTyped(rd) && types != []
    ensures var s := rd(pos, types[0]);
            Prepend(fs, ReadFields(rd, pos, types))
            == if s.Ok? then Prepend(fs + [s.value.0], ReadFields(rd, s.value.1, types[1..]))
               else s.PropagateFailure()
  {
    var s := rd(pos, types[0]);
    if s.Ok? {
      var rest := ReadFields(rd, s.value.1, types[1..]);
      if rest.Ok? {
        assert fs + ([s.value.0] + rest.value) == fs + [s.value.0] + rest.value;
      }
    }
  }

  /** `evmdb_tx_decode`, given the allocator's answers for the copies of the raw bytes and of the calldata. */
  method TxDecode(raw: seq<byte>, copied: bool, kept: bool) returns (r: Result<Tx>)
    ensures r == if copied then DecodeWith(raw, kept) else Malformed
    ensures copied && kept ==> r == DecodeTx(raw)
  {
    if raw == [] || !copied {
      return Malformed;
    }
    var kind := KindOf(raw);
    var payload := if kind == Legacy then raw else raw[1..];
    var reader := new RlpReader(payload, |payload|);
    var item :- reader.DecodeItem();
    var list := new RlpReader(payload[item.start..], item.len);
    match kind
    case Eip1559 =>
      var f :- list.NextAll(TYPES_1559, kept);
      r := Ok(From1559(f));
    case Legacy =>
      var f :- list.NextAll(TYPES_LEGACY, kept);
      r := Ok(FromLegacy(f));
    case Eip2930 => r := Ok(BLANK.(kind := Eip2930));
  }

  /** One of the `rlp_append_*` calls: the field is appended in its wire form. */
  method AppendField(heap: Heap, buf: RlpBuffer, f: Field) returns (ok: bool)
    requires buf.Valid() && buf.len + |f.ToPiece().Enc()| <= MAX_BUFFER
    modifies buf, buf.data, heap
    ensures old(heap.calls) <= heap.calls && (ok <==> heap.Granted(old(heap.calls)))
    ensures buf.Valid() && (buf.data == old(buf.data) || fresh(buf.data))
    ensures Appended(old(buf.Contents()), f.ToPiece().Enc(), ok, buf.Contents())
  {
    match f
    case Number(n) => ok := buf.AppendUint64(heap, n);
    case Wide(w) => ok := buf.AppendBytes32(heap, w);
    case Recipient(None) => ok := buf.AppendAddress(heap, ZERO_ADDR, true);
    case Recipient(Some(a)) => ok := buf.AppendAddress(heap, a, false);
    case Data(b) => ok := buf.AppendBytes(heap, b);
    case NoAccess => ok := buf.AppendByte(heap, 0xc0);
  }

  lemma ConcatNext(es: seq<seq<byte>>, i: nat)
    requires i < |es|
    ensures Concat(es[..i + 1]) == Concat(es[..i]) + es[i]
    ensures |Concat(es[..i + 1])| <= |Concat(es)|
  {
    ConcatSplit(es[..i + 1], i);
    assert es[..i + 1][..i] == es[..i] && es[..i + 1][i..] == [es[i]];
    assert Concat([es[i]]) == es[i] + Concat([]);
    ConcatSplit(es, i + 1);
  }

  /** The chain of append calls over the fields of a list. */
  method AppendFields(heap: Heap, buf: RlpBuffer, fs: seq<Field>) returns (ok: bool)
    requires buf.Valid() && buf.Contents() == [] && |EncPieces(Pieces(fs))| <= MAX_BUFFER
    modifies buf, buf.data, heap
    ensures old(heap.calls) <= heap.calls && (ok <==> heap.Granted(old(heap.calls)))
    ensures buf.Valid() && (buf.data == old(buf.data) || fresh(buf.data))
    ensures ok ==> buf.Contents() == EncPieces(Pieces(fs))
  {
    ghost var es := Encs(Pieces(fs));
    for i := 0 to |fs|
      invariant buf.Valid() && (buf.data == old(buf.data) || fresh(buf.data))
      invariant old(heap.calls) <= heap.calls && heap.Granted(old(heap.calls))
      invariant buf.Contents() == Concat(es[..i])
    {
      ConcatNext(es, i);
      ok := AppendField(heap, buf, fs[i]);
      if !ok {
        return;
      }
    }
    assert es[..|fs|] == es;
    ok := true;
  }

  /** The bytes that `evmdb_tx_signing_hash` hands to Keccak; it fails exactly for EIP-2930 or when refused memory. */
  method SigningPreimage(heap: Heap, tx: Tx) returns (ok: bool, encoded: seq<byte>)
    requires tx.kind != Eip2930 ==> |Preimage(tx)| <= MAX_BUFFER
    modifies heap
    ensures old(heap.calls) <= heap.calls
    ensures ok <==> tx.kind != Eip2930 && heap.Granted(old(heap.calls))
    ensures ok ==> encoded == Preimage(tx)
  {
    encoded := [];
    if tx.kind == Eip2930 {
      return false, [];
    }
    var fs := SigningFields(tx);
    EnvelopeSize(tx.kind, fs);
    ok, encoded := BuildEnvelope(heap, tx.kind, fs);
  }

  method BuildEnvelope(heap: Heap, kind: Kind, fs: seq<Field>) returns (ok: bool, encoded: seq<byte>)
    requires |Envelope(kind, fs)| <= MAX_BUFFER && |EncPieces(Pieces(fs))| <= MAX_BUFFER
    modifies heap
    ensures old(heap.calls) <= heap.calls && (ok <==> heap.Granted(old(heap.calls)))
    ensures ok ==> encoded == Envelope(kind, fs)
  {
    encoded := [];
    var payload := new RlpBuffer();
    ok := AppendFields(heap, payload, fs);
    if ok {
      ok, encoded := WrapPayload(heap, kind == Eip1559, payload);
    }
  }

  /** The type byte, if there is one, and the list around the payload. */
  method WrapPayload(heap: Heap, typed: bool, payload: RlpBuffer) returns (ok: bool, encoded: seq<byte>)
    requires payload.Valid() && 1 + |EncList(payload.Contents())| <= MAX_BUFFER + (if typed then 0 else 1)
    modifies heap
    ensures old(heap.calls) <= heap.calls && (ok <==> heap.Granted(old(heap.calls)))
    ensures ok ==> encoded == (if typed then [0x02] else []) + EncList(payload.Contents())
  {
    encoded := [];
    var out := new RlpBuffer();
    if typed {
      ok := out.AppendByte(heap, 0x02);
      if !ok {
        return;
      }
      assert out.Contents() == [0x02];
    }
    ok := out.WrapList(heap, payload);
    if ok {
      encoded := out.data[..out.len];
    }
  }
}
