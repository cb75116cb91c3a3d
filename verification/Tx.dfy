/**
  Transactions of `src/block/tx.c`: the signed envelope, its decoder, the signing preimage and the choice of the
  recovery id (EIP-155, EIP-1559, EIP-2718).
 */
module Transactions {
  import opened Bytes
  import opened Rlp
  import opened Fields

  datatype Kind = Legacy | Eip2930 | Eip1559

  datatype Tx = Tx(
    kind: Kind, chainId: uint64, nonce: uint64, gasPrice: Word, maxFee: Word, maxPriority: Word, gasLimit: uint64,
    to: Option<Addr>, value: Word, data: seq<byte>, v: uint64, r: Word, s: Word)

  /** A transaction struct after `memset(tx, 0, ...)`. */
  const BLANK: Tx := Tx(Legacy, 0, 0, ZERO_WORD, ZERO_WORD, ZERO_WORD, 0, Some(ZERO_ADDR), ZERO_WORD, [], 0,
                        ZERO_WORD, ZERO_WORD)

  // ---- The lists -------------------------------------------------------------------------------------------

  /** The fields a signature covers. */
  function SigningFields(tx: Tx): seq<Field>
    requires tx.kind != Eip2930
  {
    if tx.kind == Eip1559 then
      [Number(tx.chainId), Number(tx.nonce), Wide(tx.maxPriority), Wide(tx.maxFee), Number(tx.gasLimit),
       Recipient(tx.to), Wide(tx.value), Data(tx.data), NoAccess]
    else if tx.chainId != 0 then
      [Number(tx.nonce), Wide(tx.gasPrice), Number(tx.gasLimit), Recipient(tx.to), Wide(tx.value), Data(tx.data),
       Number(tx.chainId), Wide(ZERO_WORD), Wide(ZERO_WORD)]
    else
      [Number(tx.nonce), Wide(tx.gasPrice), Number(tx.gasLimit), Recipient(tx.to), Wide(tx.value), Data(tx.data)]
  }

  /** The fields of the signed transaction, in the order of the header comment of `src/block/tx.c`. */
  function SignedFields(tx: Tx): seq<Field>
    requires tx.kind != Eip2930
  {
    if tx.kind == Eip1559 then
      [Number(tx.chainId), Number(tx.nonce), Wide(tx.maxPriority), Wide(tx.maxFee), Number(tx.gasLimit),
       Recipient(tx.to), Wide(tx.value), Data(tx.data), NoAccess, Number(tx.v), Wide(tx.r), Wide(tx.s)]
    else
      [Number(tx.nonce), Wide(tx.gasPrice), Number(tx.gasLimit), Recipient(tx.to), Wide(tx.value), Data(tx.data),
       Number(tx.v), Wide(tx.r), Wide(tx.s)]
  }

  function Envelope(kind: Kind, fs: seq<Field>): seq<byte>
  {
    if kind == Eip1559 then [0x02] + EncList(EncPieces(Pieces(fs))) else EncList(EncPieces(Pieces(fs)))
  }

  /** The bytes whose hash is signed. */
  function Preimage(tx: Tx): seq<byte>
    requires tx.kind != Eip2930
  {
    Envelope(tx.kind, SigningFields(tx))
  }

  function SignedEncoding(tx: Tx): seq<byte>
    requires tx.kind != Eip2930
  {
    Envelope(tx.kind, SignedFields(tx))
  }

  // ---- Decoding --------------------------------------------------------------------------------------------

  const TYPES_1559: seq<FieldType> :=
    [TNumber, TNumber, TWide, TWide, TNumber, TRecipient, TWide, TData, TAccess, TNumber, TWide, TWide]

  const TYPES_LEGACY: seq<FieldType> := [TNumber, TWide, TNumber, TRecipient, TWide, TData, TNumber, TWide, TWide]

  /** The chain id that EIP-155 packs into `v`. */
  function ChainOf(v: uint64): uint64 { if v >= 35 then (v - 35) / 2 else 0 }

  function From1559(f: seq<Field>): Tx
    requires Types(f) == TYPES_1559
  {
    assert forall i :: 0 <= i < |f| ==> Types(f)[i] == f[i].Type();
    BLANK.(kind := Eip1559, chainId := f[0].n, nonce := f[1].n, maxPriority := f[2].w, maxFee := f[3].w,
           gasLimit := f[4].n, to := f[5].to, value := f[6].w, data := f[7].bytes, v := f[9].n, r := f[10].w,
           s := f[11].w)
  }

  function FromLegacy(f: seq<Field>): Tx
    requires Types(f) == TYPES_LEGACY
  {
    assert forall i :: 0 <= i < |f| ==> Types(f)[i] == f[i].Type();
    BLANK.(nonce := f[0].n, gasPrice := f[1].w, gasLimit := f[2].n, to := f[3].to, value := f[4].w,
           data := f[5].bytes, v := f[6].n, r := f[7].w, s := f[8].w, chainId := ChainOf(f[6].n))
  }

  function KindOf(raw: seq<byte>): Kind
    requires raw != []
  {
    if raw[0] == 0x01 then Eip2930 else if raw[0] == 0x02 then Eip1559 else Legacy
  }

  /** The outer item of the envelope: the reader for the list contents. */
  function OpenEnvelope(raw: seq<byte>): Result<(Kind, seq<byte>, nat)>
  {
    if raw == [] then Malformed
    else
      var kind := KindOf(raw);
      var payload := if kind == Legacy then raw else raw[1..];
      var item :- DecodeItem(payload, |payload|, 0);
      Ok((kind, payload[item.start..], item.len))
  }

  /** `evmdb_tx_decode`, where `kept` says whether the copy of the calldata can be allocated. */
  function DecodeWith(raw: seq<byte>, kept: bool): Result<Tx>
  {
    var (kind, mem, lim) :- OpenEnvelope(raw);
    var rd := if kept then ReaderOf(mem, lim) else LossyReader(mem, lim);
    match kind
    case Eip1559 =>
      var f :- ReadFields(rd, 0, TYPES_1559);
      Ok(From1559(f))
    case Legacy =>
      var f :- ReadFields(rd, 0, TYPES_LEGACY);
      Ok(FromLegacy(f))
    case Eip2930 => Ok(BLANK.(kind := Eip2930))
  }

  /** The decoder with the memory it needs. */
  function DecodeTx(raw: seq<byte>): Result<Tx> { DecodeWith(raw, true) }

  // ---- Decoding undoes encoding ----------------------------------------------------------------------------

  /** What survives the wire: fields of the other kind are cleared and a legacy chain id is the one inside `v`. */
  function Normal(tx: Tx): Tx
  {
    if tx.kind == Eip1559 then tx.(gasPrice := ZERO_WORD)
    else tx.(maxFee := ZERO_WORD, maxPriority := ZERO_WORD, chainId := ChainOf(tx.v))
  }

  lemma OpenBack(kind: Kind, fs: seq<Field>)
    requires kind != Eip2930 && |Envelope(kind, fs)| < U64
    ensures var body := EncPieces(Pieces(fs));
            OpenEnvelope(Envelope(kind, fs)) == Ok((kind, body, |body|))
  {
    var body := EncPieces(Pieces(fs));
    var raw := Envelope(kind, fs);
    ListFirstByte(body);
    DecodeList(body);
    if kind == Eip1559 {
      assert raw[1..] == EncList(body);
    }
  }

  lemma FieldsBack(fs: seq<Field>)
    requires |EncPieces(Pieces(fs))| < U64 && Sized(fs)
    ensures var body := EncPieces(Pieces(fs)); ReadFields(ReaderOf(body, |body|), 0, Types(fs)) == Ok(fs)
  {
    var es := Encs(Pieces(fs));
    var body := Concat(es);
    forall i | 0 <= i < |fs|
      ensures ReadsAs(ReaderOf(body, |body|), body, |body|, es[i], fs[i])
    {
      ReadsOne(body, |body|, fs[i]);
    }
    ReadsBack(ReaderOf(body, |body|), body, |body|, 0, es, fs);
  }

  lemma EnvelopeSize(kind: Kind, fs: seq<Field>)
    ensures |EncPieces(Pieces(fs))| <= |Envelope(kind, fs)|
  {
  }

  /** Decoding a signed transaction returns every field that was encoded. */
  lemma DecodeUndoesEncode(tx: Tx)
    requires tx.kind != Eip2930 && |SignedEncoding(tx)| < U64 && |tx.data| < U64
    ensures DecodeTx(SignedEncoding(tx)) == Ok(Normal(tx))
  {
    var fs := SignedFields(tx);
    SignedTypes(tx);
    FieldsMeanTx(tx);
    SignedSized(tx);
    DecodeEnvelope(tx.kind, fs, Normal(tx));
  }

  /** What an envelope of the right types decodes to depends only on the fields it was built from. */
  lemma DecodeEnvelope(kind: Kind, fs: seq<Field>, tx: Tx)
    requires kind != Eip2930 && |Envelope(kind, fs)| < U64 && Sized(fs)
    requires kind == Eip1559 ==> Types(fs) == TYPES_1559 && From1559(fs) == tx
    requires kind == Legacy ==> Types(fs) == TYPES_LEGACY && FromLegacy(fs) == tx
    ensures DecodeTx(Envelope(kind, fs)) == Ok(tx)
  {
    OpenBack(kind, fs);
    EnvelopeSize(kind, fs);
    FieldsBack(fs);
  }

  lemma SignedTypes(tx: Tx)
    requires tx.kind != Eip2930
    ensures Types(SignedFields(tx)) == if tx.kind == Eip1559 then TYPES_1559 else TYPES_LEGACY
  {
    var fs := SignedFields(tx);
    assert forall i :: 0 <= i < |fs| ==> Types(fs)[i] == fs[i].Type();
  }

  lemma SignedSized(tx: Tx)
    requires tx.kind != Eip2930 && |tx.data| < U64
    ensures Sized(SignedFields(tx))
  {
  }

  lemma FieldsMeanTx(tx: Tx)
    requires tx.kind != Eip2930
    requires Types(SignedFields(tx)) == if tx.kind == Eip1559 then TYPES_1559 else TYPES_LEGACY
    ensures Normal(tx) == if tx.kind == Eip1559 then From1559(SignedFields(tx)) else FromLegacy(SignedFields(tx))
  {
  }

  // ---- The signing preimage determines what is signed ------------------------------------------------------

  /** The two transactions say the same as far as a signature is concerned. */
  predicate SameSigned(t: Tx, u: Tx)
  {
    && t.kind == u.kind && t.chainId == u.chainId && t.nonce == u.nonce && t.gasLimit == u.gasLimit
    && t.to == u.to && t.value == u.value && t.data == u.data
    && (t.kind == Eip1559 ==> t.maxFee == u.maxFee && t.maxPriority == u.maxPriority)
    && (t.kind == Legacy ==> t.gasPrice == u.gasPrice)
  }

  lemma EnvelopeKind(kind: Kind, fs: seq<Field>)
    requires kind != Eip2930 && |Envelope(kind, fs)| < U64
    ensures Envelope(kind, fs) != [] && (Envelope(kind, fs)[0] == 0x02 <==> kind == Eip1559)
  {
    ListFirstByte(EncPieces(Pieces(fs)));
  }

  lemma EnvelopeInjective(k: Kind, fs: seq<Field>, l: Kind, gs: seq<Field>)
    requires k != Eip2930 && l != Eip2930
    requires Envelope(k, fs) == Envelope(l, gs) && |Envelope(k, fs)| < U64
    ensures k == l && Pieces(fs) == Pieces(gs)
  {
    EnvelopeKind(k, fs);
    EnvelopeKind(l, gs);
    var p, q := EncPieces(Pieces(fs)), EncPieces(Pieces(gs));
    assert EncList(p) == EncList(q) by {
      if k == Eip1559 {
        assert Envelope(k, fs)[1..] == EncList(p) && Envelope(l, gs)[1..] == EncList(q);
      }
    }
    ListInjective(p, q);
    PiecesInjective(Pieces(fs), Pieces(gs));
  }

  lemma SigningTypes(t: Tx, u: Tx)
    requires t.kind == u.kind != Eip2930 && |SigningFields(t)| == |SigningFields(u)|
    ensures Types(SigningFields(t)) == Types(SigningFields(u))
  {
  }

  lemma SigningSized(t: Tx)
    requires t.kind != Eip2930 && |t.data| < U64
    ensures Sized(SigningFields(t))
  {
  }

  lemma FieldsAreSigned(t: Tx, u: Tx)
    requires t.kind == u.kind != Eip2930
    ensures SigningFields(t) == SigningFields(u) <==> SameSigned(t, u)
  {
    var f, g := SigningFields(t), SigningFields(u);
    if f == g {
      assert |f| == |g| && f[0] == g[0] && f[1] == g[1] && f[2] == g[2] && f[3] == g[3] && f[4] == g[4] && f[5] == g[5];
      if |f| == 9 {
        assert f[6] == g[6] && f[7] == g[7];
      }
    }
  }

  /**
    Two legacy or EIP-1559 transactions have the same signing preimage exactly when they agree on everything a
    signature covers; the six-item and nine-item legacy forms and the 0x02 form are never confused.
   */
  lemma PreimageInjective(t: Tx, u: Tx)
    requires t.kind != Eip2930 && u.kind != Eip2930
    requires |Preimage(t)| < U64 && |t.data| < U64 && |u.data| < U64
    ensures Preimage(t) == Preimage(u) <==> SameSigned(t, u)
  {
    if t.kind == u.kind {
      FieldsAreSigned(t, u);
    }
    if Preimage(t) == Preimage(u) {
      EnvelopeInjective(t.kind, SigningFields(t), u.kind, SigningFields(u));
      SigningTypes(t, u);
      SigningSized(t);
      SigningSized(u);
      FieldsInjective(SigningFields(t), SigningFields(u));
    }
  }

  lemma NormalKeepsSigned(tx: Tx)
    requires tx.kind != Eip2930
    ensures SameSigned(Normal(tx), tx) <==> (tx.kind == Legacy ==> tx.chainId == ChainOf(tx.v))
  {
  }

  /** The decoded transaction has the preimage of the original exactly when a legacy chain id is the one inside `v`. */
  lemma DecodeKeepsSigned(tx: Tx)
    requires tx.kind != Eip2930 && |SignedEncoding(tx)| < U64 && |Preimage(tx)| < U64 && |tx.data| < U64
    ensures var back := DecodeTx(SignedEncoding(tx));
            && back.Ok? && back.value.kind == tx.kind
            && (Preimage(back.value) == Preimage(tx) <==> (tx.kind == Legacy ==> tx.chainId == ChainOf(tx.v)))
  {
    DecodeUndoesEncode(tx);
    NormalKeepsSigned(tx);
    PreimageInjective(tx, Normal(tx));
  }

  lemma ThinMeansNoData(kind: Kind, fs: seq<Field>)
    requires kind == Eip1559 ==> Types(fs) == TYPES_1559 == Types(Thin(fs))
    requires kind == Legacy ==> Types(fs) == TYPES_LEGACY == Types(Thin(fs))
    ensures kind == Eip1559 ==> From1559(Thin(fs)) == From1559(fs).(data := [])
    ensures kind == Legacy ==> FromLegacy(Thin(fs)) == FromLegacy(fs).(data := [])
  {
    assert forall i :: 0 <= i < |fs| ==> Types(fs)[i] == fs[i].Type();
  }

  lemma ThinTypes(fs: seq<Field>)
    ensures Types(Thin(fs)) == Types(fs)
  {
  }

  lemma LossyList(mem: seq<byte>, lim: nat, types: seq<FieldType>)
    requires ReadFields(ReaderOf(mem, lim), 0, types).Ok?
    ensures ReadFields(LossyReader(mem, lim), 0, types) == Ok(Thin(ReadFields(ReaderOf(mem, lim), 0, types).value))
  {
    var rd, lossy := ReaderOf(mem, lim), LossyReader(mem, lim);
    forall p: nat, t | rd(p, t).Ok?
      ensures lossy(p, t) == Ok((if rd(p, t).value.0.Data? then Data([]) else rd(p, t).value.0, rd(p, t).value.1))
    {
      ReadLossyThin(mem, lim, p, t);
    }
    LossyReadsThin(rd, lossy, 0, types);
  }

  /**
    When the copy of the calldata cannot be allocated, decoding goes on: the result has every other field and no
    calldata. If there was any, its preimage is no longer the one that was signed.
   */
  lemma LostCalldata(raw: seq<byte>)
    requires DecodeTx(raw).Ok?
    ensures DecodeWith(raw, false) == Ok(DecodeTx(raw).value.(data := []))
  {
    var (kind, mem, lim) := OpenEnvelope(raw).value;
    if kind != Eip2930 {
      var types := if kind == Eip1559 then TYPES_1559 else TYPES_LEGACY;
      var f := ReadFields(ReaderOf(mem, lim), 0, types).value;
      LossyList(mem, lim, types);
      ThinTypes(f);
      ThinMeansNoData(kind, f);
    }
  }

  /** What the signature covers is then no longer what was signed. */
  lemma LostCalldataIsNotSigned(tx: Tx)
    requires tx.kind != Eip2930 && |Preimage(tx)| < U64 && 0 < |tx.data| < U64
    ensures Preimage(tx.(data := [])) != Preimage(tx)
  {
    PreimageInjective(tx, tx.(data := []));
  }

  // ---- Recovery id -----------------------------------------------------------------------------------------

  /** The recovery id that `evmdb_tx_recover_sender` takes from `v`. */
  function RecoveryId(tx: Tx): Option<nat>
  {
    if tx.kind != Legacy then (if tx.v > 1 then None else Some(tx.v))
    else if tx.v == 27 || tx.v == 28 then Some(tx.v - 27)
    else if tx.v >= 35 then Some((tx.v - 35) % 2)
    else None
  }

  /**
    A replay-protected legacy transaction for chain `c` and parity `p`, sent over the wire, comes back with chain
    id `c`, recovery id `p` and the preimage its sender signed.
   */
  lemma ReplayProtection(tx: Tx, c: uint64, p: nat)
    requires tx.kind == Legacy && tx.chainId == c && p < 2 && tx.v == 2 * c + 35 + p
    requires |SignedEncoding(tx)| < U64 && |tx.data| < U64
    ensures var back := DecodeTx(SignedEncoding(tx));
            back.Ok? && back.value.chainId == c && RecoveryId(back.value) == Some(p)
            && SameSigned(back.value, tx)
  {
    ReplayNormal(tx, c, p);
    DecodeUndoesEncode(tx);
  }

  lemma ReplayNormal(tx: Tx, c: uint64, p: nat)
    requires tx.kind == Legacy && tx.chainId == c && p < 2 && tx.v == 2 * c + 35 + p
    ensures Normal(tx).chainId == c && RecoveryId(Normal(tx)) == Some(p) && SameSigned(Normal(tx), tx)
  {
    assert ChainOf(tx.v) == c;
  }

  /** Without replay protection `v` is 27 or 28: no chain id, and the signature covers the six-item list. */
  lemma Unprotected(tx: Tx, p: nat)
    requires tx.kind == Legacy && tx.chainId == 0 && p < 2 && tx.v == 27 + p
    requires |SignedEncoding(tx)| < U64 && |tx.data| < U64
    ensures var back := DecodeTx(SignedEncoding(tx));
            back.Ok? && back.value.chainId == 0 && RecoveryId(back.value) == Some(p)
            && SameSigned(back.value, tx) && |SigningFields(back.value)| == 6
  {
    UnprotectedNormal(tx, p);
    DecodeUndoesEncode(tx);
  }

  lemma UnprotectedNormal(tx: Tx, p: nat)
    requires tx.kind == Legacy && tx.chainId == 0 && p < 2 && tx.v == 27 + p
    ensures var t := Normal(tx);
            t.chainId == 0 && RecoveryId(t) == Some(p) && SameSigned(t, tx) && |SigningFields(t)| == 6
  {
  }
}
