/**
  What stands on the wire: the items of a transaction list one by one, what the decoder of `src/block/tx.c` makes of
  any such list, and how the list that is signed lies in the list that is sent.
 */
module Wires {
  import opened Bytes
  import opened Rlp
  import opened Fields
  import opened Transactions

  // ---- What is signed is the head of what is sent ----------------------------------------------------------

  lemma PayloadItems(tx: Tx, ps: seq<Piece>)
    requires tx.kind != Eip2930 && |SignedEncoding(tx)| < U64
    requires OpenEnvelope(SignedEncoding(tx)) == Ok((tx.kind, EncPieces(ps), |EncPieces(ps)|))
    ensures ps == Pieces(SignedFields(tx))
  {
    OpenBack(tx.kind, SignedFields(tx));
    EnvelopeSize(tx.kind, SignedFields(tx));
    PiecesInjective(ps, Pieces(SignedFields(tx)));
  }

  lemma HeadPieces(fs: seq<Field>, gs: seq<Field>, n: nat)
    requires n <= |fs| && n <= |gs| && fs[..n] == gs[..n]
    ensures Pieces(fs)[..n] == Pieces(gs)[..n]
  {
    forall i | 0 <= i < n
      ensures Pieces(fs)[i] == Pieces(gs)[i]
    {
      assert fs[..n][i] == gs[..n][i];
    }
  }

  lemma ZeroIsEmpty()
    ensures Strip(ZERO_WORD) == []
  {
  }

  /** The items that replay protection appends to the signed list: the chain id and two empty strings. */
  function ReplayItems(chainId: uint64): seq<Piece>
  {
    if chainId == 0 then [] else [Str(MinBE(chainId)), Str([]), Str([])]
  }

  lemma SigningPieces1559(tx: Tx)
    requires tx.kind == Eip1559
    ensures |SignedFields(tx)| == 12 && Pieces(SigningFields(tx)) == Pieces(SignedFields(tx))[..9]
  {
    var f, g := SignedFields(tx), SigningFields(tx);
    assert f[..9] == g[..9];
    HeadPieces(f, g, 9);
    assert Pieces(g)[..9] == Pieces(g);
  }

  lemma ZeroPiece()
    ensures Wide(ZERO_WORD).ToPiece() == Str([])
  {
    ZeroIsEmpty();
  }

  /** A list with three more fields behind the first six. */
  lemma LastThree(f: seq<Field>, g: seq<Field>, a: Field, b: Field)
    requires |f| == 9 && |g| == 9 && f[..6] == g[..6] && g[6] == a && g[7] == b && g[8] == b
    ensures Pieces(g) == Pieces(f)[..6] + [a.ToPiece(), b.ToPiece(), b.ToPiece()]
  {
    HeadPieces(f, g, 6);
    assert Pieces(g) == Pieces(g)[..6] + [a.ToPiece(), b.ToPiece(), b.ToPiece()];
  }

  lemma ReplayPieces(c: uint64)
    requires c != 0
    ensures var z := Wide(ZERO_WORD); ReplayItems(c) == [Number(c).ToPiece(), z.ToPiece(), z.ToPiece()]
  {
    ZeroPiece();
  }

  lemma LegacyLists(tx: Tx)
    requires tx.kind == Legacy
    ensures var f, g := SignedFields(tx), SigningFields(tx);
            && |f| == 9 && |g| >= 6 && f[..6] == g[..6]
            && (tx.chainId == 0 ==> |g| == 6)
            && (tx.chainId != 0 ==>
                  |g| == 9 && g[6] == Number(tx.chainId) && g[7] == Wide(ZERO_WORD) && g[8] == Wide(ZERO_WORD))
  {
    var f, g := SignedFields(tx), SigningFields(tx);
    assert |g| >= 6 && f[0] == g[0] && f[1] == g[1] && f[2] == g[2] && f[3] == g[3] && f[4] == g[4] && f[5] == g[5];
  }

  lemma SigningPiecesLegacy(tx: Tx, f: seq<Field>, g: seq<Field>)
    requires tx.kind == Legacy && f == SignedFields(tx) && g == SigningFields(tx)
    ensures |f| == 9 && Pieces(g) == Pieces(f)[..6] + ReplayItems(tx.chainId)
  {
    LegacyLists(tx);
    LegacyPieces(f, g, tx.chainId);
  }

  lemma LegacyPieces(f: seq<Field>, g: seq<Field>, c: uint64)
    requires |f| == 9 && |g| >= 6 && f[..6] == g[..6] && (c == 0 ==> |g| == 6)
    requires c != 0 ==> |g| == 9 && g[6] == Number(c) && g[7] == Wide(ZERO_WORD) && g[8] == Wide(ZERO_WORD)
    ensures Pieces(g) == Pieces(f)[..6] + ReplayItems(c)
  {
    if c != 0 {
      ReplayPieces(c);
      LastThree(f, g, Number(c), Wide(ZERO_WORD));
    } else {
      HeadPieces(f, g, 6);
      assert Pieces(g)[..6] == Pieces(g);
    }
  }

  /**
    Whatever list of items is found in a sent transaction, the signed bytes are its head: for EIP-1559 the type byte and
    the list of the first nine items, for a legacy transaction the list of the first six, followed by the chain id and
    two empty strings if there is a chain id.
   */
  lemma SignsHeadOfWire(tx: Tx, ps: seq<Piece>)
    requires tx.kind != Eip2930 && |SignedEncoding(tx)| < U64
    requires OpenEnvelope(SignedEncoding(tx)) == Ok((tx.kind, EncPieces(ps), |EncPieces(ps)|))
    ensures tx.kind == Eip1559 ==> |ps| == 12 && Preimage(tx) == [0x02] + EncList(EncPieces(ps[..9]))
    ensures tx.kind == Legacy ==>
              |ps| == 9 && Preimage(tx) == EncList(EncPieces(ps[..6] + ReplayItems(tx.chainId)))
  {
    PayloadItems(tx, ps);
    if tx.kind == Eip1559 {
      SigningPieces1559(tx);
    } else {
      SigningPiecesLegacy(tx, SignedFields(tx), SigningFields(tx));
    }
  }

  /** And every sent transaction holds such a list. */
  lemma WireHasItems(tx: Tx) returns (ps: seq<Piece>)
    requires tx.kind != Eip2930 && |SignedEncoding(tx)| < U64
    ensures OpenEnvelope(SignedEncoding(tx)) == Ok((tx.kind, EncPieces(ps), |EncPieces(ps)|))
  {
    ps := Pieces(SignedFields(tx));
    OpenBack(tx.kind, SignedFields(tx));
  }

  // ---- What the decoder makes of a list --------------------------------------------------------------------

  /** The part of an item that the decoder looks at. */
  function Used(p: Piece, cap: nat): (c: seq<byte>)
    ensures |c| <= cap
  {
    p.Content()[..Min(|p.Content()|, cap)]
  }

  lemma ReadClipped(mem: seq<byte>, lim: nat, pos: nat, item: Item, c: seq<byte>, cap: nat)
    requires DecodeItem(mem, lim, pos) == Ok(item) && At(mem, item.start, c) && item.len == |c|
    ensures ReadField(mem, lim, pos, cap) == Ok((c[..Min(|c|, cap)], item.next))
  {
    var n := Min(|c|, cap);
    assert mem[item.start..item.start + n] == c[..n];
  }

  lemma ReadsUsed(mem: seq<byte>, lim: nat, pos: nat, p: Piece, t: FieldType)
    requires At(mem, pos, p.Enc()) && pos + |p.Enc()| <= lim < U64
    ensures ReadTyped(mem, lim, pos, t) == Ok((t.Parse(Used(p, t.Cap())), pos + |p.Enc()|))
  {
    DecodePiece(mem, lim, pos, p);
    var n := |p.Content()|;
    ReadClipped(mem, lim, pos, Item(pos + |p.Enc()| - n, n, pos + |p.Enc()|), p.Content(), t.Cap());
  }

  lemma UsedReadsAs(mem: seq<byte>, lim: nat, p: Piece, t: FieldType)
    requires lim < U64
    ensures ReadsAs(ReaderOf(mem, lim), mem, lim, p.Enc(), t.Parse(Used(p, t.Cap())))
  {
    forall pos: nat | At(mem, pos, p.Enc()) && pos + |p.Enc()| <= lim
      ensures ReaderOf(mem, lim)(pos, t) == Ok((t.Parse(Used(p, t.Cap())), pos + |p.Enc()|))
    {
      ReadsUsed(mem, lim, pos, p, t);
    }
  }

  /** The fields that a list of items stands for. */
  function Meaning(ps: seq<Piece>, types: seq<FieldType>): (fs: seq<Field>)
    requires |ps| == |types|
    ensures Types(fs) == types
    ensures forall i :: 0 <= i < |ps| ==> fs[i] == types[i].Parse(Used(ps[i], types[i].Cap()))
  {
    var fs := seq(|ps|, i requires 0 <= i < |ps| => types[i].Parse(Used(ps[i], types[i].Cap())));
    assert forall i :: 0 <= i < |fs| ==> Types(fs)[i] == types[i];
    fs
  }

  lemma ListMeaning(ps: seq<Piece>, types: seq<FieldType>)
    requires |ps| == |types| && |EncPieces(ps)| < U64
    ensures var body := EncPieces(ps); ReadFields(ReaderOf(body, |body|), 0, types) == Ok(Meaning(ps, types))
  {
    var es, fs, body := Encs(ps), Meaning(ps, types), EncPieces(ps);
    forall i | 0 <= i < |fs|
      ensures ReadsAs(ReaderOf(body, |body|), body, |body|, es[i], fs[i])
    {
      UsedReadsAs(body, |body|, ps[i], types[i]);
    }
    ReadsBack(ReaderOf(body, |body|), body, |body|, 0, es, fs);
  }

  /** A transaction with the given items on the wire. */
  function WireOf(kind: Kind, ps: seq<Piece>): seq<byte>
  {
    (if kind == Eip1559 then [0x02] else []) + EncList(EncPieces(ps))
  }

  lemma OpenWire(kind: Kind, ps: seq<Piece>)
    requires kind != Eip2930 && |WireOf(kind, ps)| < U64
    ensures var body := EncPieces(ps); OpenEnvelope(WireOf(kind, ps)) == Ok((kind, body, |body|))
    ensures |EncPieces(ps)| < U64
  {
    var body := EncPieces(ps);
    ListFirstByte(body);
    DecodeList(body);
    if kind == Eip1559 {
      assert WireOf(kind, ps)[1..] == EncList(body);
    } else {
      assert WireOf(kind, ps) == EncList(body);
    }
  }

  /** The number in the part of an item that is used. */
  function Value(p: Piece, cap: nat): nat { BE(Used(p, cap)) }

  /** A recipient item: none if it is empty, otherwise the address with its value. */
  predicate NamesRecipient(p: Piece, to: Option<Addr>)
  {
    (to.None? <==> p.Content() == []) && (to.Some? ==> BE(to.value) == Value(p, 20))
  }

  /** What a single item comes to mean. */
  predicate Means(p: Piece, f: Field)
  {
    match f
    case Number(n) => n == Value(p, 8)
    case Wide(w) => BE(w) == Value(p, 32)
    case Recipient(to) => NamesRecipient(p, to)
    case Data(b) => b == p.Content()
    case NoAccess => true
  }

  lemma ParseMeans(p: Piece, t: FieldType)
    requires |p.Content()| < U64
    ensures Means(p, t.Parse(Used(p, t.Cap())))
  {
    match t
    case TWide => BEPad(Used(p, 32), 32);
    case TRecipient => BEPad(Used(p, 20), 20);
    case _ =>
  }

  lemma MeaningMeans(ps: seq<Piece>, types: seq<FieldType>)
    requires |ps| == |types| && |EncPieces(ps)| < U64
    ensures forall i :: 0 <= i < |ps| ==> Means(ps[i], Meaning(ps, types)[i])
  {
    forall i | 0 <= i < |ps|
      ensures Means(ps[i], Meaning(ps, types)[i])
    {
      ContentFits(ps, i);
      ParseMeans(ps[i], types[i]);
    }
  }

  /** Which item is which field of a legacy transaction. */
  predicate LegacyNamed(tx: Tx, ps: seq<Piece>)
    requires |ps| == 9
  {
    && tx.kind == Legacy && tx.nonce == Value(ps[0], 8) && BE(tx.gasPrice) == Value(ps[1], 32)
    && tx.gasLimit == Value(ps[2], 8) && NamesRecipient(ps[3], tx.to) && BE(tx.value) == Value(ps[4], 32)
    && tx.data == ps[5].Content() && tx.v == Value(ps[6], 8)
    && BE(tx.r) == Value(ps[7], 32) && BE(tx.s) == Value(ps[8], 32)
    && tx.chainId == (if tx.v >= 35 then (tx.v - 35) / 2 else 0)
  }

  lemma LegacyFields(ps: seq<Piece>, f: seq<Field>)
    requires |ps| == 9 && Types(f) == TYPES_LEGACY && forall i :: 0 <= i < 9 ==> Means(ps[i], f[i])
    ensures LegacyNamed(FromLegacy(f), ps)
  {
    assert forall i :: 0 <= i < |f| ==> Types(f)[i] == f[i].Type();
  }

  /**
    The decoder on any list of nine strings, minimal or not. Of a number the first 8 bytes count, of a word the first
    32, of an address the first 20; shorter ones are right-aligned.
   */
  lemma LegacyMeaning(ps: seq<Piece>)
    requires |ps| == 9 && |WireOf(Legacy, ps)| < U64
    ensures var r := DecodeTx(WireOf(Legacy, ps)); r.Ok? && LegacyNamed(r.value, ps)
  {
    OpenWire(Legacy, ps);
    ListMeaning(ps, TYPES_LEGACY);
    MeaningMeans(ps, TYPES_LEGACY);
    LegacyFields(ps, Meaning(ps, TYPES_LEGACY));
  }

  /** Which item is which field of an EIP-1559 transaction; the access list is passed over. */
  predicate Eip1559Named(tx: Tx, ps: seq<Piece>)
    requires |ps| == 12
  {
    && tx.kind == Eip1559 && tx.chainId == Value(ps[0], 8) && tx.nonce == Value(ps[1], 8)
    && BE(tx.maxPriority) == Value(ps[2], 32) && BE(tx.maxFee) == Value(ps[3], 32)
    && tx.gasLimit == Value(ps[4], 8) && NamesRecipient(ps[5], tx.to) && BE(tx.value) == Value(ps[6], 32)
    && tx.data == ps[7].Content() && tx.v == Value(ps[9], 8)
    && BE(tx.r) == Value(ps[10], 32) && BE(tx.s) == Value(ps[11], 32)
  }

  lemma Eip1559Types(f: seq<Field>)
    requires Types(f) == TYPES_1559
    ensures f[0].Number? && f[1].Number? && f[2].Wide? && f[3].Wide? && f[4].Number? && f[5].Recipient? && f[6].Wide?
    ensures f[7].Data? && f[9].Number? && f[10].Wide? && f[11].Wide?
  {
    assert forall i :: 0 <= i < |f| ==> Types(f)[i] == f[i].Type();
  }

  lemma Eip1559Fields(ps: seq<Piece>, f: seq<Field>)
    requires |ps| == 12 && Types(f) == TYPES_1559 && forall i :: 0 <= i < 12 ==> Means(ps[i], f[i])
    ensures Eip1559Named(From1559(f), ps)
  {
    Eip1559Types(f);
  }

  /** The same for EIP-1559 and twelve items. */
  lemma Eip1559Meaning(ps: seq<Piece>)
    requires |ps| == 12 && |WireOf(Eip1559, ps)| < U64
    ensures var r := DecodeTx(WireOf(Eip1559, ps)); r.Ok? && Eip1559Named(r.value, ps)
  {
    OpenWire(Eip1559, ps);
    ListMeaning(ps, TYPES_1559);
    MeaningMeans(ps, TYPES_1559);
    Eip1559Fields(ps, Meaning(ps, TYPES_1559));
  }

  lemma {:induction false} ContentFits(ps: seq<Piece>, i: nat)
    requires i < |ps|
    ensures |ps[i].Content()| <= |EncPieces(ps)|
  {
    EncPiecesCons(ps);
    if i > 0 {
      ContentFits(ps[1..], i - 1);
    }
  }
}
