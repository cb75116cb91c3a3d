/** The typed items of a transaction list in `src/block/tx.c`, and the proof that reading them undoes writing them. */
module Fields {
  import opened Bytes
  import opened Rlp

  /** What a list item means. */
  datatype Field = Number(n: uint64) | Wide(w: Word) | Recipient(to: Option<Addr>) | Data(bytes: seq<byte>) | NoAccess {

    /** The item written for the field: integers and 256-bit words lose their leading zeros. */
    function ToPiece(): Piece
    {
      match this
      case Number(n) => Str(MinBE(n))
      case Wide(w) => Str(Strip(w))
      case Recipient(None) => Str([])
      case Recipient(Some(a)) => Str(a)
      case Data(b) => Str(b)
      case NoAccess => EmptyList
    }

    function Type(): FieldType
    {
      match this
      case Number(_) => TNumber
      case Wide(_) => TWide
      case Recipient(_) => TRecipient
      case Data(_) => TData
      case NoAccess => TAccess
    }
  }

  datatype FieldType = TNumber | TWide | TRecipient | TData | TAccess {

    /** How many bytes of an item the decoder looks at. */
    function Cap(): nat
    {
      match this
      case TNumber => 8
      case TWide => 32
      case TRecipient => 20
      case TData => U64
      case TAccess => 0
    }

    /** `rlp_to_uint64`, `rlp_to_bytes32`, `rlp_to_address` and the copy of the calldata. */
    function Parse(c: seq<byte>): (f: Field)
      requires |c| <= Cap()
      ensures f.Type() == this
    {
      match this
      case TNumber => Number(ToUint64(c))
      case TWide => Wide(PadLeft(c, 32))
      case TRecipient => if c == [] then Recipient(None) else Recipient(Some(PadLeft(c, 20)))
      case TData => Data(c)
      case TAccess => NoAccess
    }
  }

  function ToUint64(s: seq<byte>): uint64
    requires |s| <= 8
  {
    assert Pow256(8) == U64 by {
      assert Pow256(4) == 0x1_0000_0000;
    }
    PowMonotone(|s|, 8);
    BEBound(s);
    BE(s)
  }

  lemma {:induction false} PowMonotone(i: nat, j: nat)
    requires i <= j
    ensures Pow256(i) <= Pow256(j)
  {
    if i < j {
      PowMonotone(i, j - 1);
    }
  }

  /** Every field survives its encoding. */
  lemma ParseBack(f: Field)
    requires f.Data? ==> |f.bytes| < U64
    ensures var c := f.ToPiece().Content(); |c| <= f.Type().Cap() && f.Type().Parse(c) == f
  {
    match f
    case Number(n) =>
      MinBELength64(n);
      MinBEValue(n);
    case Wide(w) => StripPad(w);
    case Recipient(Some(a)) => assert Zeros(0) + a == a;
    case _ =>
  }

  function Pieces(fs: seq<Field>): (ps: seq<Piece>)
    ensures |ps| == |fs| && forall i :: 0 <= i < |fs| ==> ps[i] == fs[i].ToPiece()
  {
    seq(|fs|, i requires 0 <= i < |fs| => fs[i].ToPiece())
  }

  function Types(fs: seq<Field>): (ts: seq<FieldType>)
    ensures |ts| == |fs| && forall i :: 0 <= i < |fs| ==> ts[i] == fs[i].Type()
  {
    seq(|fs|, i requires 0 <= i < |fs| => fs[i].Type())
  }

  /** Decode one item and interpret it. */
  function ReadTyped(mem: seq<byte>, lim: nat, pos: nat, t: FieldType): (r: Result<(Field, nat)>)
    ensures r.Ok? ==> r.value.0.Type() == t
  {
    var (c, next) :- ReadField(mem, lim, pos, t.Cap());
    Ok((t.Parse(c), next))
  }

  /** A reader positioned somewhere in a list: given a position and a type, the field and the next position. */
  type Reader = (nat, FieldType) -> Result<(Field, nat)>

  function ReaderOf(mem: seq<byte>, lim: nat): (rd: Reader)
    ensures WellTyped(rd)
  {
    (pos, t) => ReadTyped(mem, lim, pos, t)
  }

  /** The same when the calldata cannot be allocated: the item is passed over and no calldata is kept. */
  function ReadLossy(mem: seq<byte>, lim: nat, pos: nat, t: FieldType): (r: Result<(Field, nat)>)
    ensures r.Ok? ==> r.value.0.Type() == t
  {
    if t.TData? then
      var item :- DecodeItem(mem, lim, pos);
      Ok((Data([]), item.next))
    else ReadTyped(mem, lim, pos, t)
  }

  function LossyReader(mem: seq<byte>, lim: nat): (rd: Reader)
    ensures WellTyped(rd)
  {
    (pos, t) => ReadLossy(mem, lim, pos, t)
  }

  ghost predicate WellTyped(rd: Reader)
  {
    forall pos: nat, t :: rd(pos, t).Ok? ==> rd(pos, t).value.0.Type() == t
  }

  /** The fields of the given types, read one after the other. */
  function ReadFields(rd: Reader, pos: nat, types: seq<FieldType>): (r: Result<seq<Field>>)
    requires WellTyped(rd)
    ensures r.Ok? ==> Types(r.value) == types
    decreases |types|
  {
    if types == [] then Ok([])
    else
      var (f, next) :- rd(pos, types[0]);
      var rest :- ReadFields(rd, next, types[1..]);
      Ok([f] + rest)
  }

  predicate Sized(fs: seq<Field>)
  {
    forall i :: 0 <= i < |fs| && fs[i].Data? ==> |fs[i].bytes| < U64
  }

  /** Wherever `e` stands in `mem`, the reader finds the field `f` there and moves past it. */
  ghost predicate ReadsAs(rd: Reader, mem: seq<byte>, lim: nat, e: seq<byte>, f: Field)
  {
    forall pos: nat :: At(mem, pos, e) && pos + |e| <= lim ==> rd(pos, f.Type()) == Ok((f, pos + |e|))
  }

  lemma ReadsOne(mem: seq<byte>, lim: nat, f: Field)
    requires lim < U64 && (f.Data? ==> |f.bytes| < U64)
    ensures ReadsAs(ReaderOf(mem, lim), mem, lim, f.ToPiece().Enc(), f)
  {
    ParseBack(f);
    PieceReadsAs(mem, lim, f.ToPiece(), f.Type(), f);
  }

  lemma PieceReadsAs(mem: seq<byte>, lim: nat, p: Piece, t: FieldType, f: Field)
    requires lim < U64 && f.Type() == t
    requires |p.Content()| <= t.Cap() && t.Parse(p.Content()) == f
    ensures ReadsAs(ReaderOf(mem, lim), mem, lim, p.Enc(), f)
  {
    forall pos: nat | At(mem, pos, p.Enc()) && pos + |p.Enc()| <= lim
      ensures ReaderOf(mem, lim)(pos, t) == Ok((f, pos + |p.Enc()|))
    {
      ReadPiece(mem, lim, pos, p, t.Cap());
    }
  }

  /** Reading undoes writing, whatever follows in the buffer. */
  lemma {:induction false} ReadsBack(
    rd: Reader, mem: seq<byte>, lim: nat, pos: nat, es: seq<seq<byte>>, fs: seq<Field>)
    requires WellTyped(rd) && |es| == |fs|
    requires forall i :: 0 <= i < |fs| ==> ReadsAs(rd, mem, lim, es[i], fs[i])
    requires At(mem, pos, Concat(es)) && pos + |Concat(es)| <= lim
    ensures ReadFields(rd, pos, Types(fs)) == Ok(fs)
    decreases |fs|
  {
    if fs != [] {
      AtPart(mem, pos, es[0], Concat(es[1..]));
      assert ReadsAs(rd, mem, lim, es[0], fs[0]);
      ReadsBack(rd, mem, lim, pos + |es[0]|, es[1..], fs[1..]);
      ReadFieldsStep(rd, pos, fs[0], pos + |es[0]|, fs[1..]);
      assert fs == [fs[0]] + fs[1..];
    }
  }

  lemma ReadFieldsStep(rd: Reader, pos: nat, f: Field, next: nat, rest: seq<Field>)
    requires WellTyped(rd) && rd(pos, f.Type()) == Ok((f, next))
    requires ReadFields(rd, next, Types(rest)) == Ok(rest)
    ensures ReadFields(rd, pos, Types([f] + rest)) == Ok([f] + rest)
  {
    assert Types([f] + rest)[1..] == Types(rest);
  }

  /** The fields without their calldata. */
  function Thin(fs: seq<Field>): (gs: seq<Field>)
    ensures |gs| == |fs| && forall i :: 0 <= i < |fs| ==> gs[i] == if fs[i].Data? then Data([]) else fs[i]
  {
    seq(|fs|, i requires 0 <= i < |fs| => if fs[i].Data? then Data([]) else fs[i])
  }

  lemma ReadLossyThin(mem: seq<byte>, lim: nat, pos: nat, t: FieldType)
    requires ReadTyped(mem, lim, pos, t).Ok?
    ensures var (f, next) := ReadTyped(mem, lim, pos, t).value;
            ReadLossy(mem, lim, pos, t) == Ok((if f.Data? then Data([]) else f, next))
  {
  }

  /** A list that can be read is read without its calldata when that cannot be allocated. */
  lemma {:induction false} LossyReadsThin(rd: Reader, lossy: Reader, pos: nat, types: seq<FieldType>)
    requires WellTyped(rd) && WellTyped(lossy) && ReadFields(rd, pos, types).Ok?
    requires forall p: nat, t :: rd(p, t).Ok? ==>
               lossy(p, t) == Ok((if rd(p, t).value.0.Data? then Data([]) else rd(p, t).value.0, rd(p, t).value.1))
    ensures ReadFields(lossy, pos, types) == Ok(Thin(ReadFields(rd, pos, types).value))
    decreases |types|
  {
    if types != [] {
      var next := rd(pos, types[0]).value.1;
      LossyReadsThin(rd, lossy, next, types[1..]);
      var f, rest := rd(pos, types[0]).value.0, ReadFields(rd, next, types[1..]).value;
      assert Thin([f] + rest) == [if f.Data? then Data([]) else f] + Thin(rest);
    }
  }

  /** Lists of the same types with the same items carry the same fields. */
  lemma FieldsInjective(fs: seq<Field>, gs: seq<Field>)
    requires Types(fs) == Types(gs) && Pieces(fs) == Pieces(gs)
    requires Sized(fs) && Sized(gs)
    ensures fs == gs
  {
    forall i | 0 <= i < |fs|
      ensures fs[i] == gs[i]
    {
      assert Types(fs)[i] == Types(gs)[i] && Pieces(fs)[i] == Pieces(gs)[i];
      ParseInjective(fs[i], gs[i]);
    }
  }

  lemma ParseInjective(f: Field, g: Field)
    requires f.Type() == g.Type() && f.ToPiece() == g.ToPiece() && Sized([f]) && Sized([g])
    ensures f == g
  {
    assert f == [f][0] && g == [g][0];
    ParseBack(f);
    ParseBack(g);
  }
}
