/**
  When the decoder of `src/block/tx.c` stays within its input. A list header is not checked against the bytes behind
  it, neither for the outer list nor for an item, and the end of a string is computed in 64 bits; each of the three can
  send the decoder past its input, and where none of them occurs it never leaves it.
 */
module Bounds {
  import opened Bytes
  import opened Rlp
  import opened Fields
  import opened Transactions

  /** Far enough from 2^64 that a position plus a prefix and eight length bytes does not wrap. */
  predicate Small(n: nat) { n + 16 < U64 }

  lemma ItemInside(mem: seq<byte>, lim: nat, pos: nat)
    requires lim <= |mem| && Small(|mem|)
    ensures !DecodeItem(mem, lim, pos).Overrun?
  {
  }

  /** A reader never touches a byte outside its memory, at whatever position, exactly when its limit is within it. */
  lemma ReaderInsideExactly(mem: seq<byte>, lim: nat)
    requires Small(|mem|)
    ensures (forall pos: nat :: !DecodeItem(mem, lim, pos).Overrun?) <==> lim <= |mem|
  {
    if lim <= |mem| {
      forall pos: nat
        ensures !DecodeItem(mem, lim, pos).Overrun?
      {
        ItemInside(mem, lim, pos);
      }
    } else {
      assert DecodeItem(mem, lim, |mem|).Overrun?;
    }
  }

  /** The end of the item is compared with the limit, and the comparison means what it says. */
  predicate Checked(mem: seq<byte>, pos: nat, item: Item)
  {
    pos < |mem| && mem[pos] < 0xc0 && item.start + item.len < U64
  }

  lemma CheckedInside(mem: seq<byte>, lim: nat, pos: nat)
    requires lim <= |mem| && Small(|mem|) && DecodeItem(mem, lim, pos).Ok?
    ensures var item := DecodeItem(mem, lim, pos).value;
            Checked(mem, pos, item) ==> item.start + item.len == item.next <= lim
  {
  }

  /** Using a decoded item leaves the memory exactly when its end went unchecked and the bytes used do not fit. */
  lemma FieldOverrunsExactly(mem: seq<byte>, lim: nat, pos: nat, cap: nat)
    requires lim <= |mem| && Small(|mem|)
    ensures var item := DecodeItem(mem, lim, pos);
            ReadField(mem, lim, pos, cap).Overrun?
            <==> item.Ok? && !Checked(mem, pos, item.value) && item.value.start + Min(item.value.len, cap) > |mem|
  {
    ItemInside(mem, lim, pos);
    if DecodeItem(mem, lim, pos).Ok? {
      CheckedInside(mem, lim, pos);
    }
  }

  /** As far as the fields are read, every item that is used is a string whose end does not wrap. */
  predicate StringsOnly(mem: seq<byte>, lim: nat, pos: nat, types: seq<FieldType>)
    decreases |types|
  {
    types == [] ||
    match DecodeItem(mem, lim, pos)
    case Ok(item) => (types[0].TAccess? || Checked(mem, pos, item)) && StringsOnly(mem, lim, item.next, types[1..])
    case _ => true
  }

  lemma TypedInside(mem: seq<byte>, lim: nat, pos: nat, t: FieldType)
    requires lim <= |mem| && Small(|mem|)
    requires var item := DecodeItem(mem, lim, pos); item.Ok? ==> t.TAccess? || Checked(mem, pos, item.value)
    ensures !ReadTyped(mem, lim, pos, t).Overrun?
    ensures var r, item := ReadTyped(mem, lim, pos, t), DecodeItem(mem, lim, pos);
            r.Ok? ==> item.Ok? && r.value.1 == item.value.next
  {
    FieldOverrunsExactly(mem, lim, pos, t.Cap());
  }

  lemma {:induction false} FieldsInside(mem: seq<byte>, lim: nat, pos: nat, types: seq<FieldType>)
    requires lim <= |mem| && Small(|mem|) && StringsOnly(mem, lim, pos, types)
    ensures !ReadFields(ReaderOf(mem, lim), pos, types).Overrun?
    decreases |types|
  {
    if types != [] {
      TypedInside(mem, lim, pos, types[0]);
      var r := ReadTyped(mem, lim, pos, types[0]);
      assert ReaderOf(mem, lim)(pos, types[0]) == r;
      if r.Ok? {
        FieldsInside(mem, lim, r.value.1, types[1..]);
      }
    }
  }

  function TypesOf(kind: Kind): seq<FieldType>
  {
    match kind
    case Legacy => TYPES_LEGACY
    case Eip1559 => TYPES_1559
    case Eip2930 => []
  }

  lemma OpensInside(raw: seq<byte>)
    requires Small(|raw|)
    ensures !OpenEnvelope(raw).Overrun?
    ensures OpenEnvelope(raw).Ok? ==> |OpenEnvelope(raw).value.1| <= |raw|
  {
    if raw != [] {
      var payload := if KindOf(raw) == Legacy then raw else raw[1..];
      ItemInside(payload, |payload|, 0);
    }
  }

  /** The decoder stays within its input when the outer list fits it and the items used are strings that do not wrap. */
  lemma DecodeStaysInside(raw: seq<byte>)
    requires Small(|raw|)
    requires var e := OpenEnvelope(raw);
             e.Ok? ==> e.value.2 <= |e.value.1| && StringsOnly(e.value.1, e.value.2, 0, TypesOf(e.value.0))
    ensures !DecodeTx(raw).Overrun?
  {
    OpensInside(raw);
    var e := OpenEnvelope(raw);
    if e.Ok? {
      FieldsInside(e.value.1, e.value.2, 0, TypesOf(e.value.0));
    }
  }

  // Each of the three is needed.

  /** An outer list that announces nine bytes and has none. */
  lemma OuterListOverruns()
    ensures DecodeTx([0xc9]) == Overrun
  {
    var raw: seq<byte> := [0xc9];
    assert raw[1..] == [];
    assert OpenEnvelope(raw) == Ok((Legacy, [], 9));
    FirstOverruns([], 9, TYPES_LEGACY);
  }

  lemma FirstOverruns(mem: seq<byte>, lim: nat, types: seq<FieldType>)
    requires types != [] && ReadTyped(mem, lim, 0, types[0]).Overrun?
    ensures ReadFields(ReaderOf(mem, lim), 0, types) == Overrun
  {
    assert ReaderOf(mem, lim)(0, types[0]) == ReadTyped(mem, lim, 0, types[0]);
  }

  /** An outer list that fits, whose first item is a list that announces one byte and has none. */
  lemma InnerListOverruns()
    ensures DecodeTx([0xc1, 0xc1]) == Overrun
  {
    var raw: seq<byte> := [0xc1, 0xc1];
    assert raw[1..] == [0xc1];
    assert OpenEnvelope(raw) == Ok((Legacy, [0xc1], 1));
    FirstOverruns([0xc1], 1, TYPES_LEGACY);
  }

  /** A string of 2^64 - 1 bytes whose end wraps to a position within the list. */
  lemma WrappedStringOverruns()
    ensures DecodeTx([0xc9, 0xbf, 255, 255, 255, 255, 255, 255, 255, 255]) == Overrun
  {
    var raw: seq<byte> := [0xc9, 0xbf, 255, 255, 255, 255, 255, 255, 255, 255];
    var mem: seq<byte> := [0xbf, 255, 255, 255, 255, 255, 255, 255, 255];
    assert raw[1..] == mem;
    assert OpenEnvelope(raw) == Ok((Legacy, mem, 9));
    assert BEAt(mem, 1, 4) == 0xffff_ffff;
    assert LongLength(mem, 9, 0, 8) == Ok(U64 - 1);
    assert Cast64(9 + (U64 - 1)) == Cast64(8) == 8;
    assert DecodeItem(mem, 9, 0) == Ok(Item(9, U64 - 1, 8));
    FirstOverruns(mem, 9, TYPES_LEGACY);
  }

  // ---- The outer list must fit -----------------------------------------------------------------------------

  /** An envelope whose list header announces `lim` bytes and has `body` behind it. */
  function Framed(kind: Kind, lim: nat, body: seq<byte>): seq<byte>
  {
    (if kind == Eip1559 then [0x02] else []) + (Header(lim, 0xc0, 0xf7) + body)
  }

  lemma HeaderSize(lim: nat)
    requires lim < U64
    ensures 1 <= |Header(lim, 0xc0, 0xf7)| <= 9 && Header(lim, 0xc0, 0xf7)[0] >= 0xc0
  {
    if lim > 55 {
      LengthBytes(lim);
    }
  }

  lemma OpenList(lim: nat, body: seq<byte>)
    requires lim < U64 && Small(|body| + 16)
    ensures var list := Header(lim, 0xc0, 0xf7) + body;
            var h := |list| - |body|;
            DecodeItem(list, |list|, 0) == Ok(Item(h, lim, h)) && list[h..] == body
  {
    var list := Header(lim, 0xc0, 0xf7) + body;
    HeaderSize(lim);
    if lim > 55 {
      assert At(list, 0, Header(lim, 0xc0, 0xf7));
      LongHeader(list, |list|, 0, lim, 0xc0, 0xf7);
    }
  }

  lemma OpenFramed(kind: Kind, lim: nat, body: seq<byte>)
    requires kind != Eip2930 && lim < U64 && Small(|body| + 16)
    ensures OpenEnvelope(Framed(kind, lim, body)) == Ok((kind, body, lim))
    ensures |Framed(kind, lim, body)| <= |body| + 10
  {
    var list := Header(lim, 0xc0, 0xf7) + body;
    HeaderSize(lim);
    OpenList(lim, body);
    if kind == Eip1559 {
      assert Framed(kind, lim, body)[1..] == list;
    } else {
      assert Framed(kind, lim, body) == list;
    }
  }

  lemma ZeroItem(mem: seq<byte>, lim: nat, pos: nat, t: FieldType)
    requires pos < |mem| < lim && Small(|mem|) && mem[pos] == 0
    ensures DecodeItem(mem, lim, pos) == Ok(Item(pos, 1, pos + 1)) && Checked(mem, pos, Item(pos, 1, pos + 1))
    ensures ReadTyped(mem, lim, pos, t).Ok? && ReadTyped(mem, lim, pos, t).value.1 == pos + 1
  {
  }

  lemma ReadOn(rd: Reader, pos: nat, next: nat, types: seq<FieldType>)
    requires WellTyped(rd) && types != [] && rd(pos, types[0]).Ok? && rd(pos, types[0]).value.1 == next
    ensures ReadFields(rd, pos, types).Overrun? <==> ReadFields(rd, next, types[1..]).Overrun?
  {
  }

  lemma StringsOn(mem: seq<byte>, lim: nat, pos: nat, item: Item, types: seq<FieldType>)
    requires types != [] && DecodeItem(mem, lim, pos) == Ok(item) && Checked(mem, pos, item)
    ensures StringsOnly(mem, lim, pos, types) <==> StringsOnly(mem, lim, item.next, types[1..])
  {
  }

  predicate StartsZero(mem: seq<byte>, j: nat)
  {
    j <= |mem| && forall i :: 0 <= i < j ==> mem[i] == 0
  }

  /** The items are strings, and reading them leaves the memory. */
  predicate Escapes(mem: seq<byte>, lim: nat, pos: nat, types: seq<FieldType>)
  {
    StringsOnly(mem, lim, pos, types) && ReadFields(ReaderOf(mem, lim), pos, types).Overrun?
  }

  /** What a single step does not change, `j` steps do not change. */
  lemma {:induction false} Steps(p: (nat, seq<FieldType>) -> bool, pos: nat, j: nat, types: seq<FieldType>)
    requires j <= |types|
    requires forall i: nat, ts: seq<FieldType> :: pos <= i < pos + j && ts != [] ==> p(i, ts) == p(i + 1, ts[1..])
    ensures p(pos, types) == p(pos + j, types[j..])
    decreases j
  {
    if j == 0 {
      assert types[0..] == types;
    } else {
      Steps(p, pos + 1, j - 1, types[1..]);
      assert types[1..][j - 1..] == types[j..];
    }
  }

  /** Zero bytes are items of their own: both the reader and the condition on the items step over them. */
  lemma ZeroItems(mem: seq<byte>, lim: nat, j: nat, types: seq<FieldType>)
    requires |mem| < lim && Small(|mem|) && j <= |types| && StartsZero(mem, j)
    ensures Escapes(mem, lim, 0, types) <==> Escapes(mem, lim, j, types[j..])
  {
    var p := (i: nat, ts: seq<FieldType>) => Escapes(mem, lim, i, ts);
    forall i: nat, ts: seq<FieldType> | 0 <= i < j && ts != []
      ensures p(i, ts) == p(i + 1, ts[1..])
    {
      ZeroStep(mem, lim, i, ts);
    }
    Steps(p, 0, j, types);
  }

  lemma ZeroStep(mem: seq<byte>, lim: nat, pos: nat, types: seq<FieldType>)
    requires pos < |mem| < lim && Small(|mem|) && types != [] && mem[pos] == 0
    ensures Escapes(mem, lim, pos, types) <==> Escapes(mem, lim, pos + 1, types[1..])
  {
    ZeroItem(mem, lim, pos, types[0]);
    StringsOn(mem, lim, pos, Item(pos, 1, pos + 1), types);
    ReadOn(ReaderOf(mem, lim), pos, pos + 1, types);
  }

  /** Calldata that ends one byte behind the memory, with its end within the announced limit. */
  lemma DataOverruns(mem: seq<byte>, lim: nat, pos: nat, item: Item, types: seq<FieldType>)
    requires |mem| < lim && Small(|mem|) && types != [] && types[0].TData?
    requires DecodeItem(mem, lim, pos) == Ok(item) && Checked(mem, pos, item)
    requires item.start + item.len == item.next == |mem| + 1
    ensures Escapes(mem, lim, pos, types)
  {
    assert ReaderOf(mem, lim)(pos, types[0]) == ReadTyped(mem, lim, pos, types[0]);
  }

  /** Such calldata behind `d` zero bytes, in `m` bytes all told. */
  lemma LateData(d: nat, m: nat, lim: nat) returns (body: seq<byte>, item: Item)
    requires d < m < lim && Small(m)
    ensures |body| == m && StartsZero(body, d)
    ensures DecodeItem(body, lim, d) == Ok(item) && Checked(body, d, item)
    ensures item.start + item.len == item.next == m + 1
  {
    if m - d <= 55 {
      body := Zeros(d) + [0x80 + (m - d)] + Zeros(m - d - 1);
      item := Item(d + 1, m - d, m + 1);
    } else {
      body, item := LongData(d, m, lim);
    }
  }

  lemma LongData(d: nat, m: nat, lim: nat) returns (body: seq<byte>, item: Item)
    requires d + 55 < m < lim && Small(m)
    ensures |body| == m && StartsZero(body, d)
    ensures DecodeItem(body, lim, d) == Ok(item) && Checked(body, d, item)
    ensures item.start + item.len == item.next == m + 1
  {
    var n := m - d - 8;
    MinBELength64(n);
    MinBEValue(n);
    BEPad(MinBE(n), 8);
    body := Placed(d, PadLeft(MinBE(n), 8), m - d - 9);
    item := Item(d + 9, n, m + 1);
    PlacedAt(d, PadLeft(MinBE(n), 8), m - d - 9);
    LongString(body, lim, d, PadLeft(MinBE(n), 8));
  }

  /** A long string header with eight length bytes, among zeros. */
  function Placed(d: nat, lb: seq<byte>, rest: nat): seq<byte> { Zeros(d) + [0xbf] + lb + Zeros(rest) }

  lemma PlacedAt(d: nat, lb: seq<byte>, rest: nat)
    ensures var body := Placed(d, lb, rest);
            |body| == d + 1 + |lb| + rest && StartsZero(body, d) && body[d] == 0xbf && At(body, d + 1, lb)
  {
  }

  lemma LongString(mem: seq<byte>, lim: nat, pos: nat, lb: seq<byte>)
    requires |lb| == 8 && pos < |mem| && mem[pos] == 0xbf && At(mem, pos + 1, lb)
    requires pos + 9 + BE(lb) <= lim && pos + 9 + BE(lb) < U64
    ensures var item := Item(pos + 9, BE(lb), pos + 9 + BE(lb));
            DecodeItem(mem, lim, pos) == Ok(item) && Checked(mem, pos, item)
  {
    BEAtIsBE(mem, pos + 1, lb);
    assert LongLength(mem, lim, pos, 8) == Ok(BE(lb));
  }

  /** A list header that announces more than is there has a body of strings that the decoder reads past. */
  lemma OverlongList(kind: Kind, m: nat, lim: nat) returns (body: seq<byte>)
    requires kind != Eip2930 && m < lim < U64 && Small(m + 16)
    ensures |body| == m && Escapes(body, lim, 0, TypesOf(kind))
  {
    var types, d := TypesOf(kind), if kind == Legacy then 5 else 7;
    if m <= d {
      body := Zeros(m);
      ZerosOverrun(m, lim, types);
    } else {
      body := OverlongData(d, m, lim, types);
    }
  }

  lemma ZerosOverrun(m: nat, lim: nat, types: seq<FieldType>)
    requires m < lim && m < |types| && Small(m)
    ensures Escapes(Zeros(m), lim, 0, types)
  {
    ZeroItems(Zeros(m), lim, m, types);
    EndOverruns(Zeros(m), lim, types[m..]);
  }

  lemma EndOverruns(mem: seq<byte>, lim: nat, types: seq<FieldType>)
    requires |mem| < lim && types != []
    ensures Escapes(mem, lim, |mem|, types)
  {
    assert DecodeItem(mem, lim, |mem|).Overrun?;
    assert ReaderOf(mem, lim)(|mem|, types[0]) == ReadTyped(mem, lim, |mem|, types[0]);
  }

  lemma OverlongData(d: nat, m: nat, lim: nat, types: seq<FieldType>) returns (body: seq<byte>)
    requires d < m < lim && Small(m) && d < |types| && types[d].TData?
    ensures |body| == m && Escapes(body, lim, 0, types)
  {
    var item;
    body, item := LateData(d, m, lim);
    ZeroItems(body, lim, d, types);
    DataOverruns(body, lim, d, item, types[d..]);
  }

  lemma DecodeFramed(kind: Kind, lim: nat, body: seq<byte>)
    requires kind != Eip2930 && lim < U64 && Small(|body| + 16)
    ensures DecodeTx(Framed(kind, lim, body)).Overrun? <==> ReadFields(ReaderOf(body, lim), 0, TypesOf(kind)).Overrun?
  {
    OpenFramed(kind, lim, body);
  }

  /**
    Whatever strings are in it, a transaction list of `m` bytes is decoded within the input exactly when its header
    announces no more than those `m` bytes.
   */
  lemma OuterListFitsExactly(kind: Kind, m: nat, lim: nat)
    requires kind != Eip2930 && lim < U64 && Small(m + 16)
    ensures (forall body: seq<byte> :: |body| == m && StringsOnly(body, lim, 0, TypesOf(kind)) ==>
               !DecodeTx(Framed(kind, lim, body)).Overrun?)
            <==> lim <= m
  {
    if lim <= m {
      forall body: seq<byte> | |body| == m && StringsOnly(body, lim, 0, TypesOf(kind))
        ensures !DecodeTx(Framed(kind, lim, body)).Overrun?
      {
        DecodeFramed(kind, lim, body);
        FieldsInside(body, lim, 0, TypesOf(kind));
      }
    } else {
      var body := OverlongList(kind, m, lim);
      DecodeFramed(kind, lim, body);
      assert DecodeTx(Framed(kind, lim, body)).Overrun?;
    }
  }
}
