/**
  RLP (Appendix B of the Ethereum Yellow Paper) as `src/block/tx.c` writes and reads it.

  The writer side is a set of functions on byte strings; `RlpBuffer` shows that the growable buffer computes
  them. The reader side follows `rlp_decode_item`: it works on the memory `mem` that starts at the reader's
  data pointer, with the declared length `lim`, which a list header may set to more than `|mem|`. Where the C
  code would touch a byte outside `mem` the model answers `Overrun`.
 */
module Rlp {
  import opened Bytes

  datatype Result<+T> = Ok(value: T) | Malformed | Overrun {
    predicate IsFailure() { !Ok? }

    function PropagateFailure<U>(): Result<U>
      requires !Ok?
    {
      if Malformed? then Malformed else Overrun
    }

    function Extract(): T
      requires Ok?
    {
      value
    }
  }

  // ---- Writing ---------------------------------------------------------------------------------------------

  /** The length prefix of a string (bases 0x80, 0xb7) or a list (bases 0xc0, 0xf7). */
  function Header(len: nat, shortBase: byte, longBase: byte): seq<byte>
  {
    if len <= 55 then [Cast8(shortBase + len)] else [Cast8(longBase + |MinBE(len)|)] + MinBE(len)
  }

  /** What stands before a string: nothing for one byte up to 0x7f, otherwise its length prefix. */
  function Head(s: seq<byte>): seq<byte>
  {
    if |s| == 1 && s[0] <= 0x7f then [] else Header(|s|, 0x80, 0xb7)
  }

  function EncBytes(s: seq<byte>): seq<byte> { Head(s) + s }

  function EncList(payload: seq<byte>): seq<byte>
  {
    Header(|payload|, 0xc0, 0xf7) + payload
  }

  /** What a transaction list is made of: byte strings, and the access list, which is always written empty. */
  datatype Piece = Str(bytes: seq<byte>) | EmptyList {
    function Content(): seq<byte> { if Str? then bytes else [] }

    function Enc(): (e: seq<byte>)
      ensures |e| >= |Content()|
      ensures e != []
    {
      if Str? then EncBytes(bytes) else [0xc0]
    }
  }

  function Concat(es: seq<seq<byte>>): seq<byte>
  {
    if es == [] then [] else es[0] + Concat(es[1..])
  }

  function Encs(ps: seq<Piece>): (es: seq<seq<byte>>)
    ensures |es| == |ps| && forall i :: 0 <= i < |ps| ==> es[i] == ps[i].Enc()
  {
    seq(|ps|, i requires 0 <= i < |ps| => ps[i].Enc())
  }

  /** A list payload: the items one after the other. */
  function EncPieces(ps: seq<Piece>): seq<byte> { Concat(Encs(ps)) }

  // ---- Reading ---------------------------------------------------------------------------------------------

  /** Where an item's content lies, and where the reader stands after it. A list is entered, not stepped over. */
  datatype Item = Item(start: nat, len: nat, next: nat)

  function DecodeItem(mem: seq<byte>, lim: nat, pos: nat): (r: Result<Item>)
    ensures r.Ok? ==> r.value.start <= |mem|
  {
    if pos >= lim then Malformed
    else if pos >= |mem| then Overrun
    else
      var p := mem[pos];
      if p <= 0x7f then Ok(Item(pos, 1, pos + 1))
      else if p <= 0xb7 then
        var n := p - 0x80;
        if Cast64(pos + 1 + n) > lim then Malformed else Ok(Item(pos + 1, n, Cast64(pos + 1 + n)))
      else if p <= 0xbf then
        var n :- LongLength(mem, lim, pos, p - 0xb7);
        var start := pos + 1 + (p - 0xb7);
        if Cast64(start + n) > lim then Malformed else Ok(Item(start, n, Cast64(start + n)))
      else if p <= 0xf7 then Ok(Item(pos + 1, p - 0xc0, pos + 1))
      else
        var n :- LongLength(mem, lim, pos, p - 0xf7);
        var start := pos + 1 + (p - 0xf7);
        Ok(Item(start, n, start))
  }

  /** The big-endian length of `k` bytes after the prefix byte at `pos`. */
  function LongLength(mem: seq<byte>, lim: nat, pos: nat, k: nat): (r: Result<nat>)
    ensures r.Ok? ==> pos + 1 + k <= |mem|
  {
    if Cast64(pos + 1 + k) > lim then Malformed
    else if pos + 1 + k > |mem| then Overrun
    else Ok(BEAt(mem, pos + 1, k))
  }

  /** The number in the `k` bytes at `pos`, accumulated from the left. */
  function BEAt(mem: seq<byte>, pos: nat, k: nat): nat
    requires pos + k <= |mem|
  {
    if k == 0 then 0 else BEAt(mem, pos, k - 1) * 256 + mem[pos + k - 1]
  }

  /** Decode one item and use at most its first `cap` bytes. */
  function ReadField(mem: seq<byte>, lim: nat, pos: nat, cap: nat): (r: Result<(seq<byte>, nat)>)
    ensures r.Ok? ==> |r.value.0| <= cap
  {
    var item :- DecodeItem(mem, lim, pos);
    var n := Min(item.len, cap);
    if item.start + n > |mem| then Overrun else Ok((mem[item.start..item.start + n], item.next))
  }

  // ---- The reader undoes the writer ------------------------------------------------------------------------

  /** The bytes `e` stand in `mem` at `pos`. */
  predicate At(mem: seq<byte>, pos: nat, e: seq<byte>)
  {
    pos + |e| <= |mem| && forall i :: 0 <= i < |e| ==> mem[pos + i] == e[i]
  }

  lemma AtPart(mem: seq<byte>, pos: nat, a: seq<byte>, b: seq<byte>)
    requires At(mem, pos, a + b)
    ensures At(mem, pos, a) && At(mem, pos + |a|, b)
  {
    var e := a + b;
    assert forall i :: 0 <= i < |a| ==> a[i] == e[i];
    assert forall i :: 0 <= i < |b| ==> b[i] == e[|a| + i];
  }

  lemma {:induction false} BEAtIsBE(mem: seq<byte>, pos: nat, e: seq<byte>)
    requires At(mem, pos, e)
    ensures BEAt(mem, pos, |e|) == BE(e)
  {
    if e != [] {
      BEAtIsBE(mem, pos, e[..|e| - 1]);
    }
  }

  lemma LengthBytes(len: nat)
    requires 0 < len < U64
    ensures 1 <= |MinBE(len)| <= 8 && BE(MinBE(len)) == len
  {
    MinBELength64(len);
    MinBENoLeadingZero(len);
    MinBEValue(len);
  }

  lemma HeaderByte(mem: seq<byte>, pos: nat, b: byte, rest: seq<byte>)
    requires At(mem, pos, [b] + rest)
    ensures mem[pos] == b && At(mem, pos + 1, rest)
  {
    AtPart(mem, pos, [b], rest);
    assert mem[pos + 0] == [b][0];
  }

  lemma LongLengthAt(mem: seq<byte>, lim: nat, pos: nat, lb: seq<byte>)
    requires At(mem, pos + 1, lb) && pos + 1 + |lb| <= lim < U64
    ensures LongLength(mem, lim, pos, |lb|) == Ok(BE(lb))
  {
    BEAtIsBE(mem, pos + 1, lb);
  }

  /** A long header announces how many length bytes follow, and they denote the length. */
  lemma LongHeader(mem: seq<byte>, lim: nat, pos: nat, len: nat, shortBase: byte, longBase: byte)
    requires 55 < len < U64 && longBase <= 0xf7
    requires At(mem, pos, Header(len, shortBase, longBase))
    requires pos + |Header(len, shortBase, longBase)| <= lim < U64
    ensures var k := |Header(len, shortBase, longBase)| - 1;
            && 1 <= k <= 8
            && mem[pos] == longBase + k
            && LongLength(mem, lim, pos, k) == Ok(len)
  {
    var lb := MinBE(len);
    LengthBytes(len);
    HeaderByte(mem, pos, Cast8(longBase + |lb|), lb);
    LongLengthAt(mem, lim, pos, lb);
  }

  lemma DecodeLongString(mem: seq<byte>, lim: nat, pos: nat, len: nat)
    requires 55 < len < U64
    requires At(mem, pos, Header(len, 0x80, 0xb7))
    requires pos + |Header(len, 0x80, 0xb7)| + len <= lim < U64
    ensures DecodeItem(mem, lim, pos)
            == Ok(Item(pos + |Header(len, 0x80, 0xb7)|, len, pos + |Header(len, 0x80, 0xb7)| + len))
  {
    LongHeader(mem, lim, pos, len, 0x80, 0xb7);
  }

  lemma DecodeShort(mem: seq<byte>, lim: nat, pos: nat, n: nat)
    requires n <= 55 && pos < |mem| && mem[pos] == 0x80 + n
    requires pos + 1 + n <= lim < U64
    ensures DecodeItem(mem, lim, pos) == Ok(Item(pos + 1, n, pos + 1 + n))
  {
  }

  lemma DecodeHeaded(mem: seq<byte>, lim: nat, pos: nat, len: nat)
    requires At(mem, pos, Header(len, 0x80, 0xb7))
    requires pos + |Header(len, 0x80, 0xb7)| + len <= lim < U64
    ensures DecodeItem(mem, lim, pos)
            == Ok(Item(pos + |Header(len, 0x80, 0xb7)|, len, pos + |Header(len, 0x80, 0xb7)| + len))
  {
    if len <= 55 {
      HeaderByte(mem, pos, Cast8(0x80 + len), []);
      DecodeShort(mem, lim, pos, len);
    } else {
      DecodeLongString(mem, lim, pos, len);
    }
  }

  lemma DecodeSingle(mem: seq<byte>, lim: nat, pos: nat, b: byte)
    requires b <= 0x7f && At(mem, pos, [b]) && pos < lim
    ensures DecodeItem(mem, lim, pos) == Ok(Item(pos, 1, pos + 1))
  {
    assert mem[pos + 0] == [b][0];
  }

  lemma DecodeString(mem: seq<byte>, lim: nat, pos: nat, s: seq<byte>)
    requires At(mem, pos, Head(s)) && At(mem, pos + |Head(s)|, s)
    requires pos + |Head(s)| + |s| <= lim < U64
    ensures DecodeItem(mem, lim, pos) == Ok(Item(pos + |Head(s)|, |s|, pos + |Head(s)| + |s|))
  {
    if |s| == 1 && s[0] <= 0x7f {
      assert s == [s[0]];
      DecodeSingle(mem, lim, pos, s[0]);
    } else {
      DecodeHeaded(mem, lim, pos, |s|);
    }
  }

  lemma DecodePiece(mem: seq<byte>, lim: nat, pos: nat, p: Piece)
    requires At(mem, pos, p.Enc())
    requires pos + |p.Enc()| <= lim < U64
    ensures var n := |p.Content()|;
            && DecodeItem(mem, lim, pos) == Ok(Item(pos + |p.Enc()| - n, n, pos + |p.Enc()|))
            && At(mem, pos + |p.Enc()| - n, p.Content())
  {
    if p.Str? {
      AtPart(mem, pos, Head(p.bytes), p.bytes);
      DecodeString(mem, lim, pos, p.bytes);
    } else {
      assert mem[pos + 0] == p.Enc()[0];
    }
  }

  /** An outer list: the item found is exactly the payload. */
  lemma DecodeList(payload: seq<byte>)
    requires |EncList(payload)| < U64
    ensures var raw := EncList(payload);
            var h := |raw| - |payload|;
            DecodeItem(raw, |raw|, 0) == Ok(Item(h, |payload|, h)) && raw[h..] == payload
  {
    var raw := EncList(payload);
    if |payload| > 55 {
      assert At(raw, 0, Header(|payload|, 0xc0, 0xf7));
      LongHeader(raw, |raw|, 0, |payload|, 0xc0, 0xf7);
    }
  }

  lemma ReadPiece(mem: seq<byte>, lim: nat, pos: nat, p: Piece, cap: nat)
    requires At(mem, pos, p.Enc())
    requires pos + |p.Enc()| <= lim < U64
    requires |p.Content()| <= cap
    ensures ReadField(mem, lim, pos, cap) == Ok((p.Content(), pos + |p.Enc()|))
  {
    DecodePiece(mem, lim, pos, p);
    var start := pos + |p.Enc()| - |p.Content()|;
    assert mem[start..start + |p.Content()|] == p.Content();
  }

  // ---- Unique decodability ---------------------------------------------------------------------------------

  lemma {:induction false} ConcatSplit(es: seq<seq<byte>>, i: nat)
    requires i <= |es|
    ensures Concat(es) == Concat(es[..i]) + Concat(es[i..])
  {
    if i == 0 {
      assert es[0..] == es;
    } else {
      ConcatSplit(es[1..], i - 1);
      assert es[..i][1..] == es[1..][..i - 1] && es[1..][i - 1..] == es[i..];
    }
  }

  lemma PieceKind(p: Piece)
    requires |p.Enc()| < U64
    ensures p.EmptyList? <==> p.Enc()[0] == 0xc0
  {
    if p.Str? && |p.bytes| > 55 {
      MinBELength64(|p.bytes|);
    }
  }

  /** No encoded piece is a proper prefix of another: a piece and what follows it can be told apart. */
  lemma PrefixFree(p: Piece, x: seq<byte>, q: Piece, y: seq<byte>)
    requires p.Enc() + x == q.Enc() + y
    requires |p.Enc() + x| < U64
    ensures p == q && x == y
  {
    var mem := p.Enc() + x;
    assert At(mem, 0, p.Enc()) && At(mem, 0, q.Enc());
    DecodePiece(mem, |mem|, 0, p);
    DecodePiece(mem, |mem|, 0, q);
    PieceKind(p);
    PieceKind(q);
    assert mem[0] == p.Enc()[0] == q.Enc()[0];
    assert x == mem[|p.Enc()|..] && y == mem[|q.Enc()|..];
  }

  lemma SameHeadTail(ps: seq<Piece>, qs: seq<Piece>)
    requires ps != [] && qs != [] && ps[0] == qs[0] && ps[1..] == qs[1..]
    ensures ps == qs
  {
    assert ps == [ps[0]] + ps[1..] && qs == [qs[0]] + qs[1..];
  }

  lemma EncPiecesCons(ps: seq<Piece>)
    requires ps != []
    ensures EncPieces(ps) == ps[0].Enc() + EncPieces(ps[1..])
  {
    assert Encs(ps)[1..] == Encs(ps[1..]);
  }

  /** Equal payload bytes come from equal lists, item by item. */
  lemma {:induction false} PiecesInjective(ps: seq<Piece>, qs: seq<Piece>)
    requires EncPieces(ps) == EncPieces(qs)
    requires |EncPieces(ps)| < U64
    ensures ps == qs
  {
    if ps != [] {
      EncPiecesCons(ps);
    }
    if qs != [] {
      EncPiecesCons(qs);
    }
    if ps != [] && qs != [] {
      PrefixFree(ps[0], EncPieces(ps[1..]), qs[0], EncPieces(qs[1..]));
      PiecesInjective(ps[1..], qs[1..]);
      SameHeadTail(ps, qs);
    }
  }

  lemma ListInjective(p: seq<byte>, q: seq<byte>)
    requires EncList(p) == EncList(q)
    requires |EncList(p)| < U64
    ensures p == q
  {
    DecodeList(p);
    DecodeList(q);
  }

  lemma ListFirstByte(p: seq<byte>)
    requires |EncList(p)| < U64
    ensures EncList(p)[0] >= 0xc0
  {
    if |p| > 55 {
      MinBELength64(|p|);
    }
  }
}
