/**
  The state layer of `src/state/redis_state.c`: typed Ethereum state over a flat store of textual keys, hash
  fields and values. Redis is assumed to answer; one method is one command, which the mutex makes atomic.

  The proof separates names from texts: a store is looked at through injective functions that write key names,
  field names and field values as text, and everything about reading and writing is shown for any such
  functions. Only at the end are they the hexadecimal and decimal formats of the code.
 */
module Redis {
  import opened Bytes
  import Hex

  // ---- The store and its commands --------------------------------------------------------------------------

  datatype RedisValue = RString(bytes: seq<byte>) | RHash(fields: map<Text, Text>)

  type Store = map<Text, RedisValue>

  datatype Reply = Nil | Str(bytes: Text) | WrongType

  function Get(s: Store, key: Text): Reply
  {
    if key !in s then Nil else match s[key] case RString(b) => Str(b) case RHash(_) => WrongType
  }

  function HGet(s: Store, key: Text, field: Text): Reply
  {
    if key !in s then Nil
    else match s[key]
      case RString(_) => WrongType
      case RHash(h) => if field in h then Str(h[field]) else Nil
  }

  function Set(s: Store, key: Text, value: seq<byte>): Store { s[key := RString(value)] }

  function HSet(s: Store, key: Text, field: Text, value: Text): Store
  {
    if key !in s then s[key := RHash(map[field := value])]
    else match s[key]
      case RString(_) => s
      case RHash(h) => s[key := RHash(h[field := value])]
  }

  // ---- Typed state -----------------------------------------------------------------------------------------

  datatype Slot = Slot(addr: Addr, key: Word)

  datatype World = World(
    nonces: map<Addr, uint64>, balances: map<Addr, Word>, codeHashes: map<Addr, Word>, storage: map<Slot, Word>,
    code: map<Addr, seq<byte>>, receipts: map<Word, seq<byte>>, latest: Option<uint64>)
  {
    function Nonce(a: Addr): uint64 { if a in nonces then nonces[a] else 0 }

    function Balance(a: Addr): Word { if a in balances then balances[a] else ZERO_WORD }

    function CodeHash(a: Addr): Word { if a in codeHashes then codeHashes[a] else ZERO_WORD }

    function Storage(slot: Slot): Word { if slot in storage then storage[slot] else ZERO_WORD }

    function Code(a: Addr): seq<byte> { if a in code then code[a] else [] }

    function Receipt(h: Word): seq<byte> { if h in receipts then receipts[h] else [] }

    function Block(): uint64 { if latest.Some? then latest.value else 0 }
  }

  const EMPTY_WORLD: World := World(map[], map[], map[], map[], map[], map[], None)

  // ---- Names -----------------------------------------------------------------------------------------------

  datatype KeyName = AccountKey(a: Addr) | StorageKey(a: Addr) | CodeKey(a: Addr) | ReceiptKey(h: Word) | BlockKey

  datatype FieldName = NonceField | BalanceField | CodeHashField | SlotField(k: Word)

  datatype FieldValue = Num(n: uint64) | Wide(w: Word)

  /** What the typed state keeps in a hash field. */
  function FieldIn(w: World, k: KeyName, f: FieldName): Option<FieldValue>
  {
    match (k, f)
    case (AccountKey(a), NonceField) => if a in w.nonces then Some(Num(w.nonces[a])) else None
    case (AccountKey(a), BalanceField) => if a in w.balances then Some(Wide(w.balances[a])) else None
    case (AccountKey(a), CodeHashField) => if a in w.codeHashes then Some(Wide(w.codeHashes[a])) else None
    case (StorageKey(a), SlotField(key)) =>
      var slot := Slot(a, key);
      if slot in w.storage then Some(Wide(w.storage[slot])) else None
    case _ => None
  }

  /** What the typed state keeps under a string key; the block number is a decimal text. */
  function StringIn(w: World, k: KeyName): Option<seq<byte>>
  {
    match k
    case CodeKey(a) => if a in w.code then Some(w.code[a]) else None
    case ReceiptKey(h) => if h in w.receipts then Some(w.receipts[h]) else None
    case BlockKey => if w.latest.Some? then Some(DecText(w.latest.value)) else None
    case _ => None
  }

  /** How names and values are written. */
  datatype Format = Format(key: KeyName -> Text, field: FieldName -> Text, value: FieldValue -> Text)

  ghost predicate Distinct(fmt: Format)
  {
    && (forall k, l :: fmt.key(k) == fmt.key(l) ==> k == l)
    && (forall f, g :: fmt.field(f) == fmt.field(g) ==> f == g)
  }

  function OptText(fmt: Format, v: Option<FieldValue>): Reply { if v.None? then Nil else Str(fmt.value(v.value)) }

  function OptBytes(v: Option<seq<byte>>): Reply { if v.None? then Nil else Str(v.value) }

  /** The store holds exactly the typed state, key by key and field by field, and nothing besides. */
  ghost predicate Represents(fmt: Format, w: World, s: Store)
  {
    && (forall k :: FieldsMatch(fmt, w, s, k))
    && (forall k :: StringMatches(fmt, w, s, k))
    && NothingElse(fmt, w, s)
  }

  ghost predicate NothingElse(fmt: Format, w: World, s: Store)
  {
    && (forall key :: key in s ==> KeyUsed(fmt, w, key))
    && (forall key, field :: HGet(s, key, field).Str? ==> FieldUsed(fmt, w, key, field))
  }

  ghost predicate HasEntry(w: World, k: KeyName) { StringIn(w, k).Some? || exists f :: FieldIn(w, k, f).Some? }

  ghost predicate KeyUsed(fmt: Format, w: World, key: Text) { exists k :: fmt.key(k) == key && HasEntry(w, k) }

  ghost predicate FieldUsed(fmt: Format, w: World, key: Text, field: Text)
  {
    exists k, f :: fmt.key(k) == key && fmt.field(f) == field && FieldIn(w, k, f).Some?
  }

  predicate IsHashKey(k: KeyName) { k.AccountKey? || k.StorageKey? }

  ghost predicate FieldsMatch(fmt: Format, w: World, s: Store, k: KeyName)
  {
    IsHashKey(k) ==> forall f :: HGet(s, fmt.key(k), fmt.field(f)) == OptText(fmt, FieldIn(w, k, f))
  }

  ghost predicate StringMatches(fmt: Format, w: World, s: Store, k: KeyName)
  {
    !IsHashKey(k) ==> Get(s, fmt.key(k)) == OptBytes(StringIn(w, k))
  }

  /** Writing one hash field updates that field and nothing else. */
  lemma HSetRepresents(fmt: Format, w: World, s: Store, k: KeyName, f: FieldName, v: FieldValue, w': World)
    requires Distinct(fmt) && Represents(fmt, w, s) && IsHashKey(k)
    requires forall l, g :: FieldIn(w', l, g) == if l == k && g == f then Some(v) else FieldIn(w, l, g)
    requires forall l :: StringIn(w', l) == StringIn(w, l)
    ensures Represents(fmt, w', HSet(s, fmt.key(k), fmt.field(f), fmt.value(v)))
  {
    var s' := HSet(s, fmt.key(k), fmt.field(f), fmt.value(v));
    NotAString(fmt, w, s, k, f);
    forall l
      ensures FieldsMatch(fmt, w', s', l) && StringMatches(fmt, w', s', l)
    {
      assert FieldsMatch(fmt, w, s, l) && StringMatches(fmt, w, s, l);
      HSetElsewhere(fmt, w, s, k, f, v, w', l);
    }
    EntriesKept(fmt, w, w');
    HSetNothingElse(fmt, w, s, k, f, fmt.value(v), w');
  }

  /** A state that has all the entries of another uses all its keys and fields. */
  lemma EntriesKept(fmt: Format, w: World, w': World)
    requires forall l, g :: FieldIn(w, l, g).Some? ==> FieldIn(w', l, g).Some?
    requires forall l :: StringIn(w, l).Some? ==> StringIn(w', l).Some?
    ensures forall key :: KeyUsed(fmt, w, key) ==> KeyUsed(fmt, w', key)
    ensures forall key, field :: FieldUsed(fmt, w, key, field) ==> FieldUsed(fmt, w', key, field)
  {
    forall key | KeyUsed(fmt, w, key)
      ensures KeyUsed(fmt, w', key)
    {
      var l :| fmt.key(l) == key && HasEntry(w, l);
      assert HasEntry(w', l);
    }
    forall key, field | FieldUsed(fmt, w, key, field)
      ensures FieldUsed(fmt, w', key, field)
    {
      var l, g :| fmt.key(l) == key && fmt.field(g) == field && FieldIn(w, l, g).Some?;
      assert FieldIn(w', l, g).Some?;
    }
  }

  lemma HSetNothingElse(fmt: Format, w: World, s: Store, k: KeyName, f: FieldName, text: Text, w': World)
    requires NothingElse(fmt, w, s) && FieldIn(w', k, f).Some?
    requires forall key :: KeyUsed(fmt, w, key) ==> KeyUsed(fmt, w', key)
    requires forall key, field :: FieldUsed(fmt, w, key, field) ==> FieldUsed(fmt, w', key, field)
    ensures NothingElse(fmt, w', HSet(s, fmt.key(k), fmt.field(f), text))
  {
    var s' := HSet(s, fmt.key(k), fmt.field(f), text);
    assert HasEntry(w', k) && FieldUsed(fmt, w', fmt.key(k), fmt.field(f));
    forall key, field | HGet(s', key, field).Str?
      ensures FieldUsed(fmt, w', key, field)
    {
      assert (key == fmt.key(k) && field == fmt.field(f)) || HGet(s, key, field).Str?;
    }
  }

  lemma SetNothingElse(fmt: Format, w: World, s: Store, k: KeyName, b: seq<byte>, w': World)
    requires NothingElse(fmt, w, s) && StringIn(w', k).Some?
    requires forall key :: KeyUsed(fmt, w, key) ==> KeyUsed(fmt, w', key)
    requires forall key, field :: FieldUsed(fmt, w, key, field) ==> FieldUsed(fmt, w', key, field)
    ensures NothingElse(fmt, w', Set(s, fmt.key(k), b))
  {
    var s' := Set(s, fmt.key(k), b);
    assert HasEntry(w', k);
    forall key, field | HGet(s', key, field).Str?
      ensures FieldUsed(fmt, w', key, field)
    {
      assert HGet(s, key, field).Str?;
    }
  }

  lemma NotAString(fmt: Format, w: World, s: Store, k: KeyName, f: FieldName)
    requires FieldsMatch(fmt, w, s, k) && IsHashKey(k)
    ensures fmt.key(k) in s ==> s[fmt.key(k)].RHash?
  {
    assert HGet(s, fmt.key(k), fmt.field(f)) == OptText(fmt, FieldIn(w, k, f));
  }

  lemma HSetElsewhere(fmt: Format, w: World, s: Store, k: KeyName, f: FieldName, v: FieldValue, w': World, l: KeyName)
    requires Distinct(fmt) && FieldsMatch(fmt, w, s, l) && StringMatches(fmt, w, s, l) && IsHashKey(k)
    requires fmt.key(k) in s ==> s[fmt.key(k)].RHash?
    requires forall l, g :: FieldIn(w', l, g) == if l == k && g == f then Some(v) else FieldIn(w, l, g)
    requires forall l :: StringIn(w', l) == StringIn(w, l)
    ensures var s' := HSet(s, fmt.key(k), fmt.field(f), fmt.value(v));
            FieldsMatch(fmt, w', s', l) && StringMatches(fmt, w', s', l)
  {
  }

  /** Writing one string key updates that key and nothing else. */
  lemma SetRepresents(fmt: Format, w: World, s: Store, k: KeyName, b: seq<byte>, w': World)
    requires Distinct(fmt) && Represents(fmt, w, s) && !IsHashKey(k)
    requires forall l, g :: FieldIn(w', l, g) == FieldIn(w, l, g)
    requires forall l :: StringIn(w', l) == if l == k then Some(b) else StringIn(w, l)
    ensures Represents(fmt, w', Set(s, fmt.key(k), b))
  {
    var s' := Set(s, fmt.key(k), b);
    forall l
      ensures FieldsMatch(fmt, w', s', l) && StringMatches(fmt, w', s', l)
    {
      assert FieldsMatch(fmt, w, s, l) && StringMatches(fmt, w, s, l);
    }
    EntriesKept(fmt, w, w');
    SetNothingElse(fmt, w, s, k, b, w');
  }

  lemma EmptyRepresents(fmt: Format)
    ensures Represents(fmt, EMPTY_WORLD, map[])
  {
  }

  // The typed state also determines the store.

  lemma SameString(fmt: Format, w: World, s: Store, u: Store, k: KeyName)
    requires Represents(fmt, w, s) && Represents(fmt, w, u) && StringIn(w, k).Some?
    ensures var key := fmt.key(k); key in s && key in u && s[key] == u[key]
  {
    assert StringMatches(fmt, w, s, k) && StringMatches(fmt, w, u, k);
  }

  lemma SameField(fmt: Format, w: World, s: Store, u: Store, k: KeyName, f: FieldName)
    requires Represents(fmt, w, s) && Represents(fmt, w, u) && FieldIn(w, k, f).Some?
    ensures HGet(s, fmt.key(k), fmt.field(f)) == HGet(u, fmt.key(k), fmt.field(f)) == OptText(fmt, FieldIn(w, k, f))
  {
    assert FieldsMatch(fmt, w, s, k) && FieldsMatch(fmt, w, u, k);
  }

  /** Whatever is stored under a key in the one store is stored under it in the other. */
  lemma Included(fmt: Format, w: World, s: Store, u: Store, key: Text)
    requires Represents(fmt, w, s) && Represents(fmt, w, u) && key in s
    ensures key in u && s[key].RHash? == u[key].RHash?
    ensures s[key].RString? ==> s[key] == u[key]
    ensures s[key].RHash? ==>
              forall field :: field in s[key].fields ==>
                field in u[key].fields && u[key].fields[field] == s[key].fields[field]
  {
    assert KeyUsed(fmt, w, key);
    var k :| fmt.key(k) == key && HasEntry(w, k);
    if StringIn(w, k).Some? {
      SameString(fmt, w, s, u, k);
    } else {
      var f :| FieldIn(w, k, f).Some?;
      SameField(fmt, w, s, u, k, f);
      forall field | field in s[key].fields
        ensures field in u[key].fields && u[key].fields[field] == s[key].fields[field]
      {
        assert HGet(s, key, field).Str?;
        assert FieldUsed(fmt, w, key, field);
        var l, g :| fmt.key(l) == key && fmt.field(g) == field && FieldIn(w, l, g).Some?;
        SameField(fmt, w, s, u, l, g);
      }
    }
  }

  /** No two stores stand for the same typed state: a setter that changes anything else changes the typed state. */
  lemma WorldDeterminesStore(fmt: Format, w: World, s: Store, u: Store)
    requires Represents(fmt, w, s) && Represents(fmt, w, u)
    ensures s == u
  {
    forall key
      ensures key in s <==> key in u
      ensures key in s && key in u ==> s[key] == u[key]
    {
      if key in s {
        Included(fmt, w, s, u, key);
      }
      if key in u {
        Included(fmt, w, u, s, key);
      }
    }
  }

  // ---- Decimal text ----------------------------------------------------------------------------------------

  function Div10(n: nat): nat { if n < 10 then 0 else 1 + Div10(n - 10) }

  function Mod10(n: nat): (r: nat)
    ensures r < 10
  {
    if n < 10 then n else Mod10(n - 10)
  }

  lemma {:induction false} SplitsBy10(n: nat)
    ensures n == 10 * Div10(n) + Mod10(n)
  {
    if n >= 10 {
      SplitsBy10(n - 10);
    }
  }

  /** `%llu` */
  function DecText(n: nat): Text
  {
    if n < 10 then [48 + n] else SplitsBy10(n); DecText(Div10(n)) + [48 + Mod10(n)]
  }

  predicate IsDigit(c: byte) { 48 <= c <= 57 }

  function LeadingDigits(t: Text): Text
  {
    if t == [] || !IsDigit(t[0]) then [] else [t[0]] + LeadingDigits(t[1..])
  }

  function DigitsValue(t: Text): int
  {
    if t == [] then 0 else 10 * DigitsValue(t[..|t| - 1]) + t[|t| - 1] - 48
  }

  /** `strtoull(t, NULL, 10)` on text without sign or leading blanks: the leading digits, saturating. */
  function ParseDec(t: Text): uint64
  {
    var v := DigitsValue(LeadingDigits(t));
    if v < 0 then 0 else if v < U64 then v else U64 - 1
  }

  lemma {:induction false} AllDigits(t: Text)
    requires forall i :: 0 <= i < |t| ==> IsDigit(t[i])
    ensures LeadingDigits(t) == t
  {
    if t != [] {
      AllDigits(t[1..]);
      assert t == [t[0]] + t[1..];
    }
  }

  lemma {:induction false} DecTextDigits(n: nat)
    ensures forall i :: 0 <= i < |DecText(n)| ==> IsDigit(DecText(n)[i])
    ensures DigitsValue(DecText(n)) == n
  {
    if n >= 10 {
      SplitsBy10(n);
      DecTextDigits(Div10(n));
      assert DecText(n)[..|DecText(n)| - 1] == DecText(Div10(n));
    } else {
      assert DecText(n)[..0] == [];
    }
  }

  /** Reading a stored decimal gives the number written, or the greatest 64-bit number where it does not fit. */
  lemma ParseDecText(n: nat)
    ensures ParseDec(DecText(n)) == if n < U64 then n else 0xffff_ffff_ffff_ffff
  {
    DecTextDigits(n);
    AllDigits(DecText(n));
  }

  // ---- The formats of the code -----------------------------------------------------------------------------

  function KeyText(k: KeyName): Text
  {
    match k
    case AccountKey(a) => Ascii("account:") + Hex.Encode(a)
    case StorageKey(a) => Ascii("storage:") + Hex.Encode(a)
    case CodeKey(a) => Ascii("code:") + Hex.Encode(a)
    case ReceiptKey(h) => Ascii("receipt:") + Hex.Encode(h)
    case BlockKey => Ascii("block:latest")
  }

  function FieldText(f: FieldName): Text
  {
    match f
    case NonceField => Ascii("nonce")
    case BalanceField => Ascii("balance")
    case CodeHashField => Ascii("codehash")
    case SlotField(k) => Hex.Encode(k)
  }

  function ValueText(v: FieldValue): Text
  {
    match v
    case Num(n) => DecText(n)
    case Wide(w) => Hex.Encode(w)
  }

  function CodeFormat(): Format { Format(k => KeyText(k), f => FieldText(f), v => ValueText(v)) }

  lemma SamePrefix(p: Text, a: seq<byte>, b: seq<byte>)
    requires p + Hex.Encode(a) == p + Hex.Encode(b)
    ensures a == b
  {
    assert Hex.Encode(a) == (p + Hex.Encode(a))[|p|..];
    assert Hex.Encode(b) == (p + Hex.Encode(b))[|p|..];
    Hex.EncodeInjective(a, b);
  }

  /** The first byte of a key tells its family. */
  lemma FamilyByte(k: KeyName)
    ensures KeyText(k) != []
    ensures KeyText(k)[0] == match k
                             case AccountKey(_) => 97
                             case StorageKey(_) => 115
                             case CodeKey(_) => 99
                             case ReceiptKey(_) => 114
                             case BlockKey => 98
  {
  }

  /** Distinct accounts, slots and receipts never share a key, and the key families never overlap. */
  lemma KeyTextInjective(k: KeyName, l: KeyName)
    requires KeyText(k) == KeyText(l)
    ensures k == l
  {
    FamilyByte(k);
    FamilyByte(l);
    match k
    case AccountKey(a) => SamePrefix(Ascii("account:"), a, l.a);
    case StorageKey(a) => SamePrefix(Ascii("storage:"), a, l.a);
    case CodeKey(a) => SamePrefix(Ascii("code:"), a, l.a);
    case ReceiptKey(h) => SamePrefix(Ascii("receipt:"), h, l.h);
    case BlockKey =>
  }

  lemma FieldTextInjective(f: FieldName, g: FieldName)
    requires FieldText(f) == FieldText(g)
    ensures f == g
  {
    if f.SlotField? && g.SlotField? {
      Hex.EncodeInjective(f.k, g.k);
    } else {
      assert FieldText(f)[0] == FieldText(g)[0];
    }
  }

  lemma FormatDistinct()
    ensures Distinct(CodeFormat())
  {
    forall k, l | CodeFormat().key(k) == CodeFormat().key(l)
      ensures k == l
    {
      KeyTextInjective(k, l);
    }
    forall f, g | CodeFormat().field(f) == CodeFormat().field(g)
      ensures f == g
    {
      FieldTextInjective(f, g);
    }
  }

  lemma ValueTextInjective(v: FieldValue, u: FieldValue)
    requires v.Num? == u.Num? && ValueText(v) == ValueText(u)
    ensures v == u
  {
    if v.Num? {
      ParseDecText(v.n);
      ParseDecText(u.n);
    } else {
      Hex.EncodeInjective(v.w, u.w);
    }
  }

  lemma SameFields(w: World, u: World, s: Store, k: KeyName, f: FieldName)
    requires Represents(CodeFormat(), w, s) && Represents(CodeFormat(), u, s) && IsHashKey(k)
    ensures FieldIn(w, k, f) == FieldIn(u, k, f)
  {
    assert FieldsMatch(CodeFormat(), w, s, k) && FieldsMatch(CodeFormat(), u, s, k);
    var fmt := CodeFormat();
    assert HGet(s, fmt.key(k), fmt.field(f)) == OptText(fmt, FieldIn(w, k, f)) == OptText(fmt, FieldIn(u, k, f));
    if FieldIn(w, k, f).Some? {
      ValueTextInjective(FieldIn(w, k, f).value, FieldIn(u, k, f).value);
    }
  }

  lemma SameStrings(w: World, u: World, s: Store, k: KeyName)
    requires Represents(CodeFormat(), w, s) && Represents(CodeFormat(), u, s) && !IsHashKey(k)
    ensures StringIn(w, k) == StringIn(u, k)
  {
    assert StringMatches(CodeFormat(), w, s, k) && StringMatches(CodeFormat(), u, s, k);
  }

  lemma SameAccounts(w: World, u: World)
    requires forall k, f :: FieldIn(w, k, f) == FieldIn(u, k, f)
    ensures w.nonces == u.nonces && w.balances == u.balances && w.codeHashes == u.codeHashes
  {
    forall a: Addr
      ensures a in w.nonces <==> a in u.nonces
      ensures a in w.nonces ==> w.nonces[a] == u.nonces[a]
      ensures a in w.balances <==> a in u.balances
      ensures a in w.balances ==> w.balances[a] == u.balances[a]
      ensures a in w.codeHashes <==> a in u.codeHashes
      ensures a in w.codeHashes ==> w.codeHashes[a] == u.codeHashes[a]
    {
      var k := AccountKey(a);
      assert FieldIn(w, k, NonceField) == FieldIn(u, k, NonceField);
      assert FieldIn(w, k, BalanceField) == FieldIn(u, k, BalanceField);
      assert FieldIn(w, k, CodeHashField) == FieldIn(u, k, CodeHashField);
    }
  }

  lemma SameStorage(w: World, u: World)
    requires forall k, f :: FieldIn(w, k, f) == FieldIn(u, k, f)
    ensures w.storage == u.storage
  {
    forall slot: Slot
      ensures slot in w.storage <==> slot in u.storage
      ensures slot in w.storage ==> w.storage[slot] == u.storage[slot]
    {
      var k, f := StorageKey(slot.addr), SlotField(slot.key);
      assert slot == Slot(slot.addr, slot.key) && FieldIn(w, k, f) == FieldIn(u, k, f);
    }
  }

  lemma SameBlobs(w: World, u: World)
    requires forall k :: StringIn(w, k) == StringIn(u, k)
    ensures w.code == u.code && w.receipts == u.receipts && w.latest == u.latest
  {
    forall a: Addr
      ensures a in w.code <==> a in u.code
      ensures a in w.code ==> w.code[a] == u.code[a]
    {
      assert StringIn(w, CodeKey(a)) == StringIn(u, CodeKey(a));
    }
    forall h: Word
      ensures h in w.receipts <==> h in u.receipts
      ensures h in w.receipts ==> w.receipts[h] == u.receipts[h]
    {
      assert StringIn(w, ReceiptKey(h)) == StringIn(u, ReceiptKey(h));
    }
    assert StringIn(w, BlockKey) == StringIn(u, BlockKey);
    if w.latest.Some? {
      ParseDecText(w.latest.value);
      ParseDecText(u.latest.value);
    }
  }

  /** The flat store keeps all of the typed state: no two typed states have the same store. */
  lemma StoreDeterminesWorld(w: World, u: World, s: Store)
    requires Represents(CodeFormat(), w, s) && Represents(CodeFormat(), u, s)
    ensures w == u
  {
    forall k, f
      ensures FieldIn(w, k, f) == FieldIn(u, k, f)
    {
      if IsHashKey(k) {
        SameFields(w, u, s, k, f);
      }
    }
    forall k
      ensures StringIn(w, k) == StringIn(u, k)
    {
      if !IsHashKey(k) {
        SameStrings(w, u, s, k);
      }
    }
    SameAccounts(w, u);
    SameStorage(w, u);
    SameBlobs(w, u);
  }

  /** One field of an account, as the code writes it. */
  function HSetAccount(s: Store, a: Addr, f: FieldName, v: FieldValue): Store
  {
    HSet(s, KeyText(AccountKey(a)), FieldText(f), ValueText(v))
  }

  lemma HSetAccountRepresents(w: World, s: Store, a: Addr, f: FieldName, v: FieldValue, w': World)
    requires Represents(CodeFormat(), w, s)
    requires forall l, g :: FieldIn(w', l, g) == if l == AccountKey(a) && g == f then Some(v) else FieldIn(w, l, g)
    requires forall l :: StringIn(w', l) == StringIn(w, l)
    ensures Represents(CodeFormat(), w', HSetAccount(s, a, f, v))
  {
    FormatDistinct();
    HSetRepresents(CodeFormat(), w, s, AccountKey(a), f, v, w');
  }

  lemma NonceSet(w: World, s: Store, a: Addr, n: uint64)
    requires Represents(CodeFormat(), w, s)
    ensures Represents(CodeFormat(), w.(nonces := w.nonces[a := n]), HSetAccount(s, a, NonceField, Num(n)))
  {
    HSetAccountRepresents(w, s, a, NonceField, Num(n), w.(nonces := w.nonces[a := n]));
  }

  lemma BalanceSet(w: World, s: Store, a: Addr, v: Word)
    requires Represents(CodeFormat(), w, s)
    ensures Represents(CodeFormat(), w.(balances := w.balances[a := v]), HSetAccount(s, a, BalanceField, Wide(v)))
  {
    HSetAccountRepresents(w, s, a, BalanceField, Wide(v), w.(balances := w.balances[a := v]));
  }

  lemma CodeHashSet(w: World, s: Store, a: Addr, v: Word)
    requires Represents(CodeFormat(), w, s)
    ensures Represents(CodeFormat(), w.(codeHashes := w.codeHashes[a := v]), HSetAccount(s, a, CodeHashField, Wide(v)))
  {
    HSetAccountRepresents(w, s, a, CodeHashField, Wide(v), w.(codeHashes := w.codeHashes[a := v]));
  }

  lemma CodeSet(w: World, s: Store, a: Addr, code: seq<byte>)
    requires Represents(CodeFormat(), w, s)
    ensures Represents(CodeFormat(), w.(code := w.code[a := code]), Set(s, KeyText(CodeKey(a)), code))
  {
    FormatDistinct();
    CodeEntry(w, a, code);
    SetRepresents(CodeFormat(), w, s, CodeKey(a), code, w.(code := w.code[a := code]));
  }

  lemma CodeEntry(w: World, a: Addr, code: seq<byte>)
    ensures var w' := w.(code := w.code[a := code]);
            && (forall l, g :: FieldIn(w', l, g) == FieldIn(w, l, g))
            && (forall l :: StringIn(w', l) == if l == CodeKey(a) then Some(code) else StringIn(w, l))
  {
  }

  lemma ReceiptSet(w: World, s: Store, h: Word, data: seq<byte>)
    requires Represents(CodeFormat(), w, s)
    ensures Represents(CodeFormat(), w.(receipts := w.receipts[h := data]), Set(s, KeyText(ReceiptKey(h)), data))
  {
    FormatDistinct();
    ReceiptEntry(w, h, data);
    SetRepresents(CodeFormat(), w, s, ReceiptKey(h), data, w.(receipts := w.receipts[h := data]));
  }

  lemma ReceiptEntry(w: World, h: Word, data: seq<byte>)
    ensures var w' := w.(receipts := w.receipts[h := data]);
            && (forall l, g :: FieldIn(w', l, g) == FieldIn(w, l, g))
            && (forall l :: StringIn(w', l) == if l == ReceiptKey(h) then Some(data) else StringIn(w, l))
  {
  }

  lemma BlockSet(w: World, s: Store, n: uint64)
    requires Represents(CodeFormat(), w, s)
    ensures Represents(CodeFormat(), w.(latest := Some(n)), Set(s, KeyText(BlockKey), DecText(n)))
  {
    FormatDistinct();
    BlockEntry(w, n);
    SetRepresents(CodeFormat(), w, s, BlockKey, DecText(n), w.(latest := Some(n)));
  }

  lemma BlockEntry(w: World, n: uint64)
    ensures var w' := w.(latest := Some(n));
            && (forall l, g :: FieldIn(w', l, g) == FieldIn(w, l, g))
            && (forall l :: StringIn(w', l) == if l == BlockKey then Some(DecText(n)) else StringIn(w, l))
  {
  }

  lemma SlotSet(w: World, s: Store, slot: Slot, v: Word)
    requires Represents(CodeFormat(), w, s)
    ensures Represents(CodeFormat(), w.(storage := w.storage[slot := v]),
                       HSet(s, KeyText(StorageKey(slot.addr)), FieldText(SlotField(slot.key)), ValueText(Wide(v))))
  {
    FormatDistinct();
    SlotEntry(w, slot, v);
    HSetRepresents(CodeFormat(), w, s, StorageKey(slot.addr), SlotField(slot.key), Wide(v),
                   w.(storage := w.storage[slot := v]));
  }

  lemma SlotEntry(w: World, slot: Slot, v: Word)
    ensures var w' := w.(storage := w.storage[slot := v]);
            && (forall l, g :: FieldIn(w', l, g)
                               == if l == StorageKey(slot.addr) && g == SlotField(slot.key) then Some(Wide(v))
                                  else FieldIn(w, l, g))
            && (forall l :: StringIn(w', l) == StringIn(w, l))
  {
    assert slot == Slot(slot.addr, slot.key);
  }

  // The stores that stand for an updated state are exactly the ones that the commands of the code make.

  lemma NonceCommand(w: World, s: Store, a: Addr, n: uint64, s': Store)
    requires Represents(CodeFormat(), w, s)
    ensures Represents(CodeFormat(), w.(nonces := w.nonces[a := n]), s')
            <==> s' == HSet(s, Ascii("account:") + Hex.Encode(a), Ascii("nonce"), DecText(n))
  {
    NonceSet(w, s, a, n);
    OnlyStore(w.(nonces := w.nonces[a := n]), HSetAccount(s, a, NonceField, Num(n)), s');
  }

  lemma BalanceCommand(w: World, s: Store, a: Addr, v: Word, s': Store)
    requires Represents(CodeFormat(), w, s)
    ensures Represents(CodeFormat(), w.(balances := w.balances[a := v]), s')
            <==> s' == HSet(s, Ascii("account:") + Hex.Encode(a), Ascii("balance"), Hex.Encode(v))
  {
    BalanceSet(w, s, a, v);
    OnlyStore(w.(balances := w.balances[a := v]), HSetAccount(s, a, BalanceField, Wide(v)), s');
  }

  lemma CodeHashCommand(w: World, s: Store, a: Addr, v: Word, s': Store)
    requires Represents(CodeFormat(), w, s)
    ensures Represents(CodeFormat(), w.(codeHashes := w.codeHashes[a := v]), s')
            <==> s' == HSet(s, Ascii("account:") + Hex.Encode(a), Ascii("codehash"), Hex.Encode(v))
  {
    CodeHashSet(w, s, a, v);
    OnlyStore(w.(codeHashes := w.codeHashes[a := v]), HSetAccount(s, a, CodeHashField, Wide(v)), s');
  }

  lemma SlotCommand(w: World, s: Store, slot: Slot, v: Word, s': Store)
    requires Represents(CodeFormat(), w, s)
    ensures Represents(CodeFormat(), w.(storage := w.storage[slot := v]), s')
            <==> s' == HSet(s, Ascii("storage:") + Hex.Encode(slot.addr), Hex.Encode(slot.key), Hex.Encode(v))
  {
    SlotSet(w, s, slot, v);
    OnlyStore(w.(storage := w.storage[slot := v]),
              HSet(s, KeyText(StorageKey(slot.addr)), FieldText(SlotField(slot.key)), ValueText(Wide(v))), s');
  }

  lemma CodeCommand(w: World, s: Store, a: Addr, code: seq<byte>, s': Store)
    requires Represents(CodeFormat(), w, s)
    ensures Represents(CodeFormat(), w.(code := w.code[a := code]), s')
            <==> s' == Set(s, Ascii("code:") + Hex.Encode(a), code)
  {
    CodeSet(w, s, a, code);
    OnlyStore(w.(code := w.code[a := code]), Set(s, KeyText(CodeKey(a)), code), s');
  }

  lemma ReceiptCommand(w: World, s: Store, h: Word, data: seq<byte>, s': Store)
    requires Represents(CodeFormat(), w, s)
    ensures Represents(CodeFormat(), w.(receipts := w.receipts[h := data]), s')
            <==> s' == Set(s, Ascii("receipt:") + Hex.Encode(h), data)
  {
    ReceiptSet(w, s, h, data);
    OnlyStore(w.(receipts := w.receipts[h := data]), Set(s, KeyText(ReceiptKey(h)), data), s');
  }

  lemma BlockCommand(w: World, s: Store, n: uint64, s': Store)
    requires Represents(CodeFormat(), w, s)
    ensures Represents(CodeFormat(), w.(latest := Some(n)), s') <==> s' == Set(s, Ascii("block:latest"), DecText(n))
  {
    BlockSet(w, s, n);
    OnlyStore(w.(latest := Some(n)), Set(s, KeyText(BlockKey), DecText(n)), s');
  }

  lemma OnlyStore(w: World, s: Store, s': Store)
    requires Represents(CodeFormat(), w, s)
    ensures Represents(CodeFormat(), w, s') <==> s' == s
  {
    if Represents(CodeFormat(), w, s') {
      WorldDeterminesStore(CodeFormat(), w, s', s);
    }
  }

  /** `HSET` with the three fields of an account. */
  function HSetAll(s: Store, a: Addr, nonce: uint64, balance: Word, codeHash: Word): Store
  {
    HSetAccount(HSetAccount(HSetAccount(s, a, NonceField, Num(nonce)), a, BalanceField, Wide(balance)),
                a, CodeHashField, Wide(codeHash))
  }

  function WithAccount(w: World, a: Addr, nonce: uint64, balance: Word, codeHash: Word): World
  {
    w.(nonces := w.nonces[a := nonce], balances := w.balances[a := balance],
       codeHashes := w.codeHashes[a := codeHash])
  }

  lemma AccountSet(w: World, s: Store, a: Addr, nonce: uint64, balance: Word, codeHash: Word)
    requires Represents(CodeFormat(), w, s)
    ensures Represents(CodeFormat(), WithAccount(w, a, nonce, balance, codeHash),
                       HSetAll(s, a, nonce, balance, codeHash))
  {
    NonceSet(w, s, a, nonce);
    var s1 := HSetAccount(s, a, NonceField, Num(nonce));
    var w1 := w.(nonces := w.nonces[a := nonce]);
    BalanceSet(w1, s1, a, balance);
    var s2 := HSetAccount(s1, a, BalanceField, Wide(balance));
    CodeHashSet(w1.(balances := w1.balances[a := balance]), s2, a, codeHash);
  }

  /** `evmdb_state_t`: the store behind one connection, and the typed state it stands for. */
  class RedisState {
    var kv: Store
    ghost var world: World

    ghost predicate Valid()
      reads this
    {
      Represents(CodeFormat(), world, kv)
    }

    /** An empty database. */
    constructor ()
      ensures Valid() && world == EMPTY_WORLD && kv == map[]
    {
      EmptyRepresents(CodeFormat());
      kv := map[];
      world := EMPTY_WORLD;
    }

    method ReadField(k: KeyName, f: FieldName) returns (r: Reply)
      requires Valid() && IsHashKey(k)
      ensures r == OptText(CodeFormat(), FieldIn(world, k, f))
    {
      r := HGet(kv, KeyText(k), FieldText(f));
      assert FieldsMatch(CodeFormat(), world, kv, k);
      assert r == HGet(kv, CodeFormat().key(k), CodeFormat().field(f));
    }

    method ReadString(k: KeyName) returns (r: Reply)
      requires Valid() && !IsHashKey(k)
      ensures r == OptBytes(StringIn(world, k))
    {
      r := Get(kv, KeyText(k));
      assert StringMatches(CodeFormat(), world, kv, k);
      assert r == Get(kv, CodeFormat().key(k));
    }

    method WriteField(k: KeyName, f: FieldName, v: FieldValue, ghost w: World)
      requires Valid() && IsHashKey(k)
      requires forall l, g :: FieldIn(w, l, g) == if l == k && g == f then Some(v) else FieldIn(world, l, g)
      requires forall l :: StringIn(w, l) == StringIn(world, l)
      modifies this
      ensures Valid() && world == w
    {
      FormatDistinct();
      HSetRepresents(CodeFormat(), world, kv, k, f, v, w);
      kv := HSet(kv, KeyText(k), FieldText(f), ValueText(v));
      world := w;
    }

    method WriteString(k: KeyName, b: seq<byte>, ghost w: World)
      requires Valid() && !IsHashKey(k)
      requires forall l, g :: FieldIn(w, l, g) == FieldIn(world, l, g)
      requires forall l :: StringIn(w, l) == if l == k then Some(b) else StringIn(world, l)
      modifies this
      ensures Valid() && world == w
    {
      FormatDistinct();
      SetRepresents(CodeFormat(), world, kv, k, b, w);
      kv := Set(kv, KeyText(k), b);
      world := w;
    }

    method GetNonce(a: Addr) returns (n: uint64)
      requires Valid()
      ensures n == world.Nonce(a) && (a !in world.nonces ==> n == 0)
    {
      var r := ReadField(AccountKey(a), NonceField);
      if r.Str? {
        ParseDecText(world.Nonce(a));
        n := ParseDec(r.bytes);
      } else {
        n := 0;
      }
    }

    method SetNonce(a: Addr, n: uint64)
      requires Valid()
      modifies this
      ensures Valid() && world == old(world).(nonces := old(world).nonces[a := n])
    {
      WriteField(AccountKey(a), NonceField, Num(n), world.(nonces := world.nonces[a := n]));
    }

    /** A stored 256-bit value, decoded from its hexadecimal text; zero when there is none. */
    method DecodeWord(r: Reply, ghost w: Option<FieldValue>) returns (out: Word)
      requires r == OptText(CodeFormat(), w) && (w.Some? ==> w.value.Wide?)
      ensures out == if w.Some? then w.value.w else ZERO_WORD
    {
      if r.Str? {
        Hex.DecodeEncode(w.value.w, 32);
        out := Hex.Decode(r.bytes, 32).value;
      } else {
        out := ZERO_WORD;
      }
    }

    method GetBalance(a: Addr) returns (out: Word)
      requires Valid()
      ensures out == world.Balance(a) && (a !in world.balances ==> out == Zeros(32))
    {
      var r := ReadField(AccountKey(a), BalanceField);
      out := DecodeWord(r, FieldIn(world, AccountKey(a), BalanceField));
    }

    method SetBalance(a: Addr, w: Word)
      requires Valid()
      modifies this
      ensures Valid() && world == old(world).(balances := old(world).balances[a := w])
    {
      WriteField(AccountKey(a), BalanceField, Wide(w), world.(balances := world.balances[a := w]));
    }

    method GetStorage(a: Addr, key: Word) returns (out: Word)
      requires Valid()
      ensures out == world.Storage(Slot(a, key)) && (Slot(a, key) !in world.storage ==> out == Zeros(32))
    {
      var r := ReadField(StorageKey(a), SlotField(key));
      out := DecodeWord(r, FieldIn(world, StorageKey(a), SlotField(key)));
    }

    method SetStorage(a: Addr, key: Word, w: Word)
      requires Valid()
      modifies this
      ensures Valid() && world == old(world).(storage := old(world).storage[Slot(a, key) := w])
    {
      WriteField(StorageKey(a), SlotField(key), Wide(w), world.(storage := world.storage[Slot(a, key) := w]));
    }

    /** The three fields of an account in one reply; each one missing reads as zero. */
    method GetAccount(a: Addr) returns (nonce: uint64, balance: Word, codeHash: Word)
      requires Valid()
      ensures nonce == world.Nonce(a) && balance == world.Balance(a) && codeHash == world.CodeHash(a)
    {
      nonce := GetNonce(a);
      balance := GetBalance(a);
      var r := ReadField(AccountKey(a), CodeHashField);
      codeHash := DecodeWord(r, FieldIn(world, AccountKey(a), CodeHashField));
    }

    /** One `HSET` of all three account fields: the store changes in a single step. */
    method SetAccount(a: Addr, nonce: uint64, balance: Word, codeHash: Word)
      requires Valid()
      modifies this
      ensures Valid() && world == WithAccount(old(world), a, nonce, balance, codeHash)
    {
      AccountSet(world, kv, a, nonce, balance, codeHash);
      kv := HSetAll(kv, a, nonce, balance, codeHash);
      world := WithAccount(world, a, nonce, balance, codeHash);
    }

    method GetCode(a: Addr) returns (out: seq<byte>)
      requires Valid()
      ensures out == world.Code(a) && (a !in world.code ==> out == [])
    {
      var r := ReadString(CodeKey(a));
      out := if r.Str? then r.bytes else [];
    }

    method SetCode(a: Addr, code: seq<byte>)
      requires Valid()
      modifies this
      ensures Valid() && world == old(world).(code := old(world).code[a := code])
    {
      WriteString(CodeKey(a), code, world.(code := world.code[a := code]));
    }

    method GetReceipt(h: Word) returns (out: seq<byte>)
      requires Valid()
      ensures out == world.Receipt(h) && (h !in world.receipts ==> out == [])
    {
      var r := ReadString(ReceiptKey(h));
      out := if r.Str? then r.bytes else [];
    }

    method SetReceipt(h: Word, data: seq<byte>)
      requires Valid()
      modifies this
      ensures Valid() && world == old(world).(receipts := old(world).receipts[h := data])
    {
      WriteString(ReceiptKey(h), data, world.(receipts := world.receipts[h := data]));
    }

    method GetBlockNumber() returns (n: uint64)
      requires Valid()
      ensures n == world.Block() && (world.latest.None? ==> n == 0)
    {
      var r := ReadString(BlockKey);
      if r.Str? {
        ParseDecText(world.Block());
        n := ParseDec(r.bytes);
      } else {
        n := 0;
      }
    }

    method SetBlockNumber(n: uint64)
      requires Valid()
      modifies this
      ensures Valid() && world == old(world).(latest := Some(n))
    {
      WriteString(BlockKey, DecText(n), world.(latest := Some(n)));
    }
  }
}
