/**
  The batch splitter of `evmdb_rpc_handle_request` in `src/rpc/handlers.c` (section 6 of the JSON-RPC 2.0
  specification). A request is a byte string without its terminating NUL. What a single request answers may depend
  on everything dispatched before it, so the dispatcher is a function of the items dispatched so far, the current
  one last.
 */
module Batch {
  import opened Bytes
  import opened Heaps

  type Dispatcher = seq<Text> -> Option<Text>

  const OPEN: byte := '{' as int
  const CLOSE: byte := '}' as int
  const END: byte := ']' as int
  const START: byte := '[' as int
  const COMMA: byte := ',' as int

  predicate IsBlank(c: byte) { c == 32 || c == 9 || c == 10 || c == 13 }

  /** What the splitter skips between objects. */
  predicate IsSeparator(c: byte) { IsBlank(c) || c == COMMA }

  // ---- Specification of the splitter -----------------------------------------------------------------------

  function SkipSeparators(t: Text): (r: Text)
    ensures |r| <= |t|
    ensures r == [] || !IsSeparator(r[0])
  {
    if t != [] && IsSeparator(t[0]) then SkipSeparators(t[1..]) else t
  }

  function Bump(depth: int, c: byte): int { if c == OPEN then depth + 1 else if c == CLOSE then depth - 1 else depth }

  /** Where the brace counter, standing at `depth`, has come to 0 or the text ends. */
  function ScanLength(t: Text, depth: int): (n: nat)
    requires t != []
    ensures 1 <= n <= |t|
  {
    var d := Bump(depth, t[0]);
    if |t| > 1 && d > 0 then 1 + ScanLength(t[1..], d) else 1
  }

  /** The items dispatched for the text behind the opening bracket. */
  function Split(t: Text): seq<Text>
    decreases |t|
  {
    var u := SkipSeparators(t);
    if u == [] || u[0] == END then []
    else if u[0] == OPEN then
      var n := ScanLength(u, 0);
      [u[..n]] + Split(u[n..])
    else Split(u[1..])
  }

  // ---- Rendered batches ------------------------------------------------------------------------------------

  function Depth(t: Text): int { if t == [] then 0 else Bump(Depth(t[..|t| - 1]), t[|t| - 1]) }

  /** An object: it opens with a brace, and its braces balance for the first time at its end. */
  predicate Balanced(obj: Text)
  {
    obj != [] && obj[0] == OPEN && Depth(obj) == 0 && forall i :: 0 < i < |obj| ==> Depth(obj[..i]) > 0
  }

  // Which texts are objects: a pair of braces around bytes and pairs of braces.

  /** A text in which braces nest. */
  datatype Nest = Nothing | Plain(c: byte, rest: Nest) | Braces(inside: Nest, rest: Nest)

  function Flat(n: Nest): Text
  {
    match n
    case Nothing => []
    case Plain(c, rest) => [c] + Flat(rest)
    case Braces(inside, rest) => Ascii("{") + Flat(inside) + Ascii("}") + Flat(rest)
  }

  predicate NoLooseBraces(n: Nest)
  {
    match n
    case Nothing => true
    case Plain(c, rest) => c != '{' as int && c != '}' as int && NoLooseBraces(rest)
    case Braces(inside, rest) => NoLooseBraces(inside) && NoLooseBraces(rest)
  }

  /** The counter returns to 0 and never goes below it. */
  predicate Level(t: Text) { Depth(t) == 0 && forall i :: 0 <= i <= |t| ==> Depth(t[..i]) >= 0 }

  lemma {:induction false} DepthAppend(a: Text, b: Text)
    ensures Depth(a + b) == Depth(a) + Depth(b)
  {
    if b == [] {
      assert a + b == a;
    } else {
      DepthAppend(a, b[..|b| - 1]);
      assert (a + b)[..|a + b| - 1] == a + b[..|b| - 1];
    }
  }

  lemma DepthByte(c: byte)
    ensures Depth([c]) == Bump(0, c)
  {
    assert [c][..0] == [];
  }

  lemma LevelAppend(a: Text, b: Text)
    requires Level(a) && Level(b)
    ensures Level(a + b)
  {
    DepthAppend(a, b);
    forall i | 0 <= i <= |a + b|
      ensures Depth((a + b)[..i]) >= 0
    {
      if i <= |a| {
        assert (a + b)[..i] == a[..i];
      } else {
        assert (a + b)[..i] == a + b[..i - |a|];
        DepthAppend(a, b[..i - |a|]);
      }
    }
  }

  lemma BracesBalance(t: Text)
    requires Level(t)
    ensures var obj := [OPEN] + t + [CLOSE]; Balanced(obj) && Level(obj)
  {
    var obj := [OPEN] + t + [CLOSE];
    DepthByte(OPEN);
    DepthByte(CLOSE);
    DepthAppend([OPEN] + t, [CLOSE]);
    DepthAppend([OPEN], t);
    forall i | 0 < i < |obj|
      ensures Depth(obj[..i]) > 0
    {
      assert obj[..i] == [OPEN] + t[..i - 1];
      DepthAppend([OPEN], t[..i - 1]);
    }
    assert obj[..0] == [] && obj[..|obj|] == obj;
  }

  lemma LevelByte(c: byte)
    requires c != OPEN && c != CLOSE
    ensures Level([c])
  {
    DepthByte(c);
    assert [c][..0] == [] && [c][..1] == [c];
  }

  lemma {:induction false} NestedIsLevel(n: Nest)
    requires NoLooseBraces(n)
    ensures Level(Flat(n))
  {
    match n
    case Nothing =>
    case Plain(c, rest) =>
      LevelByte(c);
      NestedIsLevel(rest);
      LevelAppend([c], Flat(rest));
    case Braces(inside, rest) =>
      NestedIsLevel(inside);
      NestedIsLevel(rest);
      BracesBalance(Flat(inside));
      LevelAppend([OPEN] + Flat(inside) + [CLOSE], Flat(rest));
      assert Ascii("{") == [OPEN] && Ascii("}") == [CLOSE];
  }

  /** A pair of braces around any nested text is an object. */
  lemma NestedIsObject(n: Nest)
    requires NoLooseBraces(n)
    ensures Balanced(Ascii("{") + Flat(n) + Ascii("}"))
  {
    NestedIsLevel(n);
    BracesBalance(Flat(n));
    assert Ascii("{") == [OPEN] && Ascii("}") == [CLOSE];
  }

  lemma SeparatorsAre(c: byte)
    ensures IsBlank(c) <==> c in Ascii(" \t\n\r")
    ensures IsSeparator(c) <==> c in Ascii(" ,\t\n\r")
  {
    var blanks, separators := Ascii(" \t\n\r"), Ascii(" ,\t\n\r");
    assert blanks == [32, 9, 10, 13] && separators == [32, 44, 9, 10, 13];
  }

  predicate AllSeparators(s: Text) { forall i :: 0 <= i < |s| ==> IsSeparator(s[i]) }

  /** Objects with separators before, between and behind them. */
  function Render(objs: seq<Text>, seps: seq<Text>): Text
    requires |seps| == |objs| + 1
  {
    if objs == [] then seps[0] else seps[0] + (objs[0] + Render(objs[1..], seps[1..]))
  }

  lemma {:induction false} SkipsSeparators(s: Text, t: Text)
    requires AllSeparators(s) && (t == [] || !IsSeparator(t[0]))
    ensures SkipSeparators(s + t) == t
  {
    if s == [] {
      assert s + t == t;
    } else {
      assert (s + t)[1..] == s[1..] + t;
      SkipsSeparators(s[1..], t);
    }
  }

  lemma DepthSnoc(t: Text, c: byte)
    ensures Depth(t + [c]) == Bump(Depth(t), c)
  {
    assert (t + [c])[..|t|] == t;
  }

  /** Scanning from inside an object stops exactly at its end. */
  lemma {:induction false} ScanFrom(obj: Text, k: nat, rest: Text)
    requires k < |obj| && Depth(obj) <= 0 && forall i :: k < i < |obj| ==> Depth(obj[..i]) > 0
    ensures ScanLength(obj[k..] + rest, Depth(obj[..k])) == |obj| - k
    decreases |obj| - k
  {
    var t := obj[k..] + rest;
    assert obj[..k + 1] == obj[..k] + [obj[k]];
    DepthSnoc(obj[..k], obj[k]);
    assert t[0] == obj[k];
    if k + 1 < |obj| {
      assert t[1..] == obj[k + 1..] + rest;
      ScanFrom(obj, k + 1, rest);
    } else {
      assert obj[..k + 1] == obj;
    }
  }

  lemma ScanObject(obj: Text, rest: Text)
    requires Balanced(obj)
    ensures ScanLength(obj + rest, 0) == |obj|
  {
    assert obj[..0] == [] && obj[0..] == obj;
    ScanFrom(obj, 0, rest);
  }

  lemma SplitObject(sep: Text, obj: Text, rest: Text)
    requires AllSeparators(sep) && Balanced(obj)
    ensures Split(sep + (obj + rest)) == [obj] + Split(rest)
  {
    var u := obj + rest;
    SkipsSeparators(sep, u);
    ScanObject(obj, rest);
    assert u[..|obj|] == obj && u[|obj|..] == rest;
  }

  /** A batch that renders a list of objects dispatches exactly those, in order, whatever follows the bracket. */
  lemma {:induction false} SplitsExactly(objs: seq<Text>, seps: seq<Text>, tail: Text)
    requires |seps| == |objs| + 1 && (forall i :: 0 <= i < |seps| ==> AllSeparators(seps[i]))
    requires forall i :: 0 <= i < |objs| ==> Balanced(objs[i])
    ensures Split(Render(objs, seps) + ([END] + tail)) == objs
    decreases |objs|
  {
    if objs == [] {
      SkipsSeparators(seps[0], [END] + tail);
    } else {
      var rest := Render(objs[1..], seps[1..]);
      var closing := [END] + tail;
      SplitsExactly(objs[1..], seps[1..], tail);
      SplitObject(seps[0], objs[0], rest + closing);
      assert Render(objs, seps) + closing == seps[0] + (objs[0] + (rest + closing));
    }
  }

  // ---- Responses -------------------------------------------------------------------------------------------

  /** The answers to the items, in order; an item without an answer is left out. */
  function Answers(dispatch: Dispatcher, items: seq<Text>): seq<Text>
  {
    if items == [] then []
    else
      var front := Answers(dispatch, items[..|items| - 1]);
      match dispatch(items)
      case Some(r) => front + [r]
      case None => front
  }

  function Join(rs: seq<Text>): Text
  {
    if rs == [] then [] else if |rs| == 1 then rs[0] else Join(rs[..|rs| - 1]) + [COMMA] + rs[|rs| - 1]
  }

  function BatchResponse(dispatch: Dispatcher, items: seq<Text>): Text
  {
    [START] + Join(Answers(dispatch, items)) + [END]
  }

  lemma JoinSnoc(rs: seq<Text>, r: Text)
    ensures Join(rs + [r]) == if rs == [] then r else Join(rs) + [COMMA] + r
  {
    assert (rs + [r])[..|rs|] == rs;
  }

  // ---- The code --------------------------------------------------------------------------------------------

  /** The response buffer, `buf_cap` bytes of which `buf_len` are used, doubled until there is room. */
  method Grow(heap: Heap, buf: array<byte>, len: nat, need: nat) returns (ok: bool, out: array<byte>)
    requires len <= buf.Length && buf.Length > 0
    modifies heap
    ensures old(heap.calls) <= heap.calls && (ok <==> heap.Granted(old(heap.calls)))
    ensures ok ==> out.Length >= need && len <= out.Length && out[..len] == buf[..len]
    ensures ok ==> out == buf || fresh(out)
  {
    out := buf;
    while need > out.Length
      invariant len <= out.Length && out.Length > 0 && out[..len] == buf[..len]
      invariant out == buf || fresh(out)
      invariant old(heap.calls) <= heap.calls && heap.Granted(old(heap.calls))
      decreases need - out.Length
    {
      var granted := heap.Request();
      if !granted {
        return false, out;
      }
      var bigger := new byte[out.Length * 2];
      forall i | 0 <= i < len {
        bigger[i] := out[i];
      }
      assert bigger[..len] == out[..len];
      out := bigger;
    }
    ok := true;
  }

  /** The do-while loop over one object: from an opening brace to the position behind the object. */
  method ScanItem(text: Text, start: nat) returns (p: nat)
    requires start < |text|
    ensures p == start + ScanLength(text[start..], 0)
  {
    var depth := Bump(0, text[start]);
    p := start + 1;
    while p < |text| && depth > 0
      invariant start < p <= |text|
      invariant start + ScanLength(text[start..], 0)
                == if p < |text| && depth > 0 then p + ScanLength(text[p..], depth) else p
      decreases |text| - p
    {
      assert text[p..][1..] == text[p + 1..];
      depth := Bump(depth, text[p]);
      p := p + 1;
    }
  }

  /** The skip loop. */
  method SkipFrom(text: Text, start: nat) returns (p: nat)
    requires start <= |text|
    ensures start <= p <= |text| && text[p..] == SkipSeparators(text[start..])
  {
    p := start;
    while p < |text| && IsSeparator(text[p])
      invariant start <= p <= |text|
      invariant SkipSeparators(text[p..]) == SkipSeparators(text[start..])
    {
      assert text[p..][1..] == text[p + 1..];
      p := p + 1;
    }
  }

  /** The buffer's contents after some answers, without the closing bracket. */
  function Collected(dispatch: Dispatcher, items: seq<Text>): Text { [START] + Join(Answers(dispatch, items)) }

  lemma CollectedSnoc(dispatch: Dispatcher, items: seq<Text>, item: Text)
    ensures Collected(dispatch, items + [item])
            == match dispatch(items + [item])
               case Some(r) =>
                 Collected(dispatch, items) + (if Answers(dispatch, items) == [] then [] else [COMMA]) + r
               case None => Collected(dispatch, items)
  {
    var done := Answers(dispatch, items);
    assert (items + [item])[..|items|] == items;
    match dispatch(items + [item])
    case Some(r) =>
      JoinSnoc(done, r);
      if done == [] {
        assert [START] + Join(done) + [] + r == [START] + r;
      } else {
        assert [START] + Join(done) + [COMMA] + r == [START] + (Join(done) + [COMMA] + r);
      }
    case None =>
  }

  /** Make room for an answer, a comma and the closing bytes, then write; three bytes are left over. */
  method AppendAnswer(heap: Heap, full: array<byte>, used: nat, first: bool, r: Text)
    returns (ok: bool, buf: array<byte>, len: nat)
    requires 1 <= used <= full.Length
    modifies full, heap
    ensures old(heap.calls) <= heap.calls && (ok <==> heap.Granted(old(heap.calls)))
    ensures buf == full || fresh(buf)
    ensures ok ==> 1 <= len && len + 3 <= buf.Length
    ensures ok ==> buf[..len] == old(full[..used]) + (if first then [] else [COMMA]) + r
  {
    ghost var start := full[..used];
    ok, buf := Grow(heap, full, used, used + |r| + 4);
    len := used;
    if !ok {
      buf := full;
      return;
    }
    if !first {
      buf[len] := COMMA;
      len := len + 1;
    }
    ghost var middle := buf[..len];
    assert middle == start + if first then [] else [COMMA];
    var at := len;
    forall i | 0 <= i < |r| {
      buf[at + i] := r[i];
    }
    len := len + |r|;
    assert buf[..len] == middle + r;
  }

  /** The buffer holds the answers to the items dispatched so far. */
  predicate Filled(dispatch: Dispatcher, items: seq<Text>, content: Text, first: bool)
  {
    content == Collected(dispatch, items) && (first <==> Answers(dispatch, items) == [])
  }

  /** Dispatch one object and collect its answer, if it has one. */
  method DispatchItem(
    dispatch: Dispatcher, heap: Heap, full: array<byte>, used: nat, wasFirst: bool, items: seq<Text>, item: Text)
    returns (ok: bool, buf: array<byte>, len: nat, first: bool)
    requires 1 <= used && used + 3 <= full.Length && Filled(dispatch, items, full[..used], wasFirst)
    modifies full, heap
    ensures old(heap.calls) <= heap.calls && (ok <==> heap.Granted(old(heap.calls)))
    ensures buf == full || fresh(buf)
    ensures ok ==> 1 <= len && len + 3 <= buf.Length && Filled(dispatch, items + [item], buf[..len], first)
  {
    ok, buf, len, first := true, full, used, wasFirst;
    var reply := dispatch(items + [item]);
    CollectedSnoc(dispatch, items, item);
    assert (items + [item])[..|items|] == items;
    if reply.Some? {
      ok, buf, len := AppendAnswer(heap, full, used, first, reply.value);
      first := false;
    }
  }

  /** The object branch: the object is copied and dispatched; one that cannot be copied is passed over. */
  method TakeItem(
    dispatch: Dispatcher, heap: Heap, full: array<byte>, used: nat, wasFirst: bool, items: seq<Text>, item: Text)
    returns (ok: bool, buf: array<byte>, len: nat, first: bool, taken: seq<Text>)
    requires 1 <= used && used + 3 <= full.Length && Filled(dispatch, items, full[..used], wasFirst)
    modifies full, heap
    ensures old(heap.calls) < heap.calls
    ensures buf == full || fresh(buf)
    ensures ok ==> 1 <= len && len + 3 <= buf.Length && Filled(dispatch, taken, buf[..len], first)
    ensures taken == if heap.answers(old(heap.calls)) then items + [item] else items
    ensures heap.Granted(old(heap.calls)) ==> ok
  {
    ok, buf, len, first, taken := true, full, used, wasFirst, items;
    var copied := heap.Request();
    if copied {
      ok, buf, len, first := DispatchItem(dispatch, heap, full, used, wasFirst, items, item);
      taken := items + [item];
    }
  }

  // What the loop body finds at the first byte behind the separators.

  lemma SplitHere(text: Text, before: nat, start: nat, p: nat)
    requires before <= start < p <= |text| && text[start..] == SkipSeparators(text[before..])
    requires text[start] == OPEN && p == start + ScanLength(text[start..], 0)
    ensures Split(text[before..]) == [text[start..p]] + Split(text[p..])
  {
    var u := text[start..];
    assert u[..p - start] == text[start..p] && u[p - start..] == text[p..];
  }

  lemma SplitSkip(text: Text, before: nat, p: nat)
    requires before <= p < |text| && text[p..] == SkipSeparators(text[before..])
    requires text[p] != OPEN && text[p] != END
    ensures Split(text[before..]) == Split(text[p + 1..])
  {
    assert text[p..][1..] == text[p + 1..];
  }

  lemma SplitEnds(text: Text, before: nat, p: nat)
    requires before <= p <= |text| && text[p..] == SkipSeparators(text[before..])
    requires p == |text| || text[p] == END
    ensures Split(text[before..]) == []
  {
  }

  /** `a` is `b` with some entries left out. */
  predicate Part(a: seq<Text>, b: seq<Text>)
    decreases |b|
  {
    if b == [] then a == []
    else
      var m, n := |a| - 1, |b| - 1;
      Part(a, b[..n]) || (a != [] && a[m] == b[n] && Part(a[..m], b[..n]))
  }

  lemma PartSnoc(a: seq<Text>, b: seq<Text>, x: Text)
    requires Part(a, b)
    ensures Part(a, b + [x]) && Part(a + [x], b + [x])
  {
    assert (b + [x])[..|b|] == b && (a + [x])[..|a|] == a;
  }

  /** Up to position `p` the objects `done` have been found, and of these `items` dispatched. */
  ghost predicate Underway(text: Text, p: nat, done: seq<Text>, items: seq<Text>)
  {
    p <= |text| && done + Split(text[p..]) == Split(text) && Part(items, done)
  }

  lemma UnderwayTake(text: Text, before: nat, start: nat, p: nat, done: seq<Text>, items: seq<Text>)
    requires Underway(text, before, done, items)
    requires before <= start < p <= |text| && text[start..] == SkipSeparators(text[before..])
    requires text[start] == OPEN && p == start + ScanLength(text[start..], 0)
    ensures var item := text[start..p];
            Underway(text, p, done + [item], items) && Underway(text, p, done + [item], items + [item])
  {
    SplitHere(text, before, start, p);
    PartSnoc(items, done, text[start..p]);
    assert done + ([text[start..p]] + Split(text[p..])) == done + [text[start..p]] + Split(text[p..]);
  }

  lemma UnderwayStart(text: Text)
    ensures Underway(text, 0, [], [])
  {
    assert text[0..] == text && [] + Split(text) == Split(text);
  }

  lemma UnderwaySkip(text: Text, before: nat, p: nat, done: seq<Text>, items: seq<Text>)
    requires Underway(text, before, done, items)
    requires before <= p < |text| && text[p..] == SkipSeparators(text[before..])
    requires text[p] != OPEN && text[p] != END
    ensures Underway(text, p + 1, done, items)
  {
    SplitSkip(text, before, p);
  }

  lemma UnderwayAtEnd(text: Text, done: seq<Text>, items: seq<Text>)
    requires Underway(text, |text|, done, items)
    ensures done == Split(text)
  {
    assert text[|text|..] == [];
    UnderwayDone(text, |text|, |text|, done, items);
  }

  lemma UnderwayDone(text: Text, before: nat, p: nat, done: seq<Text>, items: seq<Text>)
    requires Underway(text, before, done, items)
    requires before <= p <= |text| && text[p..] == SkipSeparators(text[before..])
    requires p == |text| || text[p] == END
    ensures done == Split(text)
  {
    SplitEnds(text, before, p);
    assert done + [] == done;
  }

  /** The loop body at an opening brace: find the end of the object and take it. */
  method TakeObject(
    dispatch: Dispatcher, heap: Heap, text: Text, ghost before: nat, start: nat, full: array<byte>, used: nat,
    wasFirst: bool, items: seq<Text>, ghost done: seq<Text>)
    returns (ok: bool, p: nat, buf: array<byte>, len: nat, first: bool, taken: seq<Text>)
    requires Underway(text, before, done, items)
    requires before <= start < |text| && text[start..] == SkipSeparators(text[before..]) && text[start] == OPEN
    requires 1 <= used && used + 3 <= full.Length && Filled(dispatch, items, full[..used], wasFirst)
    modifies full, heap
    ensures old(heap.calls) < heap.calls && (buf == full || fresh(buf))
    ensures start < p <= |text| && Underway(text, p, done + [text[start..p]], taken)
    ensures ok ==> 1 <= len && len + 3 <= buf.Length && Filled(dispatch, taken, buf[..len], first)
    ensures heap.Granted(old(heap.calls)) ==> ok && taken == items + [text[start..p]]
  {
    p := ScanItem(text, start);
    UnderwayTake(text, before, start, p, done, items);
    ok, buf, len, first, taken := TakeItem(dispatch, heap, full, used, wasFirst, items, text[start..p]);
  }

  /**
    The batch branch of `evmdb_rpc_handle_request` on the text behind the bracket: the objects are dispatched in
    order and their answers collected in the growing buffer. It ends on every input. With the memory it asks for it
    succeeds and dispatches every object; refused memory, it fails or passes over objects, and what it answers is
    still the answers to what it dispatched.
   */
  method HandleBatch(dispatch: Dispatcher, heap: Heap, text: Text) returns (ok: bool, items: seq<Text>, response: Text)
    modifies heap
    ensures old(heap.calls) < heap.calls
    ensures ok ==> Part(items, Split(text)) && response == BatchResponse(dispatch, items)
    ensures heap.Granted(old(heap.calls)) ==> ok && items == Split(text)
  {
    items, response := [], [];
    ok := heap.Request();
    if !ok {
      return;
    }
    var buf := new byte[4096];
    buf[0] := START;
    ghost var done: seq<Text> := [];
    var len, p, first := 1, 0, true;
    UnderwayStart(text);
    assert buf[..len] == [START] == Collected(dispatch, []);
    while p < |text|
      invariant 1 <= len && len + 3 <= buf.Length && fresh(buf) && ok
      invariant Underway(text, p, done, items) && Filled(dispatch, items, buf[..len], first)
      invariant old(heap.calls) < heap.calls && (heap.Granted(old(heap.calls)) ==> items == done)
      decreases |text| - p
    {
      ghost var before := p;
      p := SkipFrom(text, p);
      if p == |text| || text[p] == END {
        UnderwayDone(text, before, p, done, items);
        break;
      }
      if text[p] == OPEN {
        ghost var start, found := p, done;
        ok, p, buf, len, first, items := TakeObject(dispatch, heap, text, before, p, buf, len, first, items, found);
        done := found + [text[start..p]];
        if !ok {
          return;
        }
      } else {
        UnderwaySkip(text, before, p, done, items);
        p := p + 1;
      }
    }
    if p == |text| {
      UnderwayAtEnd(text, done, items);
    }
    response := Close(buf, len);
  }

  /** The closing bracket and NUL. Two bytes are always left, so the reallocation before them is never reached. */
  method Close(buf: array<byte>, used: nat) returns (text: Text)
    requires used + 2 <= buf.Length
    modifies buf
    ensures text == old(buf[..used]) + [END]
    ensures buf[..used + 2] == text + [0]
  {
    buf[used] := END;
    buf[used + 1] := 0;
    text := buf[..used + 1];
  }

  // ---- The whole request -----------------------------------------------------------------------------------

  function SkipBlanks(t: Text): Text
  {
    if t != [] && IsBlank(t[0]) then SkipBlanks(t[1..]) else t
  }

  /** The answer to a request: a batch if it opens with a bracket, otherwise a single request. */
  function Respond(dispatch: Dispatcher, request: Text): Option<Text>
  {
    var t := SkipBlanks(request);
    if t != [] && t[0] == START then Some(BatchResponse(dispatch, Split(t[1..]))) else dispatch([t])
  }

  lemma {:induction false} SkipsBlanks(s: Text, t: Text)
    requires (forall i :: 0 <= i < |s| ==> IsBlank(s[i])) && t != [] && !IsBlank(t[0])
    ensures SkipBlanks(s + t) == t
  {
    if s == [] {
      assert s + t == t;
    } else {
      assert (s + t)[1..] == s[1..] + t;
      SkipsBlanks(s[1..], t);
    }
  }

  /**
    A request that renders a batch of objects, behind any blanks, is answered by the answers to exactly those
    objects, joined by commas in brackets.
   */
  lemma BatchAnswered(dispatch: Dispatcher, blanks: Text, objs: seq<Text>, seps: seq<Text>, tail: Text)
    requires forall i :: 0 <= i < |blanks| ==> IsBlank(blanks[i])
    requires |seps| == |objs| + 1 && (forall i :: 0 <= i < |seps| ==> AllSeparators(seps[i]))
    requires forall i :: 0 <= i < |objs| ==> Balanced(objs[i])
    ensures Respond(dispatch, blanks + (Ascii("[") + (Render(objs, seps) + (Ascii("]") + tail))))
            == Some(Ascii("[") + Join(Answers(dispatch, objs)) + Ascii("]"))
  {
    assert Ascii("[") == [START] && Ascii("]") == [END];
    var text := Render(objs, seps) + ([END] + tail);
    var batch := [START] + text;
    SkipsBlanks(blanks, batch);
    assert batch[1..] == text;
    SplitsExactly(objs, seps, tail);
  }

  /** A request that is not a batch is dispatched as it is, without the blanks before it. */
  lemma SingleAnswered(dispatch: Dispatcher, blanks: Text, t: Text)
    requires forall i :: 0 <= i < |blanks| ==> IsBlank(blanks[i])
    requires t != [] && !IsBlank(t[0]) && t[0] != '[' as int
    ensures Respond(dispatch, blanks + t) == dispatch([t])
  {
    SkipsBlanks(blanks, t);
  }

  /** `evmdb_rpc_handle_request` */
  method HandleRequest(dispatch: Dispatcher, heap: Heap, request: Text) returns (ok: bool, response: Option<Text>)
    modifies heap
    ensures old(heap.calls) <= heap.calls
    ensures heap.Granted(old(heap.calls)) ==> ok && response == Respond(dispatch, request)
    ensures !ok ==> response == None
  {
    var p := 0;
    assert request[0..] == request;
    while p < |request| && IsBlank(request[p])
      invariant 0 <= p <= |request|
      invariant SkipBlanks(request[p..]) == SkipBlanks(request)
    {
      assert request[p..][1..] == request[p + 1..];
      p := p + 1;
    }
    if p < |request| && request[p] == START {
      var items, text;
      assert request[p..][1..] == request[p + 1..];
      ok, items, text := HandleBatch(dispatch, heap, request[p + 1..]);
      response := if ok then Some(text) else None;
    } else {
      ok, response := true, dispatch([request[p..]]);
    }
  }
}
