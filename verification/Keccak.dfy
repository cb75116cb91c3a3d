/**
  The Keccak-256 sponge of `src/core/keccak.c` (sections 4 and 5.1 of FIPS 202, with the suffix byte 0x01 that
  predates the standard). The permutation `keccakf` is an arbitrary function `f` on 25 lanes. Bytes and lanes are
  bit vectors here, because the code combines them with exclusive or.
 */
module Keccak {

  type Lanes = s: seq<bv64> | |s| == 25 witness seq(25, _ => 0)
  type Permutation = Lanes -> Lanes

  const RATE: nat := 136

  // ---- Lanes -----------------------------------------------------------------------------------------------

  /** `(uint64_t)b << (8 * i)` */
  function Place(b: bv8, i: nat): bv64
    requires i < 8
  {
    var x := b as bv64;
    if i == 0 then x else if i == 1 then x << 8 else if i == 2 then x << 16 else if i == 3 then x << 24
    else if i == 4 then x << 32 else if i == 5 then x << 40 else if i == 6 then x << 48 else x << 56
  }

  /** `(value >> (8 * i)) & 0xff` */
  function Pick(v: bv64, i: nat): bv8
    requires i < 8
  {
    var x :=
      if i == 0 then v else if i == 1 then v >> 8 else if i == 2 then v >> 16 else if i == 3 then v >> 24
      else if i == 4 then v >> 32 else if i == 5 then v >> 40 else if i == 6 then v >> 48 else v >> 56;
    (x & 0xff) as bv8
  }

  /** `value` after `i` rounds of the loop in `load64_le`. */
  function LoadUpTo(b: seq<bv8>, i: nat): bv64
    requires i <= |b| && i <= 8
  {
    if i == 0 then 0 else LoadUpTo(b, i - 1) | Place(b[i - 1], i - 1)
  }

  function Load(b: seq<bv8>): bv64
    requires |b| == 8
  {
    LoadUpTo(b, 8)
  }

  function Store(v: bv64): (s: seq<bv8>)
    ensures |s| == 8
  {
    [Pick(v, 0), Pick(v, 1), Pick(v, 2), Pick(v, 3), Pick(v, 4), Pick(v, 5), Pick(v, 6), Pick(v, 7)]
  }

  function Join(b0: bv8, b1: bv8, b2: bv8, b3: bv8, b4: bv8, b5: bv8, b6: bv8, b7: bv8): bv64
  {
    (b0 as bv64) | ((b1 as bv64) << 8) | ((b2 as bv64) << 16) | ((b3 as bv64) << 24)
    | ((b4 as bv64) << 32) | ((b5 as bv64) << 40) | ((b6 as bv64) << 48) | ((b7 as bv64) << 56)
  }

  lemma LoadStep(b: seq<bv8>, i: nat)
    requires i < |b| && i < 8
    ensures LoadUpTo(b, i + 1) == LoadUpTo(b, i) | Place(b[i], i)
  {
  }

  lemma OrChain(b0: bv8, b1: bv8, b2: bv8, b3: bv8, b4: bv8, b5: bv8, b6: bv8, b7: bv8)
    ensures 0 | Place(b0, 0) | Place(b1, 1) | Place(b2, 2) | Place(b3, 3) | Place(b4, 4) | Place(b5, 5) | Place(b6, 6)
            | Place(b7, 7)
            == Join(b0, b1, b2, b3, b4, b5, b6, b7)
  {
  }

  lemma LoadIsJoin(b: seq<bv8>)
    requires |b| == 8
    ensures Load(b) == Join(b[0], b[1], b[2], b[3], b[4], b[5], b[6], b[7])
  {
    LoadStep(b, 0);
    LoadStep(b, 1);
    LoadStep(b, 2);
    LoadStep(b, 3);
    LoadStep(b, 4);
    LoadStep(b, 5);
    LoadStep(b, 6);
    LoadStep(b, 7);
    OrChain(b[0], b[1], b[2], b[3], b[4], b[5], b[6], b[7]);
  }

  lemma JoinPick(b0: bv8, b1: bv8, b2: bv8, b3: bv8, b4: bv8, b5: bv8, b6: bv8, b7: bv8)
    ensures Store(Join(b0, b1, b2, b3, b4, b5, b6, b7)) == [b0, b1, b2, b3, b4, b5, b6, b7]
  {
  }

  lemma PickJoin(v: bv64)
    ensures Join(Pick(v, 0), Pick(v, 1), Pick(v, 2), Pick(v, 3), Pick(v, 4), Pick(v, 5), Pick(v, 6), Pick(v, 7)) == v
  {
  }

  /** Lanes and groups of eight bytes are the same thing: the little-endian load and store undo each other. */
  lemma LaneRoundTrip(b: seq<bv8>, v: bv64)
    requires |b| == 8
    ensures Store(Load(b)) == b && Load(Store(v)) == v
  {
    LoadIsJoin(b);
    JoinPick(b[0], b[1], b[2], b[3], b[4], b[5], b[6], b[7]);
    LoadIsJoin(Store(v));
    PickJoin(v);
  }

  // ---- Padding ---------------------------------------------------------------------------------------------

  function ZeroBytes(n: nat): seq<bv8> { seq(n, _ => 0) }

  /** How many bytes padding adds: 1 to 136. */
  function PadLength(n: nat): (q: nat)
    ensures 1 <= q <= RATE
  {
    RATE - n % RATE
  }

  /** The padding bytes: 0x01, zeros, 0x80, or the single byte 0x81 where both fall together. */
  function Padding(q: nat): (s: seq<bv8>)
    requires q >= 1
    ensures |s| == q
  {
    if q == 1 then [0x81] else [0x01] + ZeroBytes(q - 2) + [0x80]
  }

  function Pad(msg: seq<bv8>): seq<bv8> { msg + Padding(PadLength(|msg|)) }

  lemma PadIsWholeBlocks(msg: seq<bv8>)
    ensures |Pad(msg)| > 0 && |Pad(msg)| % 136 == 0
  {
  }

  /** Different messages have different padded forms. */
  lemma PadInjective(a: seq<bv8>, b: seq<bv8>)
    requires Pad(a) == Pad(b)
    ensures a == b
  {
    if |a| < |b| {
      PadMark(a, |b|);
      PadMark(b, |b|);
    } else if |b| < |a| {
      PadMark(b, |a|);
      PadMark(a, |a|);
    } else {
      assert a == Pad(a)[..|a|] && b == Pad(b)[..|b|];
    }
  }

  /** The byte right after the message is 0x01 or 0x81; every later byte is 0 or 0x80. */
  lemma PadMark(msg: seq<bv8>, i: nat)
    requires |msg| <= i < |Pad(msg)|
    ensures Pad(msg)[i] == 0x01 || Pad(msg)[i] == 0x81 <==> i == |msg|
  {
    var q := PadLength(|msg|);
    assert Pad(msg)[i] == Padding(q)[i - |msg|];
  }

  lemma PadTail(msg: seq<bv8>)
    requires |msg| >= RATE
    ensures Pad(msg)[..RATE] == msg[..RATE] && Pad(msg)[RATE..] == Pad(msg[RATE..])
  {
    assert PadLength(|msg|) == PadLength(|msg| - RATE);
  }

  // ---- Sponge ----------------------------------------------------------------------------------------------

  /** A block as 17 lanes. */
  function BlockLanes(block: seq<bv8>): (ls: seq<bv64>)
    requires |block| == RATE
    ensures |ls| == 17
  {
    seq(17, i requires 0 <= i < 17 => Load(block[8 * i..8 * i + 8]))
  }

  function XorLanes(st: Lanes, ls: seq<bv64>): Lanes
    requires |ls| == 17
  {
    seq(25, i requires 0 <= i < 25 => if i < 17 then st[i] ^ ls[i] else st[i])
  }

  /** Xor a block into the first 17 lanes of the state. */
  function XorBlock(st: Lanes, block: seq<bv8>): Lanes
    requires |block| == RATE
  {
    XorLanes(st, BlockLanes(block))
  }

  /** Xoring a block in twice gives the state back: nothing of the state is lost, and lanes beyond the rate stay. */
  lemma XorUndoes(st: Lanes, block: seq<bv8>)
    requires |block| == RATE
    ensures XorBlock(XorBlock(st, block), block) == st && XorBlock(st, block)[17..] == st[17..]
  {
    var ls := BlockLanes(block);
    forall i | 0 <= i < 17
      ensures (st[i] ^ ls[i]) ^ ls[i] == st[i]
    {
      XorTwice(st[i], ls[i]);
    }
  }

  lemma XorTwice(x: bv64, y: bv64)
    ensures (x ^ y) ^ y == x
  {
  }

  /** Absorb every whole block, first to last. */
  function Absorb(f: Permutation, st: Lanes, p: seq<bv8>): Lanes
    decreases |p|
  {
    if |p| < RATE then st else Absorb(f, f(XorBlock(st, p[..RATE])), p[RATE..])
  }

  function Squeeze(st: Lanes): (d: seq<bv8>)
    ensures |d| == 32
  {
    Store(st[0]) + Store(st[1]) + Store(st[2]) + Store(st[3])
  }

  function ZeroLanes(): Lanes { seq(25, _ => 0) }

  function Digest(f: Permutation, msg: seq<bv8>): seq<bv8> { Squeeze(Absorb(f, ZeroLanes(), Pad(msg))) }

  /** The final block as the code fills it: the rest of the message, 0x01 behind it, and the top bit at the end. */
  function LastBlock(rest: seq<bv8>): seq<bv8>
    requires |rest| < RATE
  {
    var block := (rest + ZeroBytes(RATE - |rest|))[|rest| := 0x01];
    block[RATE - 1 := block[RATE - 1] | 0x80]
  }

  lemma LastBlockIsPad(rest: seq<bv8>)
    requires |rest| < RATE
    ensures LastBlock(rest) == Pad(rest)
  {
    var q := RATE - |rest|;
    assert PadLength(|rest|) == q;
    assert (0x01 as bv8) | 0x80 == 0x81 && (0x00 as bv8) | 0x80 == 0x80;
    forall i | 0 <= i < RATE
      ensures LastBlock(rest)[i] == Pad(rest)[i]
    {
      if i >= |rest| {
        assert Pad(rest)[i] == Padding(q)[i - |rest|];
      }
    }
  }

  // ---- The code --------------------------------------------------------------------------------------------

  /** `load64_le` */
  method LoadLane(data: seq<bv8>) returns (value: bv64)
    requires |data| == 8
    ensures value == Load(data)
  {
    value := 0;
    for i := 0 to 8
      invariant value == LoadUpTo(data, i)
    {
      value := value | Place(data[i], i);
    }
  }

  method LoadBlockLane(block: seq<bv8>, lane: nat) returns (v: bv64)
    requires |block| == RATE && lane < 17
    ensures v == BlockLanes(block)[lane]
  {
    v := LoadLane(block[8 * lane..8 * lane + 8]);
  }

  lemma XorLanesStep(before: Lanes, ls: seq<bv64>, cur: seq<bv64>, lane: nat)
    requires |ls| == 17 && lane < 17 && cur == XorLanes(before, ls)[..lane] + before[lane..]
    ensures cur[lane := cur[lane] ^ ls[lane]] == XorLanes(before, ls)[..lane + 1] + before[lane + 1..]
  {
  }

  /** The lane loop that xors a block into the state. */
  method XorBlockInPlace(state: array<bv64>, block: seq<bv8>)
    requires state.Length == 25 && |block| == RATE
    modifies state
    ensures state[..] == XorBlock(old(state[..]), block)
  {
    ghost var before: Lanes := state[..];
    ghost var ls := BlockLanes(block);
    for lane := 0 to 17
      invariant state[..] == XorLanes(before, ls)[..lane] + before[lane..]
    {
      var v := LoadBlockLane(block, lane);
      XorLanesStep(before, ls, state[..], lane);
      state[lane] := state[lane] ^ v;
    }
    assert XorLanes(before, ls)[..17] + before[17..] == XorLanes(before, ls);
  }

  /** Xor a block into the state, then permute it in place. */
  method AbsorbBlock(f: Permutation, state: array<bv64>, block: seq<bv8>)
    requires state.Length == 25 && |block| == RATE
    modifies state
    ensures state[..] == f(XorBlock(old(state[..]), block))
  {
    XorBlockInPlace(state, block);
    var next := f(state[..]);
    forall i | 0 <= i < 25 {
      state[i] := next[i];
    }
    assert state[..] == next;
  }

  /** The last block: copy the rest, mark its end, set the top bit of the last byte. */
  method FillLastBlock(rest: seq<bv8>) returns (block: array<bv8>)
    requires |rest| < RATE
    ensures fresh(block) && block[..] == Pad(rest)
  {
    block := new bv8[RATE](_ => 0);
    forall i | 0 <= i < |rest| {
      block[i] := rest[i];
    }
    block[|rest|] := 0x01;
    block[RATE - 1] := block[RATE - 1] | 0x80;
    assert block[..] == LastBlock(rest);
    LastBlockIsPad(rest);
  }

  lemma StoreStep(before: seq<bv8>, bytes: seq<bv8>, cur: seq<bv8>, off: nat, i: nat)
    requires |bytes| == 8 && i < 8 && off + 8 <= |before|
    requires cur == before[..off] + bytes[..i] + before[off + i..]
    ensures cur[off + i := bytes[i]] == before[..off] + bytes[..i + 1] + before[off + i + 1..]
  {
  }

  /** `store64_le` at an offset */
  method StoreLane(out: array<bv8>, off: nat, value: bv64)
    requires off + 8 <= out.Length
    modifies out
    ensures out[..] == old(out[..off]) + Store(value) + old(out[off + 8..])
  {
    ghost var before, bytes := out[..], Store(value);
    for i := 0 to 8
      invariant out[..] == before[..off] + bytes[..i] + before[off + i..]
    {
      StoreStep(before, bytes, out[..], off, i);
      StoreAt(value, i);
      out[off + i] := Pick(value, i);
    }
    assert bytes[..8] == bytes;
  }

  lemma StoreAt(v: bv64, i: nat)
    requires i < 8
    ensures Store(v)[i] == Pick(v, i)
  {
  }

  /** `evmdb_keccak256` is the sponge over the padded message. */
  method Keccak256(f: Permutation, data: seq<bv8>, out: array<bv8>)
    requires out.Length == 32
    modifies out
    ensures out[..] == Digest(f, data)
  {
    var state := new bv64[25](_ => 0);
    assert state[..] == ZeroLanes();
    var rest := data;
    while |rest| >= RATE
      invariant Absorb(f, state[..], Pad(rest)) == Absorb(f, ZeroLanes(), Pad(data))
      decreases |rest|
    {
      AbsorbFirst(f, state[..], rest);
      AbsorbBlock(f, state, rest[..RATE]);
      rest := rest[RATE..];
    }
    var block := FillLastBlock(rest);
    AbsorbOne(f, state[..], block[..]);
    AbsorbBlock(f, state, block[..]);
    SqueezeInto(state, out);
  }

  /** The first four lanes, stored one after the other. */
  method SqueezeInto(state: array<bv64>, out: array<bv8>)
    requires state.Length == 25 && out.Length == 32
    modifies out
    ensures out[..] == Squeeze(state[..])
  {
    ghost var st := state[..];
    for lane := 0 to 4
      invariant state[..] == st
      invariant out[..8 * lane] == Stored(st, lane)
    {
      StoreLane(out, 8 * lane, state[lane]);
      assert out[..8 * (lane + 1)] == out[..8 * lane] + Store(st[lane]);
    }
    StoredFour(st);
  }

  function Stored(st: Lanes, n: nat): (s: seq<bv8>)
    requires n <= 4
    ensures |s| == 8 * n
  {
    if n == 0 then [] else Stored(st, n - 1) + Store(st[n - 1])
  }

  lemma StoredStep(st: Lanes, n: nat)
    requires n < 4
    ensures Stored(st, n + 1) == Stored(st, n) + Store(st[n])
  {
  }

  lemma StoredFour(st: Lanes)
    ensures Stored(st, 4) == Squeeze(st)
  {
    StoredStep(st, 0);
    StoredStep(st, 1);
    StoredStep(st, 2);
    StoredStep(st, 3);
    FourJoined(Store(st[0]), Store(st[1]), Store(st[2]), Store(st[3]));
  }

  lemma FourJoined(a: seq<bv8>, b: seq<bv8>, c: seq<bv8>, d: seq<bv8>)
    ensures [] + a + b + c + d == a + b + c + d
  {
    assert [] + a == a;
  }

  lemma AbsorbFirst(f: Permutation, st: Lanes, msg: seq<bv8>)
    requires |msg| >= RATE
    ensures Absorb(f, st, Pad(msg)) == Absorb(f, f(XorBlock(st, msg[..RATE])), Pad(msg[RATE..]))
  {
    PadTail(msg);
  }

  lemma AbsorbOne(f: Permutation, st: Lanes, p: seq<bv8>)
    requires |p| == RATE
    ensures Absorb(f, st, p) == f(XorBlock(st, p))
  {
    assert p[..RATE] == p && p[RATE..] == [];
  }
}
