/** Gas arithmetic of `src/evm/gas.c`: the EIP-1559 base fee recurrence and the EIP-2028 intrinsic cost. */
module Gas {
  import opened Bytes

  // ---- Base fee --------------------------------------------------------------------------------------------

  function Target(limit: nat): nat { limit / 2 }

  function FeeDelta(fee: nat, delta: nat, target: nat): nat
    requires target > 0
  {
    fee * delta / target / 8
  }

  function FeeDelta64(fee: nat, delta: nat, target: nat): nat
    requires target > 0
  {
    Cast64(fee * delta) / target / 8
  }

  /** `evmdb_gas_calc_base_fee` in its 64-bit arithmetic. */
  function CalcBaseFee(fee: uint64, used: uint64, limit: uint64): uint64
    requires limit >= 2
  {
    var target := Target(limit);
    if used == target then fee
    else if used > target then
      var d := FeeDelta64(fee, used - target, target);
      Cast64(fee + (if d < 1 then 1 else d))
    else
      var d := FeeDelta64(fee, target - used, target);
      if d >= fee then 1 else fee - d
  }

  /** The 64-bit code computes the recurrence whenever the product and the result fit. */
  lemma CalcIsExact(fee: uint64, used: uint64, limit: uint64)
    requires limit >= 2 && StepFits(fee, used, limit)
    ensures CalcBaseFee(fee, used, limit) == NextBaseFee(fee, used, limit)
  {
  }

  /** The base fee recurrence over the integers. */
  function NextBaseFee(fee: nat, used: nat, limit: nat): nat
    requires limit >= 2
  {
    var target := Target(limit);
    if used == target then fee
    else if used > target then
      var d := FeeDelta(fee, used - target, target);
      fee + (if d < 1 then 1 else d)
    else
      var d := FeeDelta(fee, target - used, target);
      if d >= fee then 1 else fee - d
  }

  lemma DivMonotone(x: nat, y: nat, d: nat)
    requires x <= y && d > 0
    ensures x / d <= y / d
  {
    var q, r := x / d, y / d;
    if q > r {
      MulMonotone(r + 1, q, d);
    }
  }

  lemma DivBound(x: nat, k: nat, d: nat)
    requires x <= k * d && d > 0
    ensures x / d <= k
  {
    var q := x / d;
    if q > k {
      MulMonotone(k + 1, q, d);
    }
  }

  lemma FeeDeltaMonotone(fee: nat, d: nat, e: nat, target: nat)
    requires d <= e && target > 0
    ensures FeeDelta(fee, d, target) <= FeeDelta(fee, e, target)
  {
    MulMonotone(d, e, fee);
    DivMonotone(fee * d, fee * e, target);
  }

  /** A change is at most an eighth while usage stays within twice the target. */
  lemma FeeDeltaBound(fee: nat, delta: nat, target: nat)
    requires target > 0 && delta <= target
    ensures 8 * FeeDelta(fee, delta, target) <= fee
  {
    MulMonotone(delta, target, fee);
    DivBound(fee * delta, fee, target);
  }

  /** One update moves the fee by at most an eighth (at least 1 upward), and fees of 7 and more stay at 7 or more. */
  lemma StepBounds(fee: nat, used: nat, limit: nat)
    requires limit >= 2 && fee >= 1 && used <= 2 * Target(limit)
    ensures var next := NextBaseFee(fee, used, limit);
            next >= 1 && 8 * next >= 7 * fee && 8 * (next + 8) <= 9 * (fee + 8) && (fee >= 7 ==> next >= 7)
  {
    var target := Target(limit);
    if used > target {
      FeeDeltaBound(fee, used - target, target);
    } else {
      FeeDeltaBound(fee, target - used, target);
    }
  }

  /**
    The change is the parent fee times the distance from the target, over eight times the target, rounded down; upward
    it is at least 1, and downward a fee that would come to 0 becomes 1.
   */
  lemma ChangeExactly(fee: nat, used: nat, limit: nat) returns (d: nat)
    requires limit >= 2
    ensures var target, next := limit / 2, NextBaseFee(fee, used, limit);
            var distance := if used > target then used - target else target - used;
            && d * (8 * target) <= fee * distance < (d + 1) * (8 * target)
            && (used == target ==> next == fee)
            && (used > target ==> next == fee + (if d < 1 then 1 else d))
            && (used < target ==> next == if d >= fee then 1 else fee - d)
  {
    var target := limit / 2;
    var distance := if used > target then used - target else target - used;
    d := FeeDelta(fee, distance, target);
    Rounds(fee * distance, target);
  }

  lemma Rounds(x: nat, t: nat)
    requires t > 0
    ensures var d := x / t / 8; d * (8 * t) <= x < (d + 1) * (8 * t)
  {
    var q := x / t;
    var d := q / 8;
    assert q * t <= x < (q + 1) * t;
    MulMonotone(8 * d, q, t);
    MulMonotone(q + 1, 8 * (d + 1), t);
    assert (8 * d) * t == d * (8 * t) && (8 * (d + 1)) * t == (d + 1) * (8 * t);
  }

  /** The extremes are exact: an empty block takes off an eighth, one at twice the target adds an eighth, at least 1. */
  lemma ExtremeBlocks(fee: nat, limit: nat)
    requires limit >= 2 && fee >= 1
    ensures NextBaseFee(fee, 0, limit) == fee - fee / 8
    ensures NextBaseFee(fee, 2 * Target(limit), limit) == fee + (if fee < 8 then 1 else fee / 8)
  {
    WholeDelta(fee, Target(limit));
  }

  lemma WholeDelta(fee: nat, target: nat)
    requires target > 0
    ensures FeeDelta(fee, target, target) == fee / 8
  {
    DivBound(fee * target, fee, target);
    assert fee * target / target >= fee by {
      if fee * target / target < fee {
        MulMonotone(fee * target / target + 1, fee, target);
      }
    }
  }

  datatype Block = Block(used: uint64, limit: uint64)

  /** The fee after the updates of a whole run of blocks. */
  function FeeAfter(fee: nat, run: seq<Block>): nat
    requires forall i :: 0 <= i < |run| ==> run[i].limit >= 2
  {
    if run == [] then fee
    else NextBaseFee(FeeAfter(fee, run[..|run| - 1]), run[|run| - 1].used, run[|run| - 1].limit)
  }

  function Pow(b: nat, k: nat): nat { if k == 0 then 1 else b * Pow(b, k - 1) }

  /** Between `(7/8)^k` and, shifted by 8, `(9/8)^k` of where it started; from 7 on never below 7. */
  predicate WithinBounds(fee: nat, k: nat, last: nat)
  {
    && last >= 1
    && Pow(8, k) * last >= Pow(7, k) * fee
    && Pow(8, k) * (last + 8) <= Pow(9, k) * (fee + 8)
    && (fee >= 7 ==> last >= 7)
  }

  /** Over every run of updates the fee stays within its bounds. */
  lemma {:induction false} RunBounds(fee: nat, run: seq<Block>)
    requires fee >= 1
    requires forall i :: 0 <= i < |run| ==> run[i].limit >= 2 && run[i].used <= 2 * Target(run[i].limit)
    ensures WithinBounds(fee, |run|, FeeAfter(fee, run))
  {
    if run != [] {
      var k := |run| - 1;
      var prev := FeeAfter(fee, run[..k]);
      RunBounds(fee, run[..k]);
      StepBounds(prev, run[k].used, run[k].limit);
      LowerStep(prev, FeeAfter(fee, run), fee, Pow(8, k), Pow(7, k));
      UpperStep(prev + 8, FeeAfter(fee, run) + 8, fee + 8, Pow(8, k), Pow(9, k));
    }
  }

  lemma LowerStep(prev: nat, next: nat, fee: nat, p8: nat, p7: nat)
    requires 8 * next >= 7 * prev && p8 * prev >= p7 * fee
    ensures (8 * p8) * next >= (7 * p7) * fee
  {
    calc {
      (8 * p8) * next;
      p8 * (8 * next);
    >= { MulMonotone(7 * prev, 8 * next, p8); }
      p8 * (7 * prev);
      7 * (p8 * prev);
    >=
      7 * (p7 * fee);
      (7 * p7) * fee;
    }
  }

  lemma UpperStep(prev: nat, next: nat, fee: nat, p8: nat, p9: nat)
    requires 8 * next <= 9 * prev && p8 * prev <= p9 * fee
    ensures (8 * p8) * next <= (9 * p9) * fee
  {
    calc {
      (8 * p8) * next;
      p8 * (8 * next);
    <= { MulMonotone(8 * next, 9 * prev, p8); }
      p8 * (9 * prev);
      9 * (p8 * prev);
    <=
      9 * (p9 * fee);
      (9 * p9) * fee;
    }
  }

  /** More gas used never lowers the next fee, across all three branches. */
  lemma StepMonotone(fee: nat, used: nat, more: nat, limit: nat)
    requires limit >= 2 && fee >= 1 && used <= more
    ensures NextBaseFee(fee, used, limit) <= NextBaseFee(fee, more, limit)
  {
    var target := Target(limit);
    if used > target {
      FeeDeltaMonotone(fee, used - target, more - target, target);
    } else if more < target {
      FeeDeltaMonotone(fee, target - more, target - used, target);
      FeeDeltaBound(fee, target - used, target);
    } else if used < target {
      FeeDeltaBound(fee, target - used, target);
    }
  }

  /** With a parent fee of 0 the order breaks: an empty block gives 1 and a block on target gives 0. */
  lemma MonotoneExactly(fee: nat, limit: nat)
    requires limit >= 2
    ensures (forall used: nat, more: nat :: used <= more ==>
               NextBaseFee(fee, used, limit) <= NextBaseFee(fee, more, limit))
            <==> fee >= 1
  {
    if fee >= 1 {
      forall used: nat, more: nat | used <= more
        ensures NextBaseFee(fee, used, limit) <= NextBaseFee(fee, more, limit)
      {
        StepMonotone(fee, used, more, limit);
      }
    } else {
      assert NextBaseFee(0, 0, limit) == 1 && NextBaseFee(0, Target(limit), limit) == 0;
    }
  }

  // ---- Runs of the 64-bit code -----------------------------------------------------------------------------

  /** What the code computes over a run, each result being the next parent fee. */
  function CalcAfter(fee: uint64, run: seq<Block>): uint64
    requires forall i :: 0 <= i < |run| ==> run[i].limit >= 2
  {
    if run == [] then fee
    else CalcBaseFee(CalcAfter(fee, run[..|run| - 1]), run[|run| - 1].used, run[|run| - 1].limit)
  }

  /** The product and the result of one update are 64-bit numbers. */
  predicate StepFits(fee: nat, used: nat, limit: nat)
    requires limit >= 2
  {
    && fee * (if used > Target(limit) then used - Target(limit) else Target(limit) - used) < U64
    && NextBaseFee(fee, used, limit) < U64
  }

  /** So they are all along a run. */
  predicate RunFits(fee: nat, run: seq<Block>)
    requires forall i :: 0 <= i < |run| ==> run[i].limit >= 2
  {
    run == [] ||
    var n := |run| - 1;
    RunFits(fee, run[..n]) && StepFits(FeeAfter(fee, run[..n]), run[n].used, run[n].limit)
  }

  /** Over a run whose products and results fit, the code computes the recurrence. */
  lemma {:induction false} CalcRunIsExact(fee: uint64, run: seq<Block>)
    requires (forall i :: 0 <= i < |run| ==> run[i].limit >= 2) && RunFits(fee, run)
    ensures CalcAfter(fee, run) == FeeAfter(fee, run)
  {
    if run != [] {
      var n := |run| - 1;
      CalcRunIsExact(fee, run[..n]);
      CalcIsExact(CalcAfter(fee, run[..n]), run[n].used, run[n].limit);
    }
  }

  /** The first fee leaves room for `k` steps of growth by 9/8 at targets of at most `target`. */
  predicate HasRoom(fee: nat, k: nat, target: nat)
  {
    target >= 1 && fee >= 1 && Pow(9, k) * ((fee + 8) * target) < Pow(8, k) * U64
  }

  predicate Modest(run: seq<Block>, target: nat)
  {
    forall i :: 0 <= i < |run| ==>
      run[i].limit >= 2 && Target(run[i].limit) <= target && run[i].used <= 2 * Target(run[i].limit)
  }

  lemma Shrink(p9: nat, p8: nat, x: nat, u: nat)
    requires (9 * p9) * x < (8 * p8) * u
    ensures p9 * x < p8 * u
  {
    assert (9 * p9) * x == 9 * (p9 * x) && (8 * p8) * u == 8 * (p8 * u);
  }

  lemma CancelBound(p8: nat, p9: nat, f: nat, fee: nat, target: nat, u: nat)
    requires p8 * f <= p9 * fee && p9 * (fee * target) < p8 * u
    ensures f * target < u
  {
    calc {
      p8 * (f * target);
      (p8 * f) * target;
    <= { MulMonotone(p8 * f, p9 * fee, target); }
      (p9 * fee) * target;
      p9 * (fee * target);
    <
      p8 * u;
    }
    if f * target >= u {
      MulMonotone(u, f * target, p8);
    }
  }

  lemma ProductFits(fee: nat, used: nat, limit: nat, target: nat)
    requires limit >= 2 && Target(limit) <= target && used <= 2 * Target(limit) && (fee + 8) * target < U64
    ensures fee * (if used > Target(limit) then used - Target(limit) else Target(limit) - used) < U64
  {
    var delta := if used > Target(limit) then used - Target(limit) else Target(limit) - used;
    MulMonotone(delta, target, fee);
    MulMonotone(fee, fee + 8, target);
  }

  lemma WithinTarget(f: nat, target: nat)
    requires target >= 1 && (f + 8) * target < U64
    ensures f < U64
  {
    MulMonotone(1, target, f + 8);
  }

  lemma RoomBefore(fee: nat, k: nat, target: nat)
    requires HasRoom(fee, k + 1, target)
    ensures HasRoom(fee, k, target)
  {
    Shrink(Pow(9, k), Pow(8, k), (fee + 8) * target, U64);
  }

  lemma RoomNow(fee: nat, k: nat, last: nat, target: nat)
    requires HasRoom(fee, k, target) && WithinBounds(fee, k, last)
    ensures (last + 8) * target < U64 && last < U64
  {
    CancelBound(Pow(8, k), Pow(9, k), last + 8, fee + 8, target, U64);
    WithinTarget(last, target);
  }

  lemma RoomyStep(fee: nat, k: nat, prev: nat, b: Block, target: nat)
    requires b.limit >= 2 && Target(b.limit) <= target && b.used <= 2 * Target(b.limit)
    requires HasRoom(fee, k, target) && WithinBounds(fee, k, prev)
    requires HasRoom(fee, k + 1, target) && WithinBounds(fee, k + 1, NextBaseFee(prev, b.used, b.limit))
    ensures StepFits(prev, b.used, b.limit)
  {
    RoomNow(fee, k, prev, target);
    RoomNow(fee, k + 1, NextBaseFee(prev, b.used, b.limit), target);
    ProductFits(prev, b.used, b.limit, target);
  }

  /** Enough room at the start, and the products and results of the whole run fit. */
  lemma {:induction false} RoomyRunFits(fee: nat, run: seq<Block>, target: nat)
    requires Modest(run, target)
    requires HasRoom(fee, |run|, target)
    ensures RunFits(fee, run)
  {
    if run != [] {
      var n := |run| - 1;
      RoomBefore(fee, n, target);
      RoomyRunFits(fee, run[..n], target);
      RunBounds(fee, run[..n]);
      RunBounds(fee, run);
      RoomyStep(fee, n, FeeAfter(fee, run[..n]), run[n], target);
    }
  }

  /** The bounds of a whole run for the 64-bit code. */
  lemma CalcRunBounds(fee: uint64, run: seq<Block>)
    requires fee >= 1
    requires forall i :: 0 <= i < |run| ==> run[i].limit >= 2 && run[i].used <= 2 * Target(run[i].limit)
    requires RunFits(fee, run)
    ensures WithinBounds(fee, |run|, CalcAfter(fee, run))
  {
    CalcRunIsExact(fee, run);
    RunBounds(fee, run);
  }

  /** One step of the 64-bit code is monotone in the gas used. */
  lemma CalcMonotone(fee: uint64, used: uint64, more: uint64, limit: uint64)
    requires limit >= 2 && fee >= 1 && used <= more && StepFits(fee, used, limit) && StepFits(fee, more, limit)
    ensures CalcBaseFee(fee, used, limit) <= CalcBaseFee(fee, more, limit)
  {
    CalcIsExact(fee, used, limit);
    CalcIsExact(fee, more, limit);
    StepMonotone(fee, used, more, limit);
  }

  // ---- Intrinsic gas ---------------------------------------------------------------------------------------

  const BASE_GAS: nat := 21000
  const CREATE_GAS: nat := 53000

  /** 16 for every byte, less 12 for every zero byte. */
  function CalldataGas(data: seq<byte>): nat
  {
    ZerosWithin(data);
    16 * |data| - 12 * multiset(data)[0]
  }

  lemma ZerosWithin(data: seq<byte>)
    ensures multiset(data)[0] <= |data|
  {
    assert |multiset(data)| == |data|;
    assert multiset(data) == multiset(data)[0 := 0] + multiset{}[0 := multiset(data)[0]];
  }

  /** What the executor charges before running anything. */
  function Intrinsic(data: seq<byte>): nat { BASE_GAS + CalldataGas(data) }

  /** The accumulating loop of `evmdb_gas_intrinsic`, `intrinsic_gas_for_data` and `evmdb_evm_execute_tx`. */
  method AddCalldata(base: nat, data: seq<byte>) returns (gas: nat)
    requires base + 16 * |data| < U64
    ensures gas == base + CalldataGas(data)
  {
    gas := base;
    for i := 0 to |data|
      invariant gas == base + CalldataGas(data[..i])
    {
      assert data[..i + 1] == data[..i] + [data[i]];
      gas := gas + (if data[i] == 0 then 4 else 16);
    }
    assert data[..|data|] == data;
  }

  /** `evmdb_gas_intrinsic` */
  method GasIntrinsic(data: seq<byte>, isCreate: bool) returns (gas: nat)
    requires CREATE_GAS + 16 * |data| < U64
    ensures gas == (if isCreate then 53000 else 21000) + 16 * |data| - 12 * multiset(data)[0]
    ensures !isCreate ==> gas == Intrinsic(data)
  {
    gas := AddCalldata(if isCreate then CREATE_GAS else BASE_GAS, data);
  }
}
