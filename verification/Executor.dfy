/**
  Transaction execution of `src/evm/executor.c` and the gas estimate of `src/rpc/handlers.c`. The EVM itself is
  foreign: a run of it is any finite sequence of host calls followed by any status, gas left and output.
 */
module Executor {
  import opened Bytes
  import opened Gas
  import opened Redis
  import opened Overlays
  import opened ExecContexts
  import opened CreateAddress
  import opened Transactions

  /** One run of the EVM. Status 0 is success, a positive one a revert or failure, a negative one an internal error. */
  datatype VmRun = VmRun(calls: seq<HostCall>, status: int, gasLeft: int, output: seq<byte>)

  datatype ExecResult = ExecResult(success: bool, gasUsed: uint64, output: seq<byte>)

  /** `Failed` is a non-zero return. */
  datatype Outcome = Failed | Executed(result: ExecResult)

  // ---- Specification ---------------------------------------------------------------------------------------

  /** `gas - gas_left` in 64 bits, a non-positive `gas_left` counting as 0. */
  function GasSpent(gas: uint64, gasLeft: int): uint64
  {
    if gasLeft <= 0 then gas else if gasLeft <= gas then gas - gasLeft else (gas - gasLeft) % U64
  }

  /** What `execute_contract` reports for a call of `to`. */
  function ContractOutcome(w: World, to: Addr, gas: uint64, vm: VmRun): Outcome
  {
    if w.Code(to) == [] then Executed(ExecResult(true, 0, []))
    else if vm.status < 0 then Failed
    else Executed(ExecResult(vm.status == 0, GasSpent(gas, vm.gasLeft), vm.output))
  }

  /** The slots that a call of `to` commits. */
  function Committed(w: World, to: Addr, vm: VmRun): map<Slot, Word>
  {
    if w.Code(to) != [] && vm.status == 0 then Run(EMPTY, vm.calls).slots else map[]
  }

  function BumpNonce(w: World, a: Addr): World { w.(nonces := w.nonces[a := Succ64(w.Nonce(a))]) }

  /** The three admission checks, in the order of the code. */
  predicate Admitted(chain: uint64, w: World, tx: Tx, from: Addr)
  {
    && (tx.chainId == 0 || tx.chainId == chain)
    && tx.nonce == w.Nonce(from)
    && Intrinsic(tx.data) <= tx.gasLimit
  }

  function ExecuteTx(keccak: Hash, chain: uint64, w: World, tx: Tx, from: Addr, vm: VmRun): (World, Outcome)
  {
    if !Admitted(chain, w, tx, from) then (w, Failed)
    else
      var intrinsic := Intrinsic(tx.data);
      match tx.to
      case None =>
        var created := w.(code := w.code[CreateAddressOf(keccak, from, w.Nonce(from)) := tx.data]);
        (BumpNonce(created, from), Executed(ExecResult(true, intrinsic, [])))
      case Some(to) =>
        match ContractOutcome(w, to, tx.gasLimit - intrinsic, vm)
        case Failed => (w, Failed)
        case Executed(r) =>
          (BumpNonce(w.(storage := w.storage + Committed(w, to, vm)), from),
           Executed(r.(gasUsed := Cast64(r.gasUsed + intrinsic))))
  }

  lemma NothingCommitted(w: World, to: Addr, gas: uint64, vm: VmRun)
    ensures ContractOutcome(w, to, gas, vm).Failed? || !ContractOutcome(w, to, gas, vm).result.success
            ==> w.storage + Committed(w, to, vm) == w.storage
  {
    assert w.storage + map[] == w.storage;
  }

  // ---- All or nothing --------------------------------------------------------------------------------------

  /** A non-zero return leaves the whole state as it was, and a revert changes the sender's nonce alone. */
  lemma AllOrNothing(keccak: Hash, chain: uint64, w: World, tx: Tx, from: Addr, vm: VmRun)
    ensures var (w', out) := ExecuteTx(keccak, chain, w, tx, from, vm);
            && (out.Failed? ==> w' == w)
            && (out.Executed? && !out.result.success ==> w' == BumpNonce(w, from))
            && (out.Executed? ==> w'.Nonce(from) == Succ64(tx.nonce))
            && (out.Executed? ==> forall a: Addr :: a != from ==> w'.Nonce(a) == w.Nonce(a))
  {
    if Admitted(chain, w, tx, from) && tx.to.Some? {
      NothingCommitted(w, tx.to.value, tx.gasLimit - Intrinsic(tx.data), vm);
    }
  }

  /** A successful call changes only the sender's nonce and slots that the VM wrote, each to its last accepted value. */
  lemma CallTouchesOnlyWrites(keccak: Hash, chain: uint64, w: World, tx: Tx, from: Addr, vm: VmRun, slot: Slot)
    requires tx.to.Some?
    ensures var (w', out) := ExecuteTx(keccak, chain, w, tx, from, vm);
            && w'.(nonces := w.nonces, storage := w.storage) == w
            && (out.Executed? && out.result.success && w.Code(tx.to.value) != [] ==>
                  w'.Storage(slot) == match LastWrite(vm.calls, slot) case Some(v) => v case None => w.Storage(slot))
            && (w'.Storage(slot) != w.Storage(slot) ==> LastWrite(vm.calls, slot).Some?)
  {
    var o := Run(EMPTY, vm.calls);
    ReadsLastWrite(w, vm.calls, slot);
    assert w.(storage := w.storage + o.slots).Storage(slot) == Read(w, o, slot);
  }

  /** A creation changes only the sender's nonce and the code at the derived address. */
  lemma CreationTouchesOnlyCode(keccak: Hash, chain: uint64, w: World, tx: Tx, from: Addr, vm: VmRun)
    requires tx.to.None?
    ensures var (w', out) := ExecuteTx(keccak, chain, w, tx, from, vm);
            && (out.Executed? <==> Admitted(chain, w, tx, from))
            && w'.(nonces := w.nonces, code := w.code) == w
            && (out.Executed? ==> w'.Code(CreateAddressOf(keccak, from, tx.nonce)) == tx.data)
            && forall a: Addr :: a != CreateAddressOf(keccak, from, tx.nonce) ==> w'.Code(a) == w.Code(a)
  {
  }

  // ---- Admission and outcome -------------------------------------------------------------------------------

  /**
    A transaction executes exactly when it is for this chain or for none, has the sender's next nonce and pays for its
    intrinsic gas, unless it calls an account with code and the VM ends with an internal error.
   */
  lemma ExecutedExactly(keccak: Hash, chain: uint64, w: World, tx: Tx, from: Addr, vm: VmRun)
    ensures ExecuteTx(keccak, chain, w, tx, from, vm).1.Executed?
            <==> && (tx.chainId == 0 || tx.chainId == chain)
                 && tx.nonce == w.Nonce(from)
                 && 21000 + 16 * |tx.data| <= tx.gasLimit + 12 * multiset(tx.data)[0]
                 && (tx.to.None? || w.Code(tx.to.value) == [] || vm.status >= 0)
  {
  }

  /** What an executed transaction reports, for a creation, a call without code and a call with code. */
  lemma ResultExactly(keccak: Hash, chain: uint64, w: World, tx: Tx, from: Addr, vm: VmRun)
    requires ExecuteTx(keccak, chain, w, tx, from, vm).1.Executed?
    ensures var r := ExecuteTx(keccak, chain, w, tx, from, vm).1.result;
            if tx.to.None? || w.Code(tx.to.value) == [] then
              r.success && r.output == [] && r.gasUsed == Intrinsic(tx.data)
            else (r.success <==> vm.status == 0) && r.output == vm.output
  {
  }

  /** The VM's gas and what it leaves make up what it was given. */
  lemma GasConserved(w: World, to: Addr, gas: uint64, vm: VmRun)
    requires w.Code(to) != [] && ContractOutcome(w, to, gas, vm).Executed?
    ensures var r := ContractOutcome(w, to, gas, vm).result;
            && (0 <= vm.gasLeft <= gas ==> r.gasUsed + vm.gasLeft == gas)
            && (vm.gasLeft < 0 ==> r.gasUsed == gas)
            && (vm.gasLeft > gas ==> (r.gasUsed + vm.gasLeft) % U64 == gas)
  {
  }

  /** So the gas used and the gas left make up the limit; a VM that leaves nothing uses all of it. */
  lemma LimitConserved(keccak: Hash, chain: uint64, w: World, tx: Tx, from: Addr, vm: VmRun)
    requires tx.to.Some? && w.Code(tx.to.value) != [] && ExecuteTx(keccak, chain, w, tx, from, vm).1.Executed?
    ensures var r := ExecuteTx(keccak, chain, w, tx, from, vm).1.result;
            && (0 <= vm.gasLeft <= tx.gasLimit - Intrinsic(tx.data) ==> r.gasUsed + vm.gasLeft == tx.gasLimit)
            && (vm.gasLeft <= 0 ==> r.gasUsed == tx.gasLimit)
  {
    GasConserved(w, tx.to.value, tx.gasLimit - Intrinsic(tx.data), vm);
  }

  // The same about the bytes in the store.

  /** A revert changes one field of one hash, the sender's nonce, and not another byte of the store. */
  lemma RevertChangesOneField(
    keccak: Hash, chain: uint64, w: World, s: Store, tx: Tx, from: Addr, vm: VmRun, s': Store)
    requires var (w', out) := ExecuteTx(keccak, chain, w, tx, from, vm);
             && out.Executed? && !out.result.success
             && Represents(CodeFormat(), w, s) && Represents(CodeFormat(), w', s')
    ensures s' == HSetAccount(s, from, NonceField, Num(Succ64(tx.nonce)))
  {
    AllOrNothing(keccak, chain, w, tx, from, vm);
    NonceSet(w, s, from, Succ64(tx.nonce));
    WorldDeterminesStore(CodeFormat(), BumpNonce(w, from), s', HSetAccount(s, from, NonceField, Num(Succ64(tx.nonce))));
  }

  /** A creation sets one code key and that field, and not another byte. */
  lemma CreationSetsTwoEntries(
    keccak: Hash, chain: uint64, w: World, s: Store, tx: Tx, from: Addr, vm: VmRun, s': Store)
    requires tx.to.None? && Admitted(chain, w, tx, from)
    requires Represents(CodeFormat(), w, s)
    requires Represents(CodeFormat(), ExecuteTx(keccak, chain, w, tx, from, vm).0, s')
    ensures var key := KeyText(CodeKey(CreateAddressOf(keccak, from, tx.nonce)));
            s' == HSetAccount(Set(s, key, tx.data), from, NonceField, Num(Succ64(tx.nonce)))
  {
    var a := CreateAddressOf(keccak, from, tx.nonce);
    var s1, w1 := Set(s, KeyText(CodeKey(a)), tx.data), w.(code := w.code[a := tx.data]);
    CodeSet(w, s, a, tx.data);
    NonceSet(w1, s1, from, Succ64(tx.nonce));
    var s2 := HSetAccount(s1, from, NonceField, Num(Succ64(tx.nonce)));
    WorldDeterminesStore(CodeFormat(), BumpNonce(w1, from), s', s2);
  }

  // ---- Gas -------------------------------------------------------------------------------------------------

  /** With a VM that leaves between 0 and all its gas, a run uses at least the intrinsic gas and at most the limit. */
  lemma GasWithinLimit(keccak: Hash, chain: uint64, w: World, tx: Tx, from: Addr, vm: VmRun)
    requires 0 <= vm.gasLeft && vm.gasLeft + Intrinsic(tx.data) <= tx.gasLimit
    ensures var (_, out) := ExecuteTx(keccak, chain, w, tx, from, vm);
            out.Executed? ==> Intrinsic(tx.data) <= out.result.gasUsed <= tx.gasLimit
  {
  }

  /**
    The estimate is the least gas limit that passes the executor's check; for a creation, or a call of an account
    without code, it gets the transaction through and is what the transaction then uses.
   */
  lemma EstimateIsLeast(keccak: Hash, chain: uint64, w: World, tx: Tx, from: Addr, vm: VmRun, limit: uint64)
    requires (tx.chainId == 0 || tx.chainId == chain) && tx.nonce == w.Nonce(from)
    ensures var (_, out) := ExecuteTx(keccak, chain, w, tx.(gasLimit := limit), from, vm);
            && (Admitted(chain, w, tx.(gasLimit := limit), from) <==> limit >= Intrinsic(tx.data))
            && (out.Executed? ==> limit >= Intrinsic(tx.data))
            && (tx.to.None? || w.Code(tx.to.value) == [] ==>
                  && (out.Executed? <==> limit >= Intrinsic(tx.data))
                  && (out.Executed? ==> out.result.gasUsed == Intrinsic(tx.data)))
  {
  }

  // ---- The code --------------------------------------------------------------------------------------------

  /** `execute_contract`; nothing is committed when `commit` is off. */
  method ExecuteContract(state: RedisState, to: Addr, gas: uint64, commit: bool, vm: VmRun) returns (out: Outcome)
    requires state.Valid()
    modifies state
    ensures state.Valid() && out == ContractOutcome(old(state.world), to, gas, vm)
    ensures out.Executed? && old(state.world).Code(to) != [] ==>
              && (0 <= vm.gasLeft <= gas ==> out.result.gasUsed + vm.gasLeft == gas)
              && out.result.output == vm.output && (out.result.success <==> vm.status == 0)
    ensures commit ==> state.world
                       == old(state.world).(storage := old(state.world).storage + Committed(old(state.world), to, vm))
    ensures !commit || out.Failed? ==> state.world == old(state.world) && state.kv == old(state.kv)
  {
    var code := state.GetCode(to);
    assert state.world.storage + map[] == state.world.storage;
    if code == [] {
      return Executed(ExecResult(true, 0, []));
    }
    var ctx := new ExecContext(state);
    ctx.RunVm(vm.calls);
    if vm.status < 0 {
      return Failed;
    }
    out := Executed(ExecResult(vm.status == 0, GasSpent(gas, vm.gasLeft), vm.output));
    if vm.status == 0 && commit {
      var rc := ctx.Commit();
    }
  }

  /** `evmdb_evm_execute_tx` computes `ExecuteTx`; an executor that is not initialised fails. */
  method ExecuteTransaction(ready: bool, state: RedisState, keccak: Hash, chain: uint64, tx: Tx, from: Addr, vm: VmRun)
    returns (out: Outcome)
    requires state.Valid() && BASE_GAS + 16 * |tx.data| < U64
    modifies state
    ensures state.Valid()
    ensures !ready ==> out == Failed && state.world == old(state.world)
    ensures ready ==> (state.world, out) == ExecuteTx(keccak, chain, old(state.world), tx, from, vm)
    ensures out.Failed? ==> state.kv == old(state.kv)
  {
    if !ready {
      return Failed;
    }
    if tx.chainId != 0 && tx.chainId != chain {
      return Failed;
    }
    var current := state.GetNonce(from);
    if tx.nonce != current {
      return Failed;
    }
    var intrinsic := AddCalldata(BASE_GAS, tx.data);
    if intrinsic > tx.gasLimit {
      return Failed;
    }
    out := ExecuteAdmitted(state, keccak, chain, tx, from, intrinsic, vm);
  }

  /** The part of `evmdb_evm_execute_tx` behind its checks. */
  method ExecuteAdmitted(
    state: RedisState, keccak: Hash, chain: uint64, tx: Tx, from: Addr, intrinsic: nat, vm: VmRun)
    returns (out: Outcome)
    requires state.Valid() && Admitted(chain, state.world, tx, from) && intrinsic == Intrinsic(tx.data)
    modifies state
    ensures state.Valid()
    ensures (state.world, out) == ExecuteTx(keccak, chain, old(state.world), tx, from, vm)
    ensures out.Failed? ==> state.kv == old(state.kv)
  {
    match tx.to {
      case None =>
        var address := ComputeCreateAddress(keccak, from, tx.nonce);
        state.SetCode(address, tx.data);
        out := Executed(ExecResult(true, intrinsic, []));
      case Some(to) =>
        out := ExecuteContract(state, to, tx.gasLimit - intrinsic, true, vm);
        NothingCommitted(old(state.world), to, tx.gasLimit - intrinsic, vm);
        if out.Failed? {
          return;
        }
        out := Executed(out.result.(gasUsed := Cast64(out.result.gasUsed + intrinsic)));
    }
    state.SetNonce(from, Succ64(tx.nonce));
  }

  /** `evmdb_evm_call` (eth_call): whatever the VM asks of the host, the store is untouched. */
  method EvmCall(ready: bool, state: RedisState, to: Addr, gas: uint64, vm: VmRun) returns (out: Outcome)
    requires state.Valid()
    modifies state
    ensures state.Valid() && state.world == old(state.world) && state.kv == old(state.kv)
    ensures out == if ready then ContractOutcome(old(state.world), to, gas, vm) else Failed
    ensures out.Executed? && old(state.world).Code(to) != [] ==>
              && (0 <= vm.gasLeft <= gas ==> out.result.gasUsed + vm.gasLeft == gas)
              && out.result.output == vm.output && (out.result.success <==> vm.status == 0)
    ensures ready && old(state.world).Code(to) == [] ==> out == Executed(ExecResult(true, 0, []))
  {
    if !ready {
      return Failed;
    }
    out := ExecuteContract(state, to, gas, false, vm);
  }

  /** `handle_estimate_gas` on decoded calldata. */
  method EstimateGas(data: seq<byte>) returns (gas: nat)
    requires BASE_GAS + 16 * |data| < U64
    ensures gas == Intrinsic(data) == 21000 + 16 * |data| - 12 * multiset(data)[0]
  {
    gas := AddCalldata(BASE_GAS, data);
  }
}
