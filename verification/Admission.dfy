/**
  `eth_sendRawTransaction` of `src/rpc/handlers.c`, one request at a time: decode, recover, execute, number the
  block, store the receipt. Every accepted transaction is its own block.
 */
module Admission {
  import opened Bytes
  import opened Rlp
  import opened Gas
  import opened Redis
  import opened CreateAddress
  import opened Transactions
  import opened Executor

  /** What a receipt reports; its JSON text is left to `render`. */
  datatype ReceiptInfo = ReceiptInfo(
    hash: Word, block: uint64, from: Addr, to: Option<Addr>, contract: Option<Addr>, result: ExecResult, kind: Kind)

  datatype Env = Env(keccak: Hash, chain: uint64, render: ReceiptInfo -> seq<byte>)

  /** A request: the decoded transaction (none if decoding or recovery failed), its sender and hash, and the VM run. */
  datatype Submission = Submission(tx: Option<Tx>, from: Addr, hash: Word, vm: VmRun)

  // ---- From the wire ---------------------------------------------------------------------------------------

  /** secp256k1 recovery followed by the address hash: from the signed hash, `r`, `s` and the recovery id. */
  type Recovery = (Word, Word, Word, nat) -> Option<Addr>

  /** `evmdb_tx_recover_sender` */
  function SenderOf(keccak: Hash, recover: Recovery, tx: Tx): Option<Addr>
  {
    if tx.kind == Eip2930 || RecoveryId(tx).None? then None
    else recover(keccak(Preimage(tx)), tx.r, tx.s, RecoveryId(tx).value)
  }

  /** The request that a raw transaction becomes. */
  function FromWire(keccak: Hash, recover: Recovery, raw: seq<byte>, vm: VmRun): Submission
  {
    match DecodeTx(raw)
    case Ok(tx) =>
      (match SenderOf(keccak, recover, tx)
       case Some(a) => Submission(Some(tx), a, keccak(raw), vm)
       case None => Submission(None, ZERO_ADDR, keccak(raw), vm))
    case _ => Submission(None, ZERO_ADDR, keccak(raw), vm)
  }

  lemma NormalKeepsSender(keccak: Hash, recover: Recovery, tx: Tx)
    requires tx.kind != Eip2930 && (tx.kind == Legacy ==> tx.chainId == ChainOf(tx.v))
    ensures SenderOf(keccak, recover, Normal(tx)) == SenderOf(keccak, recover, tx)
  {
    NormalKeepsSigned(tx);
    FieldsAreSigned(Normal(tx), tx);
  }

  /** A signed transaction arrives with all its fields, and its sender is recovered from the very bytes signed. */
  lemma SignedTxArrives(keccak: Hash, recover: Recovery, tx: Tx, vm: VmRun)
    requires tx.kind != Eip2930 && (tx.kind == Legacy ==> tx.chainId == ChainOf(tx.v))
    requires |SignedEncoding(tx)| < U64 && |tx.data| < U64
    ensures var sub := FromWire(keccak, recover, SignedEncoding(tx), vm);
            match SenderOf(keccak, recover, tx)
            case Some(a) => sub.tx == Some(Normal(tx)) && sub.from == a
            case None => sub.tx == None
  {
    DecodeUndoesEncode(tx);
    NormalKeepsSender(keccak, recover, tx);
  }

  // Who the sender is, case by case.

  /** What comes of recovering a sender from a request that carries `tx`. */
  predicate Arrives(sub: Submission, tx: Tx, sender: Option<Addr>)
  {
    match sender
    case Some(a) => sub.tx == Some(tx) && sub.from == a
    case None => sub.tx == None
  }

  lemma SamePreimage(tx: Tx)
    requires tx.kind != Eip2930 && (tx.kind == Legacy ==> tx.chainId == ChainOf(tx.v))
    ensures Preimage(Normal(tx)) == Preimage(tx)
  {
    NormalKeepsSigned(tx);
    FieldsAreSigned(Normal(tx), tx);
  }

  /** A decoded transaction with a recovery id has the sender recovered with it. */
  lemma RecoveredFrom(keccak: Hash, recover: Recovery, raw: seq<byte>, back: Tx, p: nat, vm: VmRun)
    requires DecodeTx(raw) == Ok(back) && back.kind != Eip2930 && RecoveryId(back) == Some(p)
    ensures var sub := FromWire(keccak, recover, raw, vm);
            && sub.hash == keccak(raw) && sub.vm == vm
            && Arrives(sub, back, recover(keccak(Preimage(back)), back.r, back.s, p))
  {
  }

  lemma NotRecovered(keccak: Hash, recover: Recovery, raw: seq<byte>, back: Tx, vm: VmRun)
    requires DecodeTx(raw) == Ok(back) && RecoveryId(back) == None
    ensures FromWire(keccak, recover, raw, vm) == Submission(None, ZERO_ADDR, keccak(raw), vm)
  {
  }

  /** EIP-1559: the recovery id is `v` itself, 0 or 1; with any other `v` there is no sender. */
  lemma Eip1559Sender(keccak: Hash, recover: Recovery, tx: Tx, vm: VmRun)
    requires tx.kind == Eip1559 && |SignedEncoding(tx)| < U64 && |tx.data| < U64
    ensures var sub := FromWire(keccak, recover, SignedEncoding(tx), vm);
            && sub.hash == keccak(SignedEncoding(tx)) && sub.vm == vm
            && (tx.v > 1 ==> sub.tx == None)
            && (tx.v <= 1 ==>
                  Arrives(sub, tx.(gasPrice := ZERO_WORD), recover(keccak(Preimage(tx)), tx.r, tx.s, tx.v)))
  {
    DecodeUndoesEncode(tx);
    SamePreimage(tx);
    if tx.v <= 1 {
      RecoveredFrom(keccak, recover, SignedEncoding(tx), Normal(tx), tx.v, vm);
    } else {
      NotRecovered(keccak, recover, SignedEncoding(tx), Normal(tx), vm);
    }
  }

  lemma LegacySender(keccak: Hash, recover: Recovery, tx: Tx, p: nat, vm: VmRun)
    requires tx.kind == Legacy && tx.chainId == ChainOf(tx.v) && RecoveryId(Normal(tx)) == Some(p)
    requires |SignedEncoding(tx)| < U64 && |tx.data| < U64
    ensures var sub := FromWire(keccak, recover, SignedEncoding(tx), vm);
            && sub.hash == keccak(SignedEncoding(tx)) && sub.vm == vm
            && Arrives(sub, tx.(maxFee := ZERO_WORD, maxPriority := ZERO_WORD),
                       recover(keccak(Preimage(tx)), tx.r, tx.s, p))
  {
    DecodeUndoesEncode(tx);
    SamePreimage(tx);
    RecoveredFrom(keccak, recover, SignedEncoding(tx), Normal(tx), p, vm);
  }

  /** A legacy transaction without replay protection: `v` is 27 plus the recovery id. */
  lemma UnprotectedSender(keccak: Hash, recover: Recovery, tx: Tx, p: nat, vm: VmRun)
    requires tx.kind == Legacy && tx.chainId == 0 && p < 2 && tx.v == 27 + p
    requires |SignedEncoding(tx)| < U64 && |tx.data| < U64
    ensures var sub := FromWire(keccak, recover, SignedEncoding(tx), vm);
            && sub.hash == keccak(SignedEncoding(tx)) && sub.vm == vm
            && Arrives(sub, tx.(maxFee := ZERO_WORD, maxPriority := ZERO_WORD),
                       recover(keccak(Preimage(tx)), tx.r, tx.s, p))
  {
    UnprotectedNormal(tx, p);
    LegacySender(keccak, recover, tx, p, vm);
  }

  /** One with replay protection for chain `c`: `v` is 2c + 35 plus the recovery id. */
  lemma ProtectedSender(keccak: Hash, recover: Recovery, tx: Tx, c: uint64, p: nat, vm: VmRun)
    requires tx.kind == Legacy && tx.chainId == c && p < 2 && tx.v == 2 * c + 35 + p
    requires |SignedEncoding(tx)| < U64 && |tx.data| < U64
    ensures var sub := FromWire(keccak, recover, SignedEncoding(tx), vm);
            && sub.hash == keccak(SignedEncoding(tx)) && sub.vm == vm
            && Arrives(sub, tx.(maxFee := ZERO_WORD, maxPriority := ZERO_WORD),
                       recover(keccak(Preimage(tx)), tx.r, tx.s, p))
  {
    ReplayNormal(tx, c, p);
    LegacySender(keccak, recover, tx, p, vm);
  }

  /** With any other `v` a legacy transaction has no sender. */
  lemma NoLegacySender(keccak: Hash, recover: Recovery, tx: Tx, vm: VmRun)
    requires tx.kind == Legacy && tx.v < 35 && tx.v != 27 && tx.v != 28
    requires |SignedEncoding(tx)| < U64 && |tx.data| < U64
    ensures FromWire(keccak, recover, SignedEncoding(tx), vm).tx == None
  {
    DecodeUndoesEncode(tx);
    NotRecovered(keccak, recover, SignedEncoding(tx), Normal(tx), vm);
  }

  /** EIP-2930 envelopes are recognised by their first byte and have no sender. */
  lemma AccessListTxHasNoSender(keccak: Hash, recover: Recovery, raw: seq<byte>, vm: VmRun)
    requires raw != [] && raw[0] == 0x01
    ensures FromWire(keccak, recover, raw, vm).tx == None
  {
  }

  // ---- One request -----------------------------------------------------------------------------------------

  datatype SendReply = Rejected | Mined(block: uint64, result: ExecResult)

  /** What the handler puts into the receipt of a transaction mined as `block`. */
  function Info(env: Env, tx: Tx, from: Addr, hash: Word, block: uint64, r: ExecResult): ReceiptInfo
  {
    ReceiptInfo(hash, block, from, tx.to,
                if tx.to.None? then Some(CreateAddressOf(env.keccak, from, tx.nonce)) else None, r, tx.kind)
  }

  function Send(env: Env, w: World, sub: Submission): (World, SendReply)
  {
    if sub.tx.None? then (w, Rejected)
    else
      var tx := sub.tx.value;
      var (w1, out) := ExecuteTx(env.keccak, env.chain, w, tx, sub.from, sub.vm);
      match out
      case Failed => (w1, Rejected)
      case Executed(r) =>
        var block := Succ64(w.Block());
        var receipt := env.render(Info(env, tx, sub.from, sub.hash, block, r));
        (w1.(latest := Some(block), receipts := w1.receipts[sub.hash := receipt]), Mined(block, r))
  }

  // ---- Serial runs -----------------------------------------------------------------------------------------

  datatype Accepted = Accepted(from: Addr, nonce: uint64, block: uint64)

  /** The state after a run of requests, and the transactions it accepted, in order. */
  function RunSends(env: Env, w: World, subs: seq<Submission>): (World, seq<Accepted>)
  {
    if subs == [] then (w, [])
    else
      var n := |subs| - 1;
      var (w1, acc) := RunSends(env, w, subs[..n]);
      var (w2, reply) := Send(env, w1, subs[n]);
      (w2, if reply.Mined? then acc + [Accepted(subs[n].from, subs[n].tx.value.nonce, reply.block)] else acc)
  }

  /** How many accepted transactions an account has. */
  function CountFrom(acc: seq<Accepted>, a: Addr): nat
  {
    if acc == [] then 0 else CountFrom(acc[..|acc| - 1], a) + (if acc[|acc| - 1].from == a then 1 else 0)
  }

  /**
    The bookkeeping of a run: an account's nonce has risen by its accepted transactions and the block number by all
    of them; each accepted nonce is the next one for its sender and each block the next block.
   */
  ghost predicate Booked(w0: World, w: World, acc: seq<Accepted>)
  {
    && w.Block() == w0.Block() + |acc|
    && (forall a: Addr :: w.Nonce(a) == w0.Nonce(a) + CountFrom(acc, a))
    && (forall i :: 0 <= i < |acc| ==> EntryBooked(w0, acc, i))
  }

  ghost predicate EntryBooked(w0: World, acc: seq<Accepted>, i: nat)
    requires i < |acc|
  {
    acc[i].block == w0.Block() + i + 1 && acc[i].nonce == w0.Nonce(acc[i].from) + CountFrom(acc[..i], acc[i].from)
  }

  /** One request: rejected and nothing changes, or accepted with the sender's next nonce in the next block. */
  lemma SendStep(env: Env, w: World, sub: Submission)
    ensures var (w', reply) := Send(env, w, sub);
            && (reply.Rejected? ==> w' == w)
            && (reply.Mined? ==>
                  && sub.tx.Some? && sub.tx.value.nonce == w.Nonce(sub.from)
                  && reply.block == Succ64(w.Block()) == w'.Block()
                  && w'.Nonce(sub.from) == Succ64(w.Nonce(sub.from))
                  && (forall a: Addr :: a != sub.from ==> w'.Nonce(a) == w.Nonce(a))
                  && w'.Receipt(sub.hash)
                     == env.render(Info(env, sub.tx.value, sub.from, sub.hash, reply.block, reply.result)))
  {
    if sub.tx.Some? {
      AllOrNothing(env.keccak, env.chain, w, sub.tx.value, sub.from, sub.vm);
    }
  }

  /** The transaction is for this chain, or for none. */
  predicate ForThisChain(env: Env, tx: Tx) { tx.chainId == 0 || tx.chainId == env.chain }

  /** A transaction for another chain is rejected and changes nothing. */
  lemma ForeignChainRejected(env: Env, w: World, sub: Submission)
    requires sub.tx.Some? && !ForThisChain(env, sub.tx.value)
    ensures Send(env, w, sub) == (w, Rejected)
  {
    ExecutedExactly(env.keccak, env.chain, w, sub.tx.value, sub.from, sub.vm);
    AllOrNothing(env.keccak, env.chain, w, sub.tx.value, sub.from, sub.vm);
  }

  /** A transaction signed for another chain and replayed here, byte for byte, is rejected. */
  lemma ReplayRejected(env: Env, recover: Recovery, w: World, tx: Tx, vm: VmRun)
    requires tx.kind != Eip2930 && !ForThisChain(env, tx) && (tx.kind == Legacy ==> tx.chainId == ChainOf(tx.v))
    requires |SignedEncoding(tx)| < U64 && |tx.data| < U64
    ensures Send(env, w, FromWire(env.keccak, recover, SignedEncoding(tx), vm)) == (w, Rejected)
  {
    SignedTxArrives(env.keccak, recover, tx, vm);
    var sub := FromWire(env.keccak, recover, SignedEncoding(tx), vm);
    if sub.tx.Some? {
      ForeignChainRejected(env, w, sub);
    }
  }

  /** What a mined transaction leaves: its receipt, field by field, and the number of its block. */
  lemma ReceiptStates(env: Env, w: World, sub: Submission)
    requires Send(env, w, sub).1.Mined?
    ensures var (w', reply) := Send(env, w, sub);
            var tx := sub.tx.value;
            var plain := tx.to.None? || w.Code(tx.to.value) == [];
            var contract := if tx.to.None? then Some(CreateAddressOf(env.keccak, sub.from, tx.nonce)) else None;
            && w'.receipts == w.receipts[sub.hash := env.render(ReceiptInfo(
                 sub.hash, Succ64(w.Block()), sub.from, tx.to, contract, reply.result, tx.kind))]
            && w'.latest == Some(Succ64(w.Block())) && reply.block == Succ64(w.Block())
            && (reply.result.success <==> plain || sub.vm.status == 0)
            && reply.result.output == (if plain then [] else sub.vm.output)
            && (plain ==> reply.result.gasUsed == Intrinsic(tx.data))
            && (!plain && 0 <= sub.vm.gasLeft <= tx.gasLimit - Intrinsic(tx.data) ==>
                  reply.result.gasUsed + sub.vm.gasLeft == tx.gasLimit)
  {
    var tx := sub.tx.value;
    ResultExactly(env.keccak, env.chain, w, tx, sub.from, sub.vm);
    if tx.to.Some? && w.Code(tx.to.value) != [] {
      LimitConserved(env.keccak, env.chain, w, tx, sub.from, sub.vm);
    }
    KeepsReceipts(env, w, sub);
  }

  lemma KeepsReceipts(env: Env, w: World, sub: Submission)
    requires sub.tx.Some?
    ensures ExecuteTx(env.keccak, env.chain, w, sub.tx.value, sub.from, sub.vm).0.receipts == w.receipts
  {
  }

  /** The contract address in a creation's receipt is where its code now is. */
  lemma ReceiptNamesContract(env: Env, w: World, sub: Submission)
    requires sub.tx.Some? && sub.tx.value.to.None? && Send(env, w, sub).1.Mined?
    ensures var (w', reply) := Send(env, w, sub);
            var info := Info(env, sub.tx.value, sub.from, sub.hash, reply.block, reply.result);
            && info.contract.Some? && w'.Code(info.contract.value) == sub.tx.value.data
            && reply.result.success && reply.result.gasUsed == Intrinsic(sub.tx.value.data)
  {
    CreationTouchesOnlyCode(env.keccak, env.chain, w, sub.tx.value, sub.from, sub.vm);
  }

  lemma BookOne(w0: World, w: World, acc: seq<Accepted>, e: Accepted, w': World)
    requires Booked(w0, w, acc)
    requires e.nonce == w.Nonce(e.from) && e.block == w.Block() + 1 == w'.Block()
    requires w'.Nonce(e.from) == w.Nonce(e.from) + 1
    requires forall a: Addr :: a != e.from ==> w'.Nonce(a) == w.Nonce(a)
    ensures Booked(w0, w', acc + [e])
  {
    var acc' := acc + [e];
    assert acc'[..|acc|] == acc;
    forall i | 0 <= i < |acc'|
      ensures EntryBooked(w0, acc', i)
    {
      if i < |acc| {
        assert EntryBooked(w0, acc, i);
        assert acc'[..i] == acc[..i];
      }
    }
  }

  /** Room for a run without 64-bit wrap-around. */
  ghost predicate Room(w: World, n: nat)
  {
    w.Block() + n < U64 && forall a: Addr :: w.Nonce(a) + n < U64
  }

  lemma {:induction false} CountBound(acc: seq<Accepted>, a: Addr)
    ensures CountFrom(acc, a) <= |acc|
  {
    if acc != [] {
      CountBound(acc[..|acc| - 1], a);
    }
  }

  /** Every serial run of requests is booked. */
  lemma {:induction false} SerialRun(env: Env, w0: World, subs: seq<Submission>)
    requires Room(w0, |subs|)
    ensures var (w, acc) := RunSends(env, w0, subs); |acc| <= |subs| && Booked(w0, w, acc)
  {
    if subs != [] {
      var n := |subs| - 1;
      SerialRun(env, w0, subs[..n]);
      var (w, acc) := RunSends(env, w0, subs[..n]);
      var (w', reply) := Send(env, w, subs[n]);
      SendStep(env, w, subs[n]);
      if reply.Mined? {
        CountBound(acc, subs[n].from);
        BookOne(w0, w, acc, Accepted(subs[n].from, subs[n].tx.value.nonce, reply.block), w');
      }
    }
  }

  lemma {:induction false} CountGrows(acc: seq<Accepted>, i: nat, j: nat)
    requires i < j <= |acc|
    ensures CountFrom(acc[..i], acc[i].from) < CountFrom(acc[..j], acc[i].from)
    decreases j
  {
    assert acc[..j][..j - 1] == acc[..j - 1];
    if j > i + 1 {
      CountGrows(acc, i, j - 1);
    }
  }

  /**
    Over every serial run, a sender's accepted nonces increase with the blocks, so no (sender, nonce) pair is ever
    accepted twice, and the block numbers of receipts increase strictly.
   */
  lemma NoReplay(env: Env, w0: World, subs: seq<Submission>, i: nat, j: nat)
    requires Room(w0, |subs|)
    requires i < j < |RunSends(env, w0, subs).1|
    ensures var acc := RunSends(env, w0, subs).1;
            acc[i].block < acc[j].block && (acc[i].from == acc[j].from ==> acc[i].nonce < acc[j].nonce)
  {
    SerialRun(env, w0, subs);
    var acc := RunSends(env, w0, subs).1;
    assert EntryBooked(w0, acc, i) && EntryBooked(w0, acc, j);
    CountGrows(acc, i, j);
  }

  /** Every accepted transaction was submitted at some point of the run, for this chain or for none, and mined there. */
  lemma {:induction false} AcceptedBelongsHere(env: Env, w0: World, subs: seq<Submission>, i: nat) returns (j: nat)
    requires i < |RunSends(env, w0, subs).1|
    ensures var e := RunSends(env, w0, subs).1[i];
            && j < |subs| && |RunSends(env, w0, subs[..j]).1| == i
            && subs[j].tx.Some? && ForThisChain(env, subs[j].tx.value)
            && e.from == subs[j].from && e.nonce == subs[j].tx.value.nonce
            && Send(env, RunSends(env, w0, subs[..j]).0, subs[j]).1.Mined?
    decreases |subs|
  {
    var n := |subs| - 1;
    var (w, acc) := RunSends(env, w0, subs[..n]);
    if i < |acc| {
      j := AcceptedBelongsHere(env, w0, subs[..n], i);
      assert subs[..n][..j] == subs[..j];
    } else {
      j := n;
      if !ForThisChain(env, subs[n].tx.value) {
        ForeignChainRejected(env, w, subs[n]);
        assert false;
      }
    }
  }

  /** From an empty database every account's accepted nonces are 0, 1, 2, ... and the blocks 1, 2, 3, ... */
  lemma FromEmptyDatabase(env: Env, subs: seq<Submission>, i: nat)
    requires |subs| < U64
    requires i < |RunSends(env, EMPTY_WORLD, subs).1|
    ensures var acc := RunSends(env, EMPTY_WORLD, subs).1;
            acc[i].block == i + 1 && acc[i].nonce == CountFrom(acc[..i], acc[i].from)
  {
    SerialRun(env, EMPTY_WORLD, subs);
    assert EntryBooked(EMPTY_WORLD, RunSends(env, EMPTY_WORLD, subs).1, i);
  }

  // ---- The code --------------------------------------------------------------------------------------------

  /** `handle_send_raw_transaction` after decoding and recovery. */
  method HandleSend(ready: bool, state: RedisState, env: Env, sub: Submission) returns (reply: SendReply)
    requires state.Valid() && (sub.tx.Some? ==> BASE_GAS + 16 * |sub.tx.value.data| < U64)
    modifies state
    ensures state.Valid()
    ensures !ready ==> reply == Rejected && state.world == old(state.world)
    ensures ready ==> (state.world, reply) == Send(env, old(state.world), sub)
    ensures reply.Rejected? ==> state.kv == old(state.kv)
  {
    if sub.tx.None? {
      return Rejected;
    }
    var tx := sub.tx.value;
    var number := state.GetBlockNumber();
    var out := ExecuteTransaction(ready, state, env.keccak, env.chain, tx, sub.from, sub.vm);
    if out.Failed? {
      return Rejected;
    }
    var mined := Succ64(number);
    state.SetBlockNumber(mined);
    state.SetReceipt(sub.hash, env.render(Info(env, tx, sub.from, sub.hash, mined, out.result)));
    reply := Mined(mined, out.result);
  }
}
