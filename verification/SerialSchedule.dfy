/**
  Two kinds of schedules of concurrent sends, built from the commands that the code issues: the sends one after the
  other, which give what serial execution gives, and two sends of one transaction that read before either writes.
 */
module SerialSchedules {
  import opened Bytes
  import opened Redis
  import opened Overlays
  import opened CreateAddress
  import opened Transactions
  import opened Executor
  import opened Admission
  import opened Schedule

  // ---- One thread on its own -------------------------------------------------------------------------------

  lemma {:induction false} ExecAppend(env: Env, m: Machine, es: seq<Event>, fs: seq<Event>)
    ensures Exec(env, m, es + fs) == Exec(env, Exec(env, m, es), fs)
    decreases |fs|
  {
    if fs == [] {
      assert es + fs == es;
    } else {
      var n := |fs| - 1;
      ExecAppend(env, m, es, fs[..n]);
      assert (es + fs)[..|es| + n] == es + fs[..n];
    }
  }

  function Events(tid: nat, cmds: seq<Command>): (es: seq<Event>)
    ensures |es| == |cmds| && forall i :: 0 <= i < |cmds| ==> es[i] == Event(tid, cmds[i])
  {
    seq(|cmds|, i requires 0 <= i < |cmds| => Event(tid, cmds[i]))
  }

  /** Consecutive commands of one thread. */
  function Run(env: Env, m: Machine, tid: nat, cmds: seq<Command>): Machine { Exec(env, m, Events(tid, cmds)) }

  lemma RunAppend(env: Env, m: Machine, tid: nat, cs: seq<Command>, ds: seq<Command>)
    ensures Run(env, m, tid, cs + ds) == Run(env, Run(env, m, tid, cs), tid, ds)
  {
    assert Events(tid, cs + ds) == Events(tid, cs) + Events(tid, ds);
    ExecAppend(env, m, Events(tid, cs), Events(tid, ds));
  }

  lemma RunOne(env: Env, m: Machine, tid: nat, c: Command)
    ensures Run(env, m, tid, [c]) == Next(env, m, Event(tid, c))
  {
    assert Events(tid, [c])[..0] == [];
    assert Exec(env, m, []) == m;
  }

  /** The machine with one thread and the store changed, and the history as it was. */
  function Moved(m: Machine, tid: nat, w: World, t: Thread): Machine { m.(world := w, threads := m.threads[tid := t]) }

  lemma MovedTwice(m: Machine, tid: nat, w: World, t: Thread, v: World, u: Thread)
    ensures Moved(Moved(m, tid, w, t), tid, v, u) == Moved(m, tid, v, u)
  {
  }

  /** A command that neither saves a counter nor publishes leaves the history alone. */
  predicate Silent(c: Command) { !c.Begin? && !c.WriteNonce? && !c.WriteBlock? && !c.WriteReceipt? }

  lemma RunSilent(env: Env, m: Machine, tid: nat, c: Command)
    requires tid in m.threads && Silent(c)
    ensures var t := m.threads[tid];
            Run(env, m, tid, [c])
            == Moved(m, tid, Effect(env, m.world, t, c), t.(phase := Advance(env, m.world, t, c)))
  {
    RunOne(env, m, tid, c);
  }

  /** The same as the next command of a stretch. */
  lemma RunSnoc(env: Env, m: Machine, tid: nat, cs: seq<Command>, w: World, t: Thread, c: Command)
    requires Run(env, m, tid, cs) == Moved(m, tid, w, t) && Silent(c)
    ensures Run(env, m, tid, cs + [c])
            == Moved(m, tid, Effect(env, w, t, c), t.(phase := Advance(env, w, t, c)))
  {
    RunAppend(env, m, tid, cs, [c]);
    RunSilent(env, Moved(m, tid, w, t), tid, c);
    MovedTwice(m, tid, w, t, Effect(env, w, t, c), t.(phase := Advance(env, w, t, c)));
  }

  function ApplyAll(w: World, ops: seq<StoreOp>): World
  {
    if ops == [] then w else Apply(ApplyAll(w, ops[..|ops| - 1]), ops[|ops| - 1])
  }

  function Stores(n: nat): (cs: seq<Command>)
    ensures |cs| == n && forall i :: 0 <= i < n ==> cs[i] == Store
  {
    seq(n, _ => Store)
  }

  const READS: seq<Command> := [ReadBlock, ReadNonce]

  lemma RunReads(env: Env, m: Machine, tid: nat)
    requires tid in m.threads && m.threads[tid].phase == Begun
    ensures var t, w := m.threads[tid], m.world;
            var p := if Admitted(env.chain, w, t.tx, t.from) then Running(w.Block(), w.Nonce(t.from)) else Finished;
            Run(env, m, tid, READS) == Moved(m, tid, w, t.(phase := p))
  {
    var t, w := m.threads[tid], m.world;
    assert READS == [ReadBlock] + [ReadNonce];
    RunSilent(env, m, tid, ReadBlock);
    RunSnoc(env, m, tid, [ReadBlock], w, t.(phase := HasBlock(w.Block())), ReadNonce);
  }

  /** The due writes, made one by one. */
  lemma {:induction false} RunStores(env: Env, m: Machine, tid: nat, b: uint64, n: uint64, ops: seq<StoreOp>, k: nat)
    requires tid in m.threads && m.threads[tid].phase == Writing(b, n, ops) && k <= |ops|
    ensures Run(env, m, tid, Stores(k))
            == Moved(m, tid, ApplyAll(m.world, ops[..k]), m.threads[tid].(phase := Writing(b, n, ops[k..])))
  {
    if k > 0 {
      RunStores(env, m, tid, b, n, ops, k - 1);
      assert Stores(k) == Stores(k - 1) + [Store];
      var t := m.threads[tid].(phase := Writing(b, n, ops[k - 1..]));
      RunSnoc(env, m, tid, Stores(k - 1), ApplyAll(m.world, ops[..k - 1]), t, Store);
      assert ops[..k][..k - 1] == ops[..k - 1];
      assert ops[k - 1..][1..] == ops[k..];
    } else {
      assert ops[..0] == [] && ops[0..] == ops;
      assert Events(tid, Stores(0)) == [];
    }
  }

  /** The last three commands of an accepted send that has read block number `b` and nonce `n`. */
  function Closing(r: ExecResult): seq<Command> { [WriteNonce, WriteBlock, WriteReceipt(r)] }

  function ClosedWorld(env: Env, w: World, t: Thread, b: uint64, n: uint64, r: ExecResult): World
  {
    w.(nonces := w.nonces[t.from := Succ64(n)], latest := Some(Succ64(b)),
       receipts := w.receipts[t.hash := env.render(Info(env, t.tx, t.from, t.hash, Succ64(b), r))])
  }

  function Closed(env: Env, m: Machine, tid: nat, b: uint64, n: uint64, r: ExecResult): Machine
    requires tid in m.threads
  {
    var t := m.threads[tid];
    Machine(
      ClosedWorld(env, m.world, t, b, n, r), m.threads[tid := t.(phase := Finished)],
      m.parents + [b], m.miners + [tid], m.published[tid := Succ64(b)], m.staleBlock || b != m.world.Block(),
      m.accepted[t.from := m.Accepted(t.from) + [t.tx.nonce]],
      if n != m.world.Nonce(t.from) then m.staleNonces + {t.from} else m.staleNonces)
  }

  lemma WriteNonceStep(env: Env, m: Machine, tid: nat, b: uint64, n: uint64)
    requires tid in m.threads && m.threads[tid].phase == Writing(b, n, [])
    ensures var t := m.threads[tid];
            Next(env, m, Event(tid, WriteNonce))
            == m.(world := m.world.(nonces := m.world.nonces[t.from := Succ64(n)]),
                  threads := m.threads[tid := t.(phase := NonceWritten(b))],
                  accepted := m.accepted[t.from := m.Accepted(t.from) + [t.tx.nonce]],
                  staleNonces :=
                    if n != m.world.Nonce(t.from) then m.staleNonces + {t.from} else m.staleNonces)
  {
  }

  lemma WriteBlockStep(env: Env, m: Machine, tid: nat, b: uint64)
    requires tid in m.threads && m.threads[tid].phase == NonceWritten(b)
    ensures Next(env, m, Event(tid, WriteBlock))
            == m.(world := m.world.(latest := Some(Succ64(b))),
                  threads := m.threads[tid := m.threads[tid].(phase := BlockWritten(Succ64(b)))],
                  parents := m.parents + [b], miners := m.miners + [tid],
                  staleBlock := m.staleBlock || b != m.world.Block())
  {
  }

  lemma WriteReceiptStep(env: Env, m: Machine, tid: nat, mined: uint64, r: ExecResult)
    requires tid in m.threads && m.threads[tid].phase == BlockWritten(mined)
    ensures var t := m.threads[tid];
            var receipt := env.render(Info(env, t.tx, t.from, t.hash, mined, r));
            Next(env, m, Event(tid, WriteReceipt(r)))
            == m.(world := m.world.(receipts := m.world.receipts[t.hash := receipt]),
                  threads := m.threads[tid := t.(phase := Finished)], published := m.published[tid := mined])
  {
  }

  lemma RunCloses(env: Env, m: Machine, tid: nat, b: uint64, n: uint64, r: ExecResult)
    requires tid in m.threads && m.threads[tid].phase == Writing(b, n, [])
    ensures Run(env, m, tid, Closing(r)) == Closed(env, m, tid, b, n, r)
  {
    var m1 := Next(env, m, Event(tid, WriteNonce));
    var m2 := Next(env, m1, Event(tid, WriteBlock));
    RunThree(env, m, tid, WriteNonce, WriteBlock, WriteReceipt(r));
    WriteNonceStep(env, m, tid, b, n);
    WriteBlockStep(env, m1, tid, b);
    WriteReceiptStep(env, m2, tid, Succ64(b), r);
  }

  lemma RunThree(env: Env, m: Machine, tid: nat, c1: Command, c2: Command, c3: Command)
    ensures Run(env, m, tid, [c1, c2, c3])
            == Next(env, Next(env, Next(env, m, Event(tid, c1)), Event(tid, c2)), Event(tid, c3))
  {
    assert [c1, c2, c3] == [c1] + [c2] + [c3];
    RunAppend(env, m, tid, [c1] + [c2], [c3]);
    RunAppend(env, m, tid, [c1], [c2]);
    RunOne(env, m, tid, c1);
    RunOne(env, Run(env, m, tid, [c1]), tid, c2);
    RunOne(env, Run(env, m, tid, [c1] + [c2]), tid, c3);
  }

  /** What an accepted send does once its VM has ended. */
  function Finishing(ops: seq<StoreOp>, r: ExecResult): seq<Command> { Stores(|ops|) + Closing(r) }

  lemma RunFinishes(env: Env, m: Machine, tid: nat, b: uint64, n: uint64, ops: seq<StoreOp>, r: ExecResult)
    requires tid in m.threads && m.threads[tid].phase == Writing(b, n, ops)
    ensures var t := m.threads[tid].(phase := Writing(b, n, []));
            Run(env, m, tid, Finishing(ops, r))
            == Closed(env, Moved(m, tid, ApplyAll(m.world, ops), t), tid, b, n, r)
  {
    var t := m.threads[tid].(phase := Writing(b, n, []));
    RunAppend(env, m, tid, Stores(|ops|), Closing(r));
    RunStores(env, m, tid, b, n, ops, |ops|);
    assert ops[..|ops|] == ops && ops[|ops|..] == [];
    RunCloses(env, Moved(m, tid, ApplyAll(m.world, ops), t), tid, b, n, r);
  }

  lemma {:induction false} ApplyKeepsCounters(w: World, ops: seq<StoreOp>)
    ensures var v := ApplyAll(w, ops); v.nonces == w.nonces && v.latest == w.latest && v.receipts == w.receipts
  {
    if ops != [] {
      ApplyKeepsCounters(w, ops[..|ops| - 1]);
    }
  }

  // ---- The commands of a send ------------------------------------------------------------------------------

  /** The writes of a committed log. */
  function SlotOps(log: seq<Write>): (ops: seq<StoreOp>)
    ensures |ops| == |log| && forall i :: 0 <= i < |log| ==> ops[i] == PutSlot(log[i].slot, log[i].value)
  {
    seq(|log|, i requires 0 <= i < |log| => PutSlot(log[i].slot, log[i].value))
  }

  lemma {:induction false} ApplySlots(w: World, log: seq<Write>)
    ensures ApplyAll(w, SlotOps(log)) == w.(storage := w.storage + LogMap(log))
  {
    if log == [] {
      assert w.storage + map[] == w.storage;
    } else {
      var n := |log| - 1;
      ApplySlots(w, log[..n]);
      assert SlotOps(log)[..n] == SlotOps(log[..n]);
      MergeUpdate(w.storage, LogMap(log[..n]), log[n].slot, log[n].value);
    }
  }

  /** The writes that executing a transaction makes before the nonce: its code, or its log of committed slots. */
  function DueOps(env: Env, w: World, tx: Tx, from: Addr, log: seq<Write>): seq<StoreOp>
  {
    if tx.to.None? then [PutCode(CreateAddressOf(env.keccak, from, w.Nonce(from)), tx.data)] else SlotOps(log)
  }

  /** The log is one that the request commits: no slot twice, and the slots its VM run leaves in the overlay. */
  predicate LogMatches(w: World, sub: Submission, log: seq<Write>)
  {
    sub.tx.Some? && sub.tx.value.to.Some? ==>
      Unique(log) && LogMap(log) == Committed(w, sub.tx.value.to.value, sub.vm)
  }

  /** Every request has such a log. */
  lemma LogExists(w: World, sub: Submission) returns (log: seq<Write>)
    ensures LogMatches(w, sub, log)
  {
    log := [];
    if sub.tx.Some? && sub.tx.value.to.Some? {
      log := MapHasLog(Committed(w, sub.tx.value.to.value, sub.vm));
    }
  }

  function OutcomeOf(env: Env, w: World, sub: Submission): Outcome
    requires sub.tx.Some?
  {
    ExecuteTx(env.keccak, env.chain, w, sub.tx.value, sub.from, sub.vm).1
  }

  /** The commands of one send, from a state in which it finds `w`. */
  function SendCommands(env: Env, w: World, sub: Submission, log: seq<Write>): seq<Command>
    requires sub.tx.Some?
  {
    var tx, out := sub.tx.value, OutcomeOf(env, w, sub);
    if !Admitted(env.chain, w, tx, sub.from) then READS
    else if out.Failed? then READS + [Fail]
    else
      var ops := DueOps(env, w, tx, sub.from, log);
      READS + [Decide(ops)] + Finishing(ops, out.result)
  }

  /** Execution up to the nonce is the due writes applied to the store. */
  lemma DueOpsExecute(env: Env, w: World, sub: Submission, log: seq<Write>)
    requires sub.tx.Some? && LogMatches(w, sub, log) && OutcomeOf(env, w, sub).Executed?
    ensures var ops := DueOps(env, w, sub.tx.value, sub.from, log);
            BumpNonce(ApplyAll(w, ops), sub.from)
            == ExecuteTx(env.keccak, env.chain, w, sub.tx.value, sub.from, sub.vm).0
  {
    if sub.tx.value.to.None? {
      var ops := DueOps(env, w, sub.tx.value, sub.from, log);
      assert ops[..0] == [];
      assert ApplyAll(w, []) == w;
    } else {
      ApplySlots(w, log);
    }
  }

  /** The store after an undisturbed accepted send is the one of the serial specification. */
  lemma ClosedIsSend(env: Env, w: World, sub: Submission, log: seq<Write>, t: Thread)
    requires sub.tx.Some? && LogMatches(w, sub, log) && OutcomeOf(env, w, sub).Executed?
    requires t.tx == sub.tx.value && t.from == sub.from && t.hash == sub.hash
    ensures var ops := DueOps(env, w, t.tx, t.from, log);
            ClosedWorld(env, ApplyAll(w, ops), t, w.Block(), w.Nonce(t.from), OutcomeOf(env, w, sub).result)
            == Send(env, w, sub).0
  {
    DueOpsExecute(env, w, sub, log);
    ApplyKeepsCounters(w, DueOps(env, w, t.tx, t.from, log));
  }

  function NewThread(sub: Submission): Thread
    requires sub.tx.Some?
  {
    Thread(sub.tx.value, sub.from, sub.hash, Begun)
  }

  function Opening(sub: Submission): Command
    requires sub.tx.Some?
  {
    Begin(sub.tx.value, sub.from, sub.hash)
  }

  /** A request that could not be decoded issues no command. */
  function SendEvents(env: Env, w: World, sub: Submission, tid: nat, log: seq<Write>): seq<Event>
  {
    if sub.tx.None? then [] else Events(tid, [Opening(sub)] + SendCommands(env, w, sub, log))
  }

  lemma RunBegins(env: Env, m: Machine, tid: nat, sub: Submission)
    requires sub.tx.Some? && tid !in m.threads
    ensures Run(env, m, tid, [Opening(sub)]) == Moved(m, tid, m.world, NewThread(sub))
  {
    RunOne(env, m, tid, Opening(sub));
  }

  predicate ThreadsBelow(m: Machine, n: nat) { forall k :: k in m.threads ==> k < n }

  /** From a thread that has begun to its due writes. */
  lemma RunDecides(env: Env, m: Machine, tid: nat, t: Thread, ops: seq<StoreOp>)
    requires tid in m.threads && m.threads[tid] == t && t.phase == Begun
    requires Admitted(env.chain, m.world, t.tx, t.from)
    ensures Run(env, m, tid, READS + [Decide(ops)])
            == Moved(m, tid, m.world, t.(phase := Writing(m.world.Block(), m.world.Nonce(t.from), ops)))
  {
    RunReads(env, m, tid);
    RunSnoc(env, m, tid, READS, m.world, t.(phase := Running(m.world.Block(), m.world.Nonce(t.from))), Decide(ops));
  }

  /** And to its end. */
  lemma RunFromReads(env: Env, m: Machine, tid: nat, t: Thread, ops: seq<StoreOp>, r: ExecResult)
    requires tid in m.threads && m.threads[tid] == t && t.phase == Begun
    requires Admitted(env.chain, m.world, t.tx, t.from)
    ensures var w := m.world;
            var b, n := w.Block(), w.Nonce(t.from);
            Run(env, m, tid, READS + [Decide(ops)] + Finishing(ops, r))
            == Closed(env, Moved(m, tid, ApplyAll(w, ops), t.(phase := Writing(b, n, []))), tid, b, n, r)
  {
    var w := m.world;
    var b, n := w.Block(), w.Nonce(t.from);
    RunDecides(env, m, tid, t, ops);
    RunAppend(env, m, tid, READS + [Decide(ops)], Finishing(ops, r));
    RunFinishesMoved(env, m, tid, w, t, b, n, ops, r);
  }

  lemma RunFinishesMoved(
    env: Env, m: Machine, tid: nat, w: World, t: Thread, b: uint64, n: uint64, ops: seq<StoreOp>, r: ExecResult)
    ensures Run(env, Moved(m, tid, w, t.(phase := Writing(b, n, ops))), tid, Finishing(ops, r))
            == Closed(env, Moved(m, tid, ApplyAll(w, ops), t.(phase := Writing(b, n, []))), tid, b, n, r)
  {
    RunFinishes(env, Moved(m, tid, w, t.(phase := Writing(b, n, ops))), tid, b, n, ops, r);
    MovedTwice(m, tid, w, t.(phase := Writing(b, n, ops)), ApplyAll(w, ops), t.(phase := Writing(b, n, [])));
  }

  /** What a finished send that was not overtaken has left. */
  lemma ClosedFresh(env: Env, m: Machine, tid: nat, t: Thread, w: World, b: uint64, n: uint64, r: ExecResult)
    requires w.Block() == b && w.Nonce(t.from) == n
    ensures var d := Closed(env, Moved(m, tid, w, t), tid, b, n, r);
            && d.world == ClosedWorld(env, w, t, b, n, r)
            && d.threads == m.threads[tid := t.(phase := Finished)]
            && d.parents == m.parents + [b] && d.staleBlock == m.staleBlock
            && d.accepted == m.accepted[t.from := m.Accepted(t.from) + [t.tx.nonce]] && d.staleNonces == m.staleNonces
  {
  }

  lemma RunAccepted(env: Env, m: Machine, sub: Submission, tid: nat, log: seq<Write>)
    requires sub.tx.Some? && tid in m.threads && m.threads[tid] == NewThread(sub)
    requires LogMatches(m.world, sub, log) && OutcomeOf(env, m.world, sub).Executed?
    ensures var d, w, tx := Run(env, m, tid, SendCommands(env, m.world, sub, log)), m.world, sub.tx.value;
            && d.world == Send(env, w, sub).0
            && d.threads == m.threads[tid := NewThread(sub).(phase := Finished)]
            && d.parents == m.parents + [w.Block()] && d.staleBlock == m.staleBlock
            && d.accepted == m.accepted[sub.from := m.Accepted(sub.from) + [tx.nonce]] && d.staleNonces == m.staleNonces
  {
    var w, t, r := m.world, NewThread(sub), OutcomeOf(env, m.world, sub).result;
    var ops := DueOps(env, w, t.tx, t.from, log);
    var b, n := w.Block(), w.Nonce(t.from);
    RunFromReads(env, m, tid, t, ops, r);
    ApplyKeepsCounters(w, ops);
    ClosedFresh(env, m, tid, t.(phase := Writing(b, n, [])), ApplyAll(w, ops), b, n, r);
    ClosedIsSend(env, w, sub, log, t.(phase := Writing(b, n, [])));
  }

  lemma RunRejected(env: Env, m: Machine, sub: Submission, tid: nat, log: seq<Write>)
    requires sub.tx.Some? && tid in m.threads && m.threads[tid] == NewThread(sub)
    requires OutcomeOf(env, m.world, sub).Failed?
    ensures Run(env, m, tid, SendCommands(env, m.world, sub, log))
            == Moved(m, tid, m.world, NewThread(sub).(phase := Finished))
  {
    RunReads(env, m, tid);
    if Admitted(env.chain, m.world, sub.tx.value, sub.from) {
      var w, t := m.world, NewThread(sub);
      RunSnoc(env, m, tid, READS, w, t.(phase := Running(w.Block(), w.Nonce(t.from))), Fail);
    }
  }

  /** A request scheduled without interference in a new thread: its effect, and no stale write. */
  lemma SendUndisturbed(env: Env, m: Machine, sub: Submission, n: nat, log: seq<Write>)
    requires ThreadsBelow(m, n) && LogMatches(m.world, sub, log)
    ensures var d := Exec(env, m, SendEvents(env, m.world, sub, n, log));
            var (w, reply) := Send(env, m.world, sub);
            && d.world == w && ThreadsBelow(d, n + 1)
            && d.staleBlock == m.staleBlock && d.staleNonces == m.staleNonces
            && d.parents == (if reply.Mined? then m.parents + [m.world.Block()] else m.parents)
            && d.accepted == (if reply.Mined? then
                                m.accepted[sub.from := m.Accepted(sub.from) + [sub.tx.value.nonce]]
                              else m.accepted)
  {
    if sub.tx.Some? {
      var cmds := SendCommands(env, m.world, sub, log);
      RunAppend(env, m, n, [Opening(sub)], cmds);
      RunBegins(env, m, n, sub);
      AllOrNothing(env.keccak, env.chain, m.world, sub.tx.value, sub.from, sub.vm);
      var begun := Moved(m, n, m.world, NewThread(sub));
      if OutcomeOf(env, m.world, sub).Executed? {
        RunAccepted(env, begun, sub, n, log);
      } else {
        RunRejected(env, begun, sub, n, log);
      }
    }
  }

  // ---- Serial runs -----------------------------------------------------------------------------------------

  /** The events of the requests `subs`, one after the other; request `i` is thread `i` and commits `logs[i]`. */
  function SerialSchedule(env: Env, w0: World, subs: seq<Submission>, logs: seq<seq<Write>>): seq<Event>
    requires |subs| == |logs|
  {
    if subs == [] then []
    else
      var n := |subs| - 1;
      var w := RunSends(env, w0, subs[..n]).0;
      SerialSchedule(env, w0, subs[..n], logs[..n]) + SendEvents(env, w, subs[n], n, logs[n])
  }

  /** Every log is one that its request commits. */
  ghost predicate LogsMatch(env: Env, w0: World, subs: seq<Submission>, logs: seq<seq<Write>>)
    requires |subs| == |logs|
  {
    forall i :: 0 <= i < |subs| ==> LogMatches(RunSends(env, w0, subs[..i]).0, subs[i], logs[i])
  }

  lemma LogsMatchFront(env: Env, w0: World, subs: seq<Submission>, logs: seq<seq<Write>>)
    requires |subs| == |logs| > 0 && LogsMatch(env, w0, subs, logs)
    ensures var n := |subs| - 1;
            LogsMatch(env, w0, subs[..n], logs[..n]) && LogMatches(RunSends(env, w0, subs[..n]).0, subs[n], logs[n])
  {
    var n := |subs| - 1;
    forall i | 0 <= i < n
      ensures LogMatches(RunSends(env, w0, subs[..n][..i]).0, subs[i], logs[i])
    {
      assert subs[..n][..i] == subs[..i];
      assert LogMatches(RunSends(env, w0, subs[..i]).0, subs[i], logs[i]);
    }
  }

  /** So every serial run has its schedule. */
  lemma {:induction false} LogsExist(env: Env, w0: World, subs: seq<Submission>) returns (logs: seq<seq<Write>>)
    ensures |logs| == |subs| && LogsMatch(env, w0, subs, logs)
  {
    logs := [];
    if subs != [] {
      var n := |subs| - 1;
      var front := LogsExist(env, w0, subs[..n]);
      var log := LogExists(RunSends(env, w0, subs[..n]).0, subs[n]);
      logs := front + [log];
      forall i | 0 <= i < |subs|
        ensures LogMatches(RunSends(env, w0, subs[..i]).0, subs[i], logs[i])
      {
        if i < n {
          assert subs[..n][..i] == subs[..i];
          assert LogMatches(RunSends(env, w0, subs[..n][..i]).0, subs[..n][i], front[i]);
        }
      }
    }
  }

  /** The nonces of an account's entries, in order. */
  function NoncesOf(acc: seq<Accepted>, a: Addr): seq<uint64>
  {
    if acc == [] then []
    else
      var n := |acc| - 1;
      NoncesOf(acc[..n], a) + (if acc[n].from == a then [acc[n].nonce] else [])
  }

  /** The machine has recorded exactly the acceptances of the serial run, and no stale write. */
  ghost predicate Records(m: Machine, acc: seq<Accepted>)
  {
    && m.staleNonces == {} && !m.staleBlock
    && |m.parents| == |acc| && (forall i :: 0 <= i < |acc| ==> acc[i].block == Succ64(m.parents[i]))
    && (forall a: Addr :: m.Accepted(a) == NoncesOf(acc, a))
  }

  lemma RecordOne(m: Machine, acc: seq<Accepted>, e: Accepted, d: Machine)
    requires Records(m, acc) && e.block == Succ64(m.world.Block())
    requires d.staleBlock == m.staleBlock && d.staleNonces == m.staleNonces
    requires d.parents == m.parents + [m.world.Block()]
    requires d.accepted == m.accepted[e.from := m.Accepted(e.from) + [e.nonce]]
    ensures Records(d, acc + [e])
  {
    assert (acc + [e])[..|acc|] == acc;
  }

  /**
    Serial runs are schedules: run one after the other, the commands of the sends give the serial result, accept
    exactly what the serial run accepts, and make no stale write.
   */
  lemma {:induction false} SerialRunsAreSchedules(env: Env, w0: World, subs: seq<Submission>, logs: seq<seq<Write>>)
    requires |subs| == |logs| && LogsMatch(env, w0, subs, logs)
    ensures var m := Exec(env, Initial(w0), SerialSchedule(env, w0, subs, logs));
            var (w, acc) := RunSends(env, w0, subs);
            m.world == w && ThreadsBelow(m, |subs|) && Records(m, acc)
  {
    if subs != [] {
      var n := |subs| - 1;
      LogsMatchFront(env, w0, subs, logs);
      SerialRunsAreSchedules(env, w0, subs[..n], logs[..n]);
      var (w, acc) := RunSends(env, w0, subs[..n]);
      var m := Exec(env, Initial(w0), SerialSchedule(env, w0, subs[..n], logs[..n]));
      ExecAppend(env, Initial(w0), SerialSchedule(env, w0, subs[..n], logs[..n]),
                 SendEvents(env, w, subs[n], n, logs[n]));
      SerialStep(env, m, subs[n], n, logs[n], acc);
    }
  }

  lemma SerialStep(env: Env, m: Machine, sub: Submission, n: nat, log: seq<Write>, acc: seq<Accepted>)
    requires ThreadsBelow(m, n) && LogMatches(m.world, sub, log) && Records(m, acc)
    ensures var d := Exec(env, m, SendEvents(env, m.world, sub, n, log));
            var (w, reply) := Send(env, m.world, sub);
            && d.world == w && ThreadsBelow(d, n + 1) && (reply.Mined? ==> sub.tx.Some?)
            && Records(d, if reply.Mined? then acc + [Accepted(sub.from, sub.tx.value.nonce, reply.block)] else acc)
  {
    SendUndisturbed(env, m, sub, n, log);
    SendStep(env, m.world, sub);
    var d, reply := Exec(env, m, SendEvents(env, m.world, sub, n, log)), Send(env, m.world, sub).1;
    if reply.Mined? {
      RecordOne(m, acc, Accepted(sub.from, sub.tx.value.nonce, reply.block), d);
    } else {
      assert forall a: Addr :: d.Accepted(a) == m.Accepted(a);
    }
  }

  // ---- A schedule that goes wrong --------------------------------------------------------------------------

  /**
    Two sends of one executable transaction: both read and run their VM before either writes, then one after the
    other makes all its writes.
   */
  function Race(env: Env, w: World, sub: Submission, log: seq<Write>): seq<Event>
    requires sub.tx.Some? && OutcomeOf(env, w, sub).Executed?
  {
    var ops := DueOps(env, w, sub.tx.value, sub.from, log);
    var opening := [Opening(sub)] + (READS + [Decide(ops)]);
    var finishing := Finishing(ops, OutcomeOf(env, w, sub).result);
    Events(0, opening) + Events(1, opening) + Events(0, finishing) + Events(1, finishing)
  }

  /** A new thread up to its first due write. */
  lemma RunOpens(env: Env, m: Machine, tid: nat, sub: Submission, ops: seq<StoreOp>)
    requires sub.tx.Some? && tid !in m.threads && Admitted(env.chain, m.world, sub.tx.value, sub.from)
    ensures var t := NewThread(sub).(phase := Writing(m.world.Block(), m.world.Nonce(sub.from), ops));
            Run(env, m, tid, [Opening(sub)] + (READS + [Decide(ops)])) == Moved(m, tid, m.world, t)
  {
    RunAppend(env, m, tid, [Opening(sub)], READS + [Decide(ops)]);
    RunBegins(env, m, tid, sub);
    var w, t := m.world, NewThread(sub);
    RunDecides(env, Moved(m, tid, w, t), tid, t, ops);
    MovedTwice(m, tid, w, t, w, t.(phase := Writing(w.Block(), w.Nonce(sub.from), ops)));
  }

  /** Making the due writes of a transaction twice is making them once. */
  lemma DueOpsTwice(env: Env, w: World, v: World, tx: Tx, from: Addr, log: seq<Write>)
    requires v.code == ApplyAll(w, DueOps(env, w, tx, from, log)).code
    requires v.storage == ApplyAll(w, DueOps(env, w, tx, from, log)).storage
    ensures ApplyAll(v, DueOps(env, w, tx, from, log)) == v
  {
    var ops := DueOps(env, w, tx, from, log);
    if tx.to.None? {
      assert ops[..0] == [];
      assert ApplyAll(w, []) == w && ApplyAll(v, []) == v;
      assert v.code[ops[0].a := ops[0].code] == v.code;
    } else {
      ApplySlots(w, log);
      ApplySlots(v, log);
      MergeTwice(w.storage, LogMap(log));
    }
  }

  lemma MergeTwice<K, V>(m: map<K, V>, n: map<K, V>)
    ensures m + n + n == m + n
  {
  }

  /** Both threads stand before their due writes. */
  function Opened(w: World, t: Thread): Machine { Moved(Moved(Initial(w), 0, w, t), 1, w, t) }

  lemma RaceOpens(env: Env, w: World, sub: Submission, ops: seq<StoreOp>)
    requires sub.tx.Some? && Admitted(env.chain, w, sub.tx.value, sub.from)
    ensures var opening := [Opening(sub)] + (READS + [Decide(ops)]);
            var t := NewThread(sub).(phase := Writing(w.Block(), w.Nonce(sub.from), ops));
            Run(env, Run(env, Initial(w), 0, opening), 1, opening) == Opened(w, t)
  {
    var t := NewThread(sub).(phase := Writing(w.Block(), w.Nonce(sub.from), ops));
    RunOpens(env, Initial(w), 0, sub, ops);
    RunOpens(env, Moved(Initial(w), 0, w, t), 1, sub, ops);
  }

  /** One of two threads that stand at the same due writes finishes after the other. */
  lemma OneAfterTheOther(env: Env, m: Machine, t: Thread, b: uint64, n: uint64, ops: seq<StoreOp>, r: ExecResult)
    requires 0 in m.threads && 1 in m.threads && m.threads[0] == m.threads[1] == t
    requires t.phase == Writing(b, n, ops) && b == m.world.Block() && n == m.world.Nonce(t.from)
    ensures var d := Run(env, Run(env, m, 0, Finishing(ops, r)), 1, Finishing(ops, r));
            var w1 := ClosedWorld(env, ApplyAll(m.world, ops), t, b, n, r);
            && d.world == ClosedWorld(env, ApplyAll(w1, ops), t, b, n, r)
            && d.threads == m.threads[0 := t.(phase := Finished)][1 := t.(phase := Finished)]
            && d.parents == m.parents + [b] + [b]
            && d.published == m.published[0 := Succ64(b)][1 := Succ64(b)]
            && d.Accepted(t.from) == m.Accepted(t.from) + [t.tx.nonce] + [t.tx.nonce]
            && d.staleBlock && t.from in d.staleNonces
  {
    RunFinishes(env, m, 0, b, n, ops, r);
    var m1 := Run(env, m, 0, Finishing(ops, r));
    ApplyKeepsCounters(m.world, ops);
    RunFinishes(env, m1, 1, b, n, ops, r);
    ApplyKeepsCounters(m1.world, ops);
  }

  lemma RaceFinishes(env: Env, w: World, t: Thread, b: uint64, n: uint64, ops: seq<StoreOp>, r: ExecResult)
    requires t.phase == Writing(b, n, ops) && b == w.Block() && n == w.Nonce(t.from)
    ensures var d := Run(env, Run(env, Opened(w, t), 0, Finishing(ops, r)), 1, Finishing(ops, r));
            var w1 := ClosedWorld(env, ApplyAll(w, ops), t, b, n, r);
            && d.world == ClosedWorld(env, ApplyAll(w1, ops), t, b, n, r)
            && d.threads == map[0 := t.(phase := Finished), 1 := t.(phase := Finished)]
            && d.parents == [b, b] && d.published == map[0 := Succ64(b), 1 := Succ64(b)]
            && d.Accepted(t.from) == [t.tx.nonce, t.tx.nonce] && d.staleBlock && t.from in d.staleNonces
  {
    OneAfterTheOther(env, Opened(w, t), t, b, n, ops, r);
  }

  lemma RaceRuns(env: Env, w: World, sub: Submission, log: seq<Write>, t: Thread, ops: seq<StoreOp>, r: ExecResult)
    requires sub.tx.Some? && OutcomeOf(env, w, sub) == Executed(r) && ops == DueOps(env, w, sub.tx.value, sub.from, log)
    requires t == NewThread(sub).(phase := Writing(w.Block(), w.Nonce(sub.from), ops))
    ensures Exec(env, Initial(w), Race(env, w, sub, log))
            == Run(env, Run(env, Opened(w, t), 0, Finishing(ops, r)), 1, Finishing(ops, r))
  {
    RaceAppend(env, Initial(w), [Opening(sub)] + (READS + [Decide(ops)]), Finishing(ops, r));
    RaceOpens(env, w, sub, ops);
  }

  /**
    Every transaction that executes can be accepted twice by two concurrent sends: both finish with a receipt for the
    same block, and the store is left as if there had been one send, nonce and block number one higher.
   */
  lemma RaceAcceptsTwice(env: Env, w: World, sub: Submission, log: seq<Write>)
    requires sub.tx.Some? && LogMatches(w, sub, log) && OutcomeOf(env, w, sub).Executed?
    ensures var m, b, nonce := Exec(env, Initial(w), Race(env, w, sub, log)), w.Block(), sub.tx.value.nonce;
            && m.threads == map[0 := NewThread(sub).(phase := Finished), 1 := NewThread(sub).(phase := Finished)]
            && m.Accepted(sub.from) == [nonce, nonce] && sub.from in m.staleNonces
            && m.parents == [b, b] && m.staleBlock && m.published == map[0 := Succ64(b), 1 := Succ64(b)]
            && m.world == Send(env, w, sub).0
            && m.world.Nonce(sub.from) == Succ64(w.Nonce(sub.from)) && m.world.Block() == Succ64(b)
  {
    var r := OutcomeOf(env, w, sub).result;
    var ops := DueOps(env, w, sub.tx.value, sub.from, log);
    var t := NewThread(sub).(phase := Writing(w.Block(), w.Nonce(sub.from), ops));
    RaceRuns(env, w, sub, log, t, ops, r);
    RaceFinishes(env, w, t, w.Block(), w.Nonce(sub.from), ops, r);
    RaceWorld(env, w, sub, log, t);
    SendStep(env, w, sub);
  }

  lemma RaceAppend(env: Env, m: Machine, opening: seq<Command>, finishing: seq<Command>)
    ensures Exec(env, m, Events(0, opening) + Events(1, opening) + Events(0, finishing) + Events(1, finishing))
            == Run(env, Run(env, Run(env, Run(env, m, 0, opening), 1, opening), 0, finishing), 1, finishing)
  {
    var a, b, c := Events(0, opening), Events(1, opening), Events(0, finishing);
    ExecAppend(env, m, a, b);
    ExecAppend(env, m, a + b, c);
    ExecAppend(env, m, a + b + c, Events(1, finishing));
  }

  /** The store after both sends is the store after one. */
  lemma RaceWorld(env: Env, w: World, sub: Submission, log: seq<Write>, t: Thread)
    requires sub.tx.Some? && LogMatches(w, sub, log) && OutcomeOf(env, w, sub).Executed?
    requires t.tx == sub.tx.value && t.from == sub.from && t.hash == sub.hash
    ensures var ops, r := DueOps(env, w, t.tx, t.from, log), OutcomeOf(env, w, sub).result;
            var b, n := w.Block(), w.Nonce(t.from);
            ClosedWorld(env, ApplyAll(ClosedWorld(env, ApplyAll(w, ops), t, b, n, r), ops), t, b, n, r)
            == Send(env, w, sub).0
  {
    var ops, r := DueOps(env, w, t.tx, t.from, log), OutcomeOf(env, w, sub).result;
    var b, n := w.Block(), w.Nonce(t.from);
    ClosedIsSend(env, w, sub, log, t);
    var v := ClosedWorld(env, ApplyAll(w, ops), t, b, n, r);
    DueOpsTwice(env, w, v, t.tx, t.from, log);
    ClosedTwice(env, ApplyAll(w, ops), t, b, n, r);
  }

  lemma ClosedTwice(env: Env, w: World, t: Thread, b: uint64, n: uint64, r: ExecResult)
    ensures var v := ClosedWorld(env, w, t, b, n, r); ClosedWorld(env, v, t, b, n, r) == v
  {
  }
}
