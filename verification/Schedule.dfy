/**
  Concurrent sends: the server runs one thread per connection (`src/rpc/server.c`), and the mutex of
  `src/state/redis_state.c` makes only a single Redis command atomic. A run is any interleaving of the commands of
  any number of sends; a command whose thread is not ready for it does nothing.

  History variables record, for the block number and for each nonce, the value every write was based on, and whether
  any write was stale, that is, based on a value that was no longer the stored one.
 */
module Schedule {
  import opened Bytes
  import opened Gas
  import opened Redis
  import opened Transactions
  import opened Executor
  import opened Admission
  import opened Cells

  /** A write that execution makes besides the nonce: contract code, or a committed slot. */
  datatype StoreOp = PutCode(a: Addr, code: seq<byte>) | PutSlot(slot: Slot, value: Word)

  /** Where a send is: `b` is the block number it has read, `n` the nonce, `todo` the writes still to be made. */
  datatype Phase =
    | Begun
    | HasBlock(b: uint64)
    | Running(b: uint64, n: uint64)
    | Writing(b: uint64, n: uint64, todo: seq<StoreOp>)
    | NonceWritten(b: uint64)
    | BlockWritten(mined: uint64)
    | Finished
  {
    /** Every command that has an effect on its thread moves it forward, except that due writes are made one by one. */
    function Rank(): nat
    {
      match this
      case Begun => 0
      case HasBlock(_) => 1
      case Running(_, _) => 2
      case Writing(_, _, _) => 3
      case NonceWritten(_) => 4
      case BlockWritten(_) => 5
      case Finished => 6
    }
  }

  datatype Thread = Thread(tx: Tx, from: Addr, hash: Word, phase: Phase)

  datatype Machine = Machine(
    world: World, threads: map<nat, Thread>,
    parents: seq<uint64>,             // for every block write, the number it was based on
    miners: seq<nat>,                 // and the thread that made it
    published: map<nat, uint64>,      // for every thread with a receipt, the block number in it
    staleBlock: bool,
    accepted: map<Addr, seq<uint64>>, // for every account, the nonces of its accepted transactions
    staleNonces: set<Addr>)
  {
    function Accepted(a: Addr): seq<uint64> { if a in accepted then accepted[a] else [] }
  }

  datatype Command =
    | Begin(tx: Tx, from: Addr, hash: Word) // a request arrives
    | ReadBlock                             // GET block:latest
    | ReadNonce                             // HGET account nonce, then the admission checks
    | Inspect                               // any other read by the running VM
    | Decide(ops: seq<StoreOp>)             // the VM has ended; these writes are due
    | Fail                                  // the VM has ended with an internal error
    | Store                                 // the next due write
    | WriteNonce                            // HSET account nonce
    | WriteBlock                            // SET block:latest
    | WriteReceipt(result: ExecResult)      // SET receipt

  datatype Event = Event(tid: nat, cmd: Command)

  function Apply(w: World, op: StoreOp): World
  {
    match op
    case PutCode(a, c) => w.(code := w.code[a := c])
    case PutSlot(s, v) => w.(storage := w.storage[s := v])
  }

  // The commands that load and save the two counters.

  predicate ReadsBlock(t: Thread, cmd: Command) { cmd.ReadBlock? && t.phase.Begun? }

  predicate WritesBlock(t: Thread, cmd: Command) { cmd.WriteBlock? && t.phase.NonceWritten? }

  predicate ReadsNonce(t: Thread, cmd: Command) { cmd.ReadNonce? && t.phase.HasBlock? }

  predicate WritesNonce(t: Thread, cmd: Command) { cmd.WriteNonce? && t.phase.Writing? && t.phase.todo == [] }

  predicate Publishes(t: Thread, cmd: Command) { cmd.WriteReceipt? && t.phase.BlockWritten? }

  /** Where a command takes its thread; a command out of turn leaves it where it is. */
  function Advance(env: Env, w: World, t: Thread, cmd: Command): Phase
  {
    match (cmd, t.phase)
    case (ReadBlock, Begun) => HasBlock(w.Block())
    case (ReadNonce, HasBlock(b)) =>
      if Admitted(env.chain, w, t.tx, t.from) then Running(b, w.Nonce(t.from)) else Finished
    case (Decide(ops), Running(b, n)) => Writing(b, n, ops)
    case (Fail, Running(_, _)) => Finished
    case (Store, Writing(b, n, todo)) => if todo == [] then t.phase else Writing(b, n, todo[1..])
    case (WriteNonce, Writing(b, n, todo)) => if todo == [] then NonceWritten(b) else t.phase
    case (WriteBlock, NonceWritten(b)) => BlockWritten(Succ64(b))
    case (WriteReceipt(_), BlockWritten(_)) => Finished
    case _ => t.phase
  }

  /** What a command does to the store. The receipt states the block number that its thread has written. */
  function Effect(env: Env, w: World, t: Thread, cmd: Command): World
  {
    match (cmd, t.phase)
    case (Store, Writing(_, _, todo)) => if todo == [] then w else Apply(w, todo[0])
    case (WriteNonce, Writing(_, n, todo)) => if todo == [] then w.(nonces := w.nonces[t.from := Succ64(n)]) else w
    case (WriteBlock, NonceWritten(b)) => w.(latest := Some(Succ64(b)))
    case (WriteReceipt(r), BlockWritten(mined)) =>
      w.(receipts := w.receipts[t.hash := env.render(Info(env, t.tx, t.from, t.hash, mined, r))])
    case _ => w
  }

  function Act(env: Env, m: Machine, tid: nat, cmd: Command): Machine
    requires tid in m.threads
  {
    var t := m.threads[tid];
    Machine(
      Effect(env, m.world, t, cmd),
      m.threads[tid := t.(phase := Advance(env, m.world, t, cmd))],
      if WritesBlock(t, cmd) then m.parents + [t.phase.b] else m.parents,
      if WritesBlock(t, cmd) then m.miners + [tid] else m.miners,
      if Publishes(t, cmd) then m.published[tid := t.phase.mined] else m.published,
      m.staleBlock || (WritesBlock(t, cmd) && t.phase.b != m.world.Block()),
      if WritesNonce(t, cmd) then m.accepted[t.from := m.Accepted(t.from) + [t.tx.nonce]] else m.accepted,
      if WritesNonce(t, cmd) && t.phase.n != m.world.Nonce(t.from) then m.staleNonces + {t.from} else m.staleNonces)
  }

  function Next(env: Env, m: Machine, e: Event): Machine
  {
    if e.cmd.Begin? then
      if e.tid in m.threads then m
      else m.(threads := m.threads[e.tid := Thread(e.cmd.tx, e.cmd.from, e.cmd.hash, Begun)])
    else if e.tid in m.threads then Act(env, m, e.tid, e.cmd)
    else m
  }

  function Exec(env: Env, m: Machine, es: seq<Event>): Machine
  {
    if es == [] then m else Next(env, Exec(env, m, es[..|es| - 1]), es[|es| - 1])
  }

  function Initial(w: World): Machine { Machine(w, map[], [], [], map[], false, map[], {}) }

  /** The machine before event `i` of a run. */
  function StateAt(env: Env, w0: World, es: seq<Event>, i: nat): Machine
    requires i <= |es|
  {
    Exec(env, Initial(w0), es[..i])
  }

  lemma StateStep(env: Env, w0: World, es: seq<Event>, i: nat)
    requires i < |es|
    ensures StateAt(env, w0, es, i + 1) == Next(env, StateAt(env, w0, es, i), es[i])
  {
    assert es[..i + 1][..i] == es[..i];
  }

  // ---- Threads only move forward ---------------------------------------------------------------------------

  predicate Forward(t: Thread, u: Thread)
  {
    u.tx == t.tx && u.from == t.from && u.hash == t.hash && t.phase.Rank() <= u.phase.Rank()
  }

  lemma AdvanceForward(env: Env, w: World, t: Thread, cmd: Command)
    ensures Forward(t, t.(phase := Advance(env, w, t, cmd)))
    ensures ReadsBlock(t, cmd) || ReadsNonce(t, cmd) ==> t.phase.Rank() < Advance(env, w, t, cmd).Rank()
  {
  }

  lemma NextForward(env: Env, m: Machine, e: Event, tid: nat)
    requires tid in m.threads
    ensures var d := Next(env, m, e); tid in d.threads && Forward(m.threads[tid], d.threads[tid])
  {
    if !e.cmd.Begin? && e.tid in m.threads {
      AdvanceForward(env, m.world, m.threads[e.tid], e.cmd);
    }
  }

  lemma {:induction false} StaysForward(env: Env, w0: World, es: seq<Event>, i: nat, j: nat, tid: nat)
    requires i <= j <= |es| && tid in StateAt(env, w0, es, i).threads
    ensures var m, d := StateAt(env, w0, es, i), StateAt(env, w0, es, j);
            tid in d.threads && Forward(m.threads[tid], d.threads[tid])
    decreases j
  {
    if i < j {
      StaysForward(env, w0, es, i, j - 1, tid);
      StateStep(env, w0, es, j - 1);
      NextForward(env, StateAt(env, w0, es, j - 1), es[j - 1], tid);
    }
  }

  /** A thread that has read a counter is past that read ever after. */
  lemma LeavesOnce(env: Env, w0: World, es: seq<Event>, i: nat, j: nat)
    requires i < j < |es| && es[i].tid == es[j].tid
    requires var m := StateAt(env, w0, es, i);
             var t := es[i].tid;
             t in m.threads && (ReadsBlock(m.threads[t], es[i].cmd) || ReadsNonce(m.threads[t], es[i].cmd))
    ensures var m, d, t := StateAt(env, w0, es, i), StateAt(env, w0, es, j), es[i].tid;
            t in d.threads && m.threads[t].phase.Rank() < d.threads[t].phase.Rank()
  {
    var m, t := StateAt(env, w0, es, i), es[i].tid;
    StateStep(env, w0, es, i);
    AdvanceForward(env, m.world, m.threads[t], es[i].cmd);
    StaysForward(env, w0, es, i + 1, j, t);
  }

  /** A send past its admission checks has passed them. */
  predicate Passed(env: Env, t: Thread)
  {
    2 <= t.phase.Rank() <= 5 ==> ForThisChain(env, t.tx) && Intrinsic(t.tx.data) <= t.tx.gasLimit
  }

  lemma AdvancePassed(env: Env, w: World, t: Thread, cmd: Command)
    requires Passed(env, t)
    ensures Passed(env, t.(phase := Advance(env, w, t, cmd)))
  {
  }

  predicate AllPassed(env: Env, m: Machine) { forall tid :: tid in m.threads ==> Passed(env, m.threads[tid]) }

  lemma PassedStep(env: Env, m: Machine, e: Event)
    requires AllPassed(env, m)
    ensures AllPassed(env, Next(env, m, e))
  {
    if !e.cmd.Begin? && e.tid in m.threads {
      AdvancePassed(env, m.world, m.threads[e.tid], e.cmd);
    }
  }

  lemma {:induction false} PassedAlways(env: Env, w0: World, es: seq<Event>)
    ensures AllPassed(env, Exec(env, Initial(w0), es))
  {
    if es != [] {
      PassedAlways(env, w0, es[..|es| - 1]);
      PassedStep(env, Exec(env, Initial(w0), es[..|es| - 1]), es[|es| - 1]);
    }
  }

  /**
    In every schedule, each nonce write, block write and receipt belongs to a transaction for this chain or for none
    that pays for its intrinsic gas.
   */
  lemma WritesBelongHere(env: Env, w0: World, es: seq<Event>, i: nat)
    requires i < |es| && es[i].tid in StateAt(env, w0, es, i).threads
    ensures var t, cmd := StateAt(env, w0, es, i).threads[es[i].tid], es[i].cmd;
            WritesNonce(t, cmd) || WritesBlock(t, cmd) || Publishes(t, cmd) ==>
              ForThisChain(env, t.tx) && Intrinsic(t.tx.data) <= t.tx.gasLimit
  {
    PassedAlways(env, w0, es[..i]);
  }

  // ---- The two counters as cells ---------------------------------------------------------------------------

  /** The block number a thread carries and will still write back. */
  function HeldBlock(t: Thread): Option<uint64>
  {
    match t.phase
    case HasBlock(b) => Some(b)
    case Running(b, _) => Some(b)
    case Writing(b, _, _) => Some(b)
    case NonceWritten(b) => Some(b)
    case _ => None
  }

  function HeldNonce(t: Thread): Option<uint64>
  {
    match t.phase
    case Running(_, n) => Some(n)
    case Writing(_, n, _) => Some(n)
    case _ => None
  }

  function BlockCell(m: Machine): Cell
  {
    Cell(m.world.Block(), m.parents, m.staleBlock,
         map tid | tid in m.threads && HeldBlock(m.threads[tid]).Some? :: HeldBlock(m.threads[tid]).value)
  }

  function NonceCell(m: Machine, a: Addr): Cell
  {
    Cell(m.world.Nonce(a), m.Accepted(a), a in m.staleNonces,
         map tid | tid in m.threads && m.threads[tid].from == a && HeldNonce(m.threads[tid]).Some?
           :: HeldNonce(m.threads[tid]).value)
  }

  function BlockMove(m: Machine, e: Event): Move
  {
    if e.tid !in m.threads then Pass
    else if ReadsBlock(m.threads[e.tid], e.cmd) then Loads(e.tid)
    else if WritesBlock(m.threads[e.tid], e.cmd) then Saves(e.tid)
    else Pass
  }

  function NonceMove(m: Machine, e: Event, a: Addr): Move
  {
    if e.tid !in m.threads || m.threads[e.tid].from != a then Pass
    else if ReadsNonce(m.threads[e.tid], e.cmd) then Loads(e.tid)
    else if WritesNonce(m.threads[e.tid], e.cmd) then Saves(e.tid)
    else Pass
  }

  // How a single command moves what its thread holds.

  lemma BlockMoves(env: Env, w: World, t: Thread, cmd: Command)
    ensures var h, h' := HeldBlock(t), HeldBlock(t.(phase := Advance(env, w, t, cmd)));
            && Effect(env, w, t, cmd).Block() == (if WritesBlock(t, cmd) then Succ64(t.phase.b) else w.Block())
            && (WritesBlock(t, cmd) ==> h == Some(t.phase.b) && h' == None)
            && (h' == None || h' == h || (h' == Some(w.Block()) && ReadsBlock(t, cmd)))
  {
  }

  lemma NonceMoves(env: Env, w: World, t: Thread, cmd: Command)
    ensures var h, h' := HeldNonce(t), HeldNonce(t.(phase := Advance(env, w, t, cmd)));
            && (forall a: Addr :: Effect(env, w, t, cmd).Nonce(a)
                                  == if WritesNonce(t, cmd) && a == t.from then Succ64(t.phase.n) else w.Nonce(a))
            && (WritesNonce(t, cmd) ==> h == Some(t.phase.n) && h' == None)
            && (h' == None || h' == h || (h' == Some(w.Nonce(t.from)) && ReadsNonce(t, cmd)))
  {
  }

  lemma BlockHeldUpdate(m: Machine, d: Machine, tid: nat, t: Thread)
    requires d.threads == m.threads[tid := t]
    ensures var h, k := BlockCell(m).held, BlockCell(d).held;
            && (HeldBlock(t).None? ==> Subset(k, h) && tid !in k)
            && (HeldBlock(t).Some? ==> Subset(k, h[tid := HeldBlock(t).value]))
            && (tid in m.threads && HeldBlock(t) == HeldBlock(m.threads[tid]) ==> Subset(k, h))
  {
  }

  lemma NonceHeldUpdate(m: Machine, d: Machine, tid: nat, t: Thread, a: Addr)
    requires d.threads == m.threads[tid := t]
    ensures var h, k := NonceCell(m, a).held, NonceCell(d, a).held;
            && (HeldNonce(t).None? || t.from != a ==> Subset(k, h) && tid !in k)
            && (HeldNonce(t).Some? ==> Subset(k, h[tid := HeldNonce(t).value]))
            && (tid in m.threads && t.from == m.threads[tid].from && HeldNonce(t) == HeldNonce(m.threads[tid])
                ==> Subset(k, h))
  {
  }

  /** Every command is a step of the block number's cell. */
  lemma BlockCellStep(env: Env, m: Machine, e: Event)
    ensures Step(BlockCell(m), BlockCell(Next(env, m, e)), BlockMove(m, e))
  {
    var d := Next(env, m, e);
    if e.cmd.Begin? {
      if e.tid !in m.threads {
        BlockHeldUpdate(m, d, e.tid, d.threads[e.tid]);
      }
    } else if e.tid in m.threads {
      BlockMoves(env, m.world, m.threads[e.tid], e.cmd);
      BlockHeldUpdate(m, d, e.tid, d.threads[e.tid]);
    }
  }

  /** A send that runs holds the nonce of its own transaction. */
  predicate HoldsOwnNonce(t: Thread) { HeldNonce(t).Some? ==> HeldNonce(t).value == t.tx.nonce }

  predicate OwnNonces(m: Machine) { forall tid :: tid in m.threads ==> HoldsOwnNonce(m.threads[tid]) }

  lemma OwnNoncesStep(env: Env, m: Machine, e: Event)
    requires OwnNonces(m)
    ensures OwnNonces(Next(env, m, e))
  {
    if !e.cmd.Begin? && e.tid in m.threads {
      AdvanceOwnNonce(env, m.world, m.threads[e.tid], e.cmd);
    }
  }

  lemma AdvanceOwnNonce(env: Env, w: World, t: Thread, cmd: Command)
    requires HoldsOwnNonce(t)
    ensures HoldsOwnNonce(t.(phase := Advance(env, w, t, cmd)))
  {
  }

  lemma {:induction false} OwnNoncesAlways(env: Env, w0: World, es: seq<Event>)
    ensures OwnNonces(Exec(env, Initial(w0), es))
  {
    if es != [] {
      OwnNoncesAlways(env, w0, es[..|es| - 1]);
      OwnNoncesStep(env, Exec(env, Initial(w0), es[..|es| - 1]), es[|es| - 1]);
    }
  }

  /** Every command is a step of every account's nonce cell. */
  lemma NonceCellStep(env: Env, m: Machine, e: Event, a: Addr)
    requires OwnNonces(m)
    ensures Step(NonceCell(m, a), NonceCell(Next(env, m, e), a), NonceMove(m, e, a))
  {
    var d := Next(env, m, e);
    if e.cmd.Begin? {
      if e.tid !in m.threads {
        NonceHeldUpdate(m, d, e.tid, d.threads[e.tid], a);
      }
    } else if e.tid in m.threads {
      NonceMoves(env, m.world, m.threads[e.tid], e.cmd);
      NonceHeldUpdate(m, d, e.tid, d.threads[e.tid], a);
    }
  }

  /** The loads and saves of the block number in a run, event by event. */
  function BlockHistory(env: Env, w0: World, es: seq<Event>): (mvs: seq<Move>)
    ensures |mvs| == |es| && forall i :: 0 <= i < |es| ==> mvs[i] == BlockMove(StateAt(env, w0, es, i), es[i])
  {
    seq(|es|, i requires 0 <= i < |es| => BlockMove(StateAt(env, w0, es, i), es[i]))
  }

  /** The loads and saves of an account's nonce in a run, event by event. */
  function NonceHistory(env: Env, w0: World, es: seq<Event>, a: Addr): (mvs: seq<Move>)
    ensures |mvs| == |es| && forall i :: 0 <= i < |es| ==> mvs[i] == NonceMove(StateAt(env, w0, es, i), es[i], a)
  {
    seq(|es|, i requires 0 <= i < |es| => NonceMove(StateAt(env, w0, es, i), es[i], a))
  }

  function BlockCells(env: Env, w0: World, es: seq<Event>): (cs: seq<Cell>)
    ensures |cs| == |es| + 1 && forall i :: 0 <= i <= |es| ==> cs[i] == BlockCell(StateAt(env, w0, es, i))
  {
    seq(|es| + 1, i requires 0 <= i <= |es| => BlockCell(StateAt(env, w0, es, i)))
  }

  function NonceCells(env: Env, w0: World, es: seq<Event>, a: Addr): (cs: seq<Cell>)
    ensures |cs| == |es| + 1 && forall i :: 0 <= i <= |es| ==> cs[i] == NonceCell(StateAt(env, w0, es, i), a)
  {
    seq(|es| + 1, i requires 0 <= i <= |es| => NonceCell(StateAt(env, w0, es, i), a))
  }

  /** Every run is a run of the block number's cell. */
  lemma BlockTrace(env: Env, w0: World, es: seq<Event>)
    ensures var cs, mvs := BlockCells(env, w0, es), BlockHistory(env, w0, es);
            && Trace(cs, mvs) && cs[0].x == w0.Block()
            && cs[|es|] == BlockCell(Exec(env, Initial(w0), es))
  {
    var cs, mvs := BlockCells(env, w0, es), BlockHistory(env, w0, es);
    assert es[..0] == [] && es[..|es|] == es;
    forall i | 0 <= i < |es|
      ensures StepAt(cs, mvs, i)
    {
      StateStep(env, w0, es, i);
      BlockCellStep(env, StateAt(env, w0, es, i), es[i]);
    }
  }

  lemma NonceTrace(env: Env, w0: World, es: seq<Event>, a: Addr)
    ensures var cs, mvs := NonceCells(env, w0, es, a), NonceHistory(env, w0, es, a);
            && Trace(cs, mvs) && cs[0].x == w0.Nonce(a)
            && cs[|es|] == NonceCell(Exec(env, Initial(w0), es), a)
  {
    var cs, mvs := NonceCells(env, w0, es, a), NonceHistory(env, w0, es, a);
    assert es[..0] == [] && es[..|es|] == es;
    forall i | 0 <= i < |es|
      ensures StepAt(cs, mvs, i)
    {
      StateStep(env, w0, es, i);
      OwnNoncesAlways(env, w0, es[..i]);
      NonceCellStep(env, StateAt(env, w0, es, i), es[i], a);
    }
  }

  lemma BlockLoadsOnce(env: Env, w0: World, es: seq<Event>)
    ensures LoadsOnce(BlockHistory(env, w0, es))
  {
    var mvs := BlockHistory(env, w0, es);
    forall i, j | 0 <= i < j < |mvs| && mvs[i].Loads? && mvs[j].Loads?
      ensures mvs[i].tid != mvs[j].tid
    {
      if mvs[i].tid == mvs[j].tid {
        LeavesOnce(env, w0, es, i, j);
        assert false;
      }
    }
  }

  lemma NonceLoadsOnce(env: Env, w0: World, es: seq<Event>, a: Addr)
    ensures LoadsOnce(NonceHistory(env, w0, es, a))
  {
    var mvs := NonceHistory(env, w0, es, a);
    forall i, j | 0 <= i < j < |mvs| && mvs[i].Loads? && mvs[j].Loads?
      ensures mvs[i].tid != mvs[j].tid
    {
      if mvs[i].tid == mvs[j].tid {
        LeavesOnce(env, w0, es, i, j);
        assert false;
      }
    }
  }

  // ---- What every schedule keeps ---------------------------------------------------------------------------

  /**
    Under every interleaving, a nonce never exceeds its start plus the nonce writes made for the account, and the
    block number never exceeds its start plus the block writes.
   */
  lemma NeverAhead(env: Env, w0: World, es: seq<Event>, a: Addr)
    ensures var m := Exec(env, Initial(w0), es);
            && m.world.Nonce(a) <= w0.Nonce(a) + |m.Accepted(a)|
            && m.world.Block() <= w0.Block() + |m.parents|
  {
    BlockTrace(env, w0, es);
    TraceInv(BlockCells(env, w0, es), BlockHistory(env, w0, es), |es|);
    NonceTrace(env, w0, es, a);
    TraceInv(NonceCells(env, w0, es, a), NonceHistory(env, w0, es, a), |es|);
  }

  /**
    Which schedules give an account what serial execution gives it. As long as the totals are 64-bit numbers, the
    stored nonce counts the accepted transactions, and no (sender, nonce) pair is accepted twice, exactly when no send
    of the account has its nonce written by another send between reading and writing it itself. One overtaken send is
    never made up for later, and sends of other accounts do not matter.
   */
  lemma NonceExactlyWhenFresh(env: Env, w0: World, es: seq<Event>, a: Addr)
    requires w0.Nonce(a) + |Exec(env, Initial(w0), es).Accepted(a)| < U64
    ensures var m, overtaken := Exec(env, Initial(w0), es), Overtaken(NonceHistory(env, w0, es, a));
            && (m.world.Nonce(a) == w0.Nonce(a) + |m.Accepted(a)| <==> !overtaken)
            && (HasDuplicate(m.Accepted(a)) <==> overtaken)
            && (a in m.staleNonces <==> overtaken)
            && (!overtaken ==> Consecutive(m.Accepted(a), w0.Nonce(a)))
  {
    NonceTrace(env, w0, es, a);
    NonceLoadsOnce(env, w0, es, a);
    CountsExactly(NonceCells(env, w0, es, a), NonceHistory(env, w0, es, a));
    StaleExactlyWhenOvertaken(NonceCells(env, w0, es, a), NonceHistory(env, w0, es, a));
  }

  /** The same for blocks; every send reads and writes the one block number, so any two of them can collide. */
  lemma BlockExactlyWhenFresh(env: Env, w0: World, es: seq<Event>)
    requires w0.Block() + |Exec(env, Initial(w0), es).parents| < U64
    ensures var m, overtaken := Exec(env, Initial(w0), es), Overtaken(BlockHistory(env, w0, es));
            && (m.world.Block() == w0.Block() + |m.parents| <==> !overtaken)
            && (HasDuplicate(m.parents) <==> overtaken)
            && (m.staleBlock <==> overtaken)
            && (!overtaken ==> Consecutive(m.parents, w0.Block()))
  {
    BlockTrace(env, w0, es);
    BlockLoadsOnce(env, w0, es);
    CountsExactly(BlockCells(env, w0, es), BlockHistory(env, w0, es));
    StaleExactlyWhenOvertaken(BlockCells(env, w0, es), BlockHistory(env, w0, es));
  }

  /** No two threads send for the same account. */
  predicate DistinctSenders(m: Machine)
  {
    forall t, u :: t in m.threads && u in m.threads && m.threads[t].from == m.threads[u].from ==> t == u
  }

  lemma MoverSends(env: Env, w0: World, es: seq<Event>, i: nat, a: Addr)
    requires i < |es| && NonceHistory(env, w0, es, a)[i] != Pass
    ensures var m := Exec(env, Initial(w0), es); es[i].tid in m.threads && m.threads[es[i].tid].from == a
    ensures NonceHistory(env, w0, es, a)[i].tid == es[i].tid
  {
    StaysForward(env, w0, es, i, |es|, es[i].tid);
    assert es[..|es|] == es;
  }

  /** Sends of different accounts may overlap in any way: every nonce is counted. */
  lemma DifferentAccountsOverlapFreely(env: Env, w0: World, es: seq<Event>, a: Addr)
    requires var m := Exec(env, Initial(w0), es); DistinctSenders(m) && w0.Nonce(a) + |m.Accepted(a)| < U64
    ensures var m := Exec(env, Initial(w0), es); m.world.Nonce(a) == w0.Nonce(a) + |m.Accepted(a)|
  {
    NonceExactlyWhenFresh(env, w0, es, a);
    var mvs := NonceHistory(env, w0, es, a);
    if Overtaken(mvs) {
      var i, j, k :| 0 <= i < j < k < |mvs| && OvertakenAt(mvs, i, j, k);
      MoverSends(env, w0, es, j, a);
      MoverSends(env, w0, es, k, a);
      assert false;
    }
  }

  // ---- Block numbers in receipts ---------------------------------------------------------------------------

  /** The receipt of block write `i` is out, or still to be written, with the number that was written. */
  predicate MinedAt(m: Machine, i: nat)
    requires i < |m.miners| == |m.parents|
  {
    var t, number := m.miners[i], Succ64(m.parents[i]);
    && t in m.threads
    && if t in m.published then m.published[t] == number && m.threads[t].phase.Finished?
       else m.threads[t].phase == BlockWritten(number)
  }

  predicate MinersDistinct(m: Machine) { forall i, j :: 0 <= i < j < |m.miners| ==> m.miners[i] != m.miners[j] }

  ghost predicate ReceiptInv(m: Machine)
  {
    && |m.miners| == |m.parents| && MinersDistinct(m)
    && (forall i :: 0 <= i < |m.miners| ==> MinedAt(m, i))
    && (forall t :: t in m.published ==> t in m.miners)
    && (forall t :: t in m.threads && m.threads[t].phase.BlockWritten? ==> t in m.miners)
  }

  lemma ReceiptInvStep(env: Env, m: Machine, e: Event)
    requires ReceiptInv(m)
    ensures ReceiptInv(Next(env, m, e))
  {
    var d := Next(env, m, e);
    if e.cmd.Begin? {
      forall i | 0 <= i < |d.miners|
        ensures MinedAt(d, i)
      {
        assert MinedAt(m, i);
      }
    } else if e.tid in m.threads {
      ReceiptActs(env, m, e.tid, e.cmd);
    }
  }

  lemma ReceiptActs(env: Env, m: Machine, tid: nat, cmd: Command)
    requires ReceiptInv(m) && tid in m.threads
    ensures ReceiptInv(Act(env, m, tid, cmd))
  {
    var d, t := Act(env, m, tid, cmd), m.threads[tid];
    AdvanceLate(env, m.world, t, cmd);
    if tid in m.miners {
      var i :| 0 <= i < |m.miners| && m.miners[i] == tid;
      assert MinedAt(m, i);
    }
    forall i | 0 <= i < |d.miners|
      ensures MinedAt(d, i)
    {
      if i < |m.miners| {
        assert MinedAt(m, i);
      }
    }
  }

  lemma AdvanceLate(env: Env, w: World, t: Thread, cmd: Command)
    ensures var p := Advance(env, w, t, cmd);
            && (WritesBlock(t, cmd) ==> p == BlockWritten(Succ64(t.phase.b)))
            && (Publishes(t, cmd) ==> p == Finished)
            && (!WritesBlock(t, cmd) && !Publishes(t, cmd) ==> p == t.phase || !p.BlockWritten?)
            && (t.phase.Finished? ==> p.Finished?)
            && (t.phase.BlockWritten? && !Publishes(t, cmd) ==> p == t.phase)
  {
  }

  lemma {:induction false} ReceiptAlways(env: Env, w0: World, es: seq<Event>)
    ensures ReceiptInv(Exec(env, Initial(w0), es))
  {
    if es != [] {
      ReceiptAlways(env, w0, es[..|es| - 1]);
      ReceiptInvStep(env, Exec(env, Initial(w0), es[..|es| - 1]), es[|es| - 1]);
    }
  }

  /** Two threads have published the same block number. */
  ghost predicate SharedNumber(m: Machine)
  {
    exists t, u :: t in m.published && u in m.published && t != u && m.published[t] == m.published[u]
  }

  lemma FreshNumbers(m: Machine, start: nat)
    requires ReceiptInv(m) && Consecutive(m.parents, start) && start + |m.parents| < U64
    ensures !SharedNumber(m)
  {
    forall t, u | t in m.published && u in m.published && t != u
      ensures m.published[t] != m.published[u]
    {
      var i :| 0 <= i < |m.miners| && m.miners[i] == t;
      var j :| 0 <= j < |m.miners| && m.miners[j] == u;
      assert MinedAt(m, i) && MinedAt(m, j);
    }
  }

  lemma RepeatedNumbers(m: Machine)
    requires ReceiptInv(m) && HasDuplicate(m.parents)
    requires forall t :: t in m.threads ==> !m.threads[t].phase.BlockWritten?
    ensures SharedNumber(m)
  {
    var i, j :| 0 <= i < j < |m.parents| && m.parents[i] == m.parents[j];
    assert MinedAt(m, i) && MinedAt(m, j);
    assert m.miners[i] != m.miners[j];
  }

  /**
    Receipts carry distinct block numbers as long as no send is overtaken on the block number; once the receipts of
    all blocks are out, they do so exactly then.
   */
  lemma ReceiptNumbersExactly(env: Env, w0: World, es: seq<Event>)
    requires w0.Block() + |Exec(env, Initial(w0), es).parents| < U64
    ensures var m, overtaken := Exec(env, Initial(w0), es), Overtaken(BlockHistory(env, w0, es));
            && (SharedNumber(m) ==> overtaken)
            && (overtaken && (forall t :: t in m.threads ==> !m.threads[t].phase.BlockWritten?) ==> SharedNumber(m))
  {
    var m := Exec(env, Initial(w0), es);
    BlockExactlyWhenFresh(env, w0, es);
    ReceiptAlways(env, w0, es);
    if !Overtaken(BlockHistory(env, w0, es)) {
      FreshNumbers(m, w0.Block());
    } else if forall t :: t in m.threads ==> !m.threads[t].phase.BlockWritten? {
      RepeatedNumbers(m);
    }
  }
}
