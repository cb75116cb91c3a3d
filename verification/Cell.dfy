/**
  A counter in a shared store that threads load, hold for a while, and later save plus one. The block number and
  every account's nonce are such cells in concurrent runs of `src/rpc/handlers.c` and `src/evm/executor.c`.

  A save is stale when the value it was based on is no longer the stored one. The central result says when that
  happens in terms of the order of loads and saves alone.
 */
module Cells {
  import opened Bytes

  /** `saved` lists, for every save, the value that had been loaded; `held` is what each thread still carries. */
  datatype Cell = Cell(x: uint64, saved: seq<uint64>, stale: bool, held: map<nat, uint64>)

  /** What one step of a run does to the cell. */
  datatype Move = Pass | Loads(tid: nat) | Saves(tid: nat)

  predicate Subset(h: map<nat, uint64>, k: map<nat, uint64>) { forall t :: t in h ==> t in k && h[t] == k[t] }

  predicate SameRecord(c: Cell, d: Cell) { d.x == c.x && d.saved == c.saved && d.stale == c.stale }

  /** A step may also make its thread drop what it holds. */
  predicate Step(c: Cell, d: Cell, mv: Move)
  {
    match mv
    case Pass => SameRecord(c, d) && Subset(d.held, c.held)
    case Loads(t) => SameRecord(c, d) && Subset(d.held, c.held[t := c.x])
    case Saves(t) =>
      && t in c.held && d.x == Succ64(c.held[t]) && d.saved == c.saved + [c.held[t]]
      && d.stale == (c.stale || c.held[t] != c.x) && Subset(d.held, c.held) && t !in d.held
  }

  function Untouched(x: uint64): Cell { Cell(x, [], false, map[]) }

  /** The cells before, between and after the moves of a run. */
  predicate Trace(cs: seq<Cell>, mvs: seq<Move>)
  {
    && |cs| == |mvs| + 1 && cs[0] == Untouched(cs[0].x)
    && forall i :: 0 <= i < |mvs| ==> StepAt(cs, mvs, i)
  }

  predicate StepAt(cs: seq<Cell>, mvs: seq<Move>, i: nat)
    requires |cs| == |mvs| + 1 && i < |mvs|
  {
    Step(cs[i], cs[i + 1], mvs[i])
  }

  predicate LoadsOnce(mvs: seq<Move>)
  {
    forall i, j :: 0 <= i < j < |mvs| && mvs[i].Loads? && mvs[j].Loads? ==> mvs[i].tid != mvs[j].tid
  }

  /** Another thread saves between a thread's load and its own save. */
  ghost predicate Overtaken(mvs: seq<Move>)
  {
    exists i, j, k :: 0 <= i < j < k < |mvs| && OvertakenAt(mvs, i, j, k)
  }

  predicate OvertakenAt(mvs: seq<Move>, i: nat, j: nat, k: nat)
    requires i < j < k < |mvs|
  {
    mvs[i].Loads? && mvs[j].Saves? && mvs[k].Saves? && mvs[i].tid == mvs[k].tid != mvs[j].tid
  }

  // ---- What every run keeps --------------------------------------------------------------------------------

  ghost predicate HasDuplicate(s: seq<uint64>) { exists i, j :: 0 <= i < j < |s| && s[i] == s[j] }

  predicate Consecutive(s: seq<uint64>, start: nat) { forall i :: 0 <= i < |s| ==> s[i] == start + i }

  /** With `top` = start + saves: nothing stored or held exceeds `top`, and after a stale save all of it stays below. */
  predicate Behind(start: nat, c: Cell)
  {
    var top := start + |c.saved|;
    && c.x <= top && (c.stale ==> c.x < top)
    && forall t :: t in c.held ==> c.held[t] <= top && (c.stale ==> c.held[t] < top)
  }

  /** Until the first stale save the cell counts the saves; the first stale save repeats an earlier one. */
  ghost predicate Tracked(start: nat, c: Cell)
  {
    start + |c.saved| < U64 ==>
      if c.stale then HasDuplicate(c.saved)
      else
        && c.x == start + |c.saved| && Consecutive(c.saved, start)
        && forall t :: t in c.held ==> c.held[t] >= start
  }

  lemma BehindStep(start: nat, c: Cell, d: Cell, mv: Move)
    requires Behind(start, c) && Tracked(start, c) && Step(c, d, mv)
    ensures Behind(start, d)
  {
  }

  lemma TrackedSave(start: nat, c: Cell, d: Cell, tid: nat)
    requires Behind(start, c) && Tracked(start, c) && Step(c, d, Saves(tid))
    ensures Tracked(start, d)
  {
    var h, n := c.held[tid], |c.saved|;
    if c.stale && start + n < U64 {
      var i, j :| 0 <= i < j < |c.saved| && c.saved[i] == c.saved[j];
      assert d.saved[i] == d.saved[j];
    } else if start + n < U64 && h != c.x {
      assert d.saved[h - start] == h == d.saved[n];
    }
  }

  lemma TrackedStep(start: nat, c: Cell, d: Cell, mv: Move)
    requires Behind(start, c) && Tracked(start, c) && Step(c, d, mv)
    ensures Tracked(start, d)
  {
    if mv.Saves? {
      TrackedSave(start, c, d, mv.tid);
    }
  }

  ghost predicate CellInv(start: nat, c: Cell) { Behind(start, c) && Tracked(start, c) }

  lemma {:induction false} TraceInv(cs: seq<Cell>, mvs: seq<Move>, n: nat)
    requires Trace(cs, mvs) && n < |cs|
    ensures CellInv(cs[0].x, cs[n])
  {
    if n > 0 {
      TraceInv(cs, mvs, n - 1);
      assert StepAt(cs, mvs, n - 1);
      BehindStep(cs[0].x, cs[n - 1], cs[n], mvs[n - 1]);
      TrackedStep(cs[0].x, cs[n - 1], cs[n], mvs[n - 1]);
    }
  }

  lemma ConsecutiveDistinct(s: seq<uint64>, start: nat)
    requires Consecutive(s, start)
    ensures !HasDuplicate(s)
  {
  }

  /** The exact account of a cell: it counts its saves, and no save repeats another, exactly when none was stale. */
  lemma CountsExactly(cs: seq<Cell>, mvs: seq<Move>)
    requires Trace(cs, mvs) && cs[0].x + |cs[|mvs|].saved| < U64
    ensures var start, c := cs[0].x, cs[|mvs|];
            && (c.x == start + |c.saved| <==> !c.stale)
            && (HasDuplicate(c.saved) <==> c.stale)
            && (!c.stale ==> Consecutive(c.saved, start))
  {
    TraceInv(cs, mvs, |mvs|);
    if !cs[|mvs|].stale {
      ConsecutiveDistinct(cs[|mvs|].saved, cs[0].x);
    }
  }

  // ---- Stale exactly when overtaken ------------------------------------------------------------------------

  lemma {:induction false} RecordGrows(cs: seq<Cell>, mvs: seq<Move>, i: nat, j: nat)
    requires Trace(cs, mvs) && i <= j < |cs|
    ensures |cs[i].saved| <= |cs[j].saved| && (cs[i].stale ==> cs[j].stale)
  {
    if i < j {
      RecordGrows(cs, mvs, i, j - 1);
      assert StepAt(cs, mvs, j - 1);
    }
  }

  /** A thread comes to hold something only by loading it. */
  lemma {:induction false} LoadBefore(cs: seq<Cell>, mvs: seq<Move>, p: nat, k: nat, t: nat) returns (i: nat)
    requires Trace(cs, mvs) && p <= k < |cs| && t !in cs[p].held && t in cs[k].held
    ensures p <= i < k && mvs[i] == Loads(t)
    decreases k
  {
    assert StepAt(cs, mvs, k - 1);
    if t in cs[k - 1].held {
      i := LoadBefore(cs, mvs, p, k - 1, t);
    } else {
      i := k - 1;
    }
  }

  /** What a thread holds is what was stored when it loaded. */
  lemma {:induction false} HeldSince(cs: seq<Cell>, mvs: seq<Move>, i: nat, k: nat)
    requires Trace(cs, mvs) && LoadsOnce(mvs) && i < k < |cs| && mvs[i].Loads? && mvs[i].tid in cs[k].held
    ensures cs[k].held[mvs[i].tid] == cs[i].x
    decreases k
  {
    assert StepAt(cs, mvs, k - 1);
    if k - 1 > i {
      assert mvs[k - 1] != Loads(mvs[i].tid);
      HeldSince(cs, mvs, i, k - 1);
    }
  }

  /** Only a save changes the stored value. */
  lemma {:induction false} SaveBetween(cs: seq<Cell>, mvs: seq<Move>, i: nat, k: nat) returns (j: nat)
    requires Trace(cs, mvs) && i <= k < |cs| && cs[i].x != cs[k].x
    ensures i <= j < k && mvs[j].Saves?
    decreases k
  {
    assert StepAt(cs, mvs, k - 1);
    if mvs[k - 1].Saves? {
      j := k - 1;
    } else {
      j := SaveBetween(cs, mvs, i, k - 1);
    }
  }

  /** Some save made the record stale. */
  lemma {:induction false} StaleSave(cs: seq<Cell>, mvs: seq<Move>, n: nat) returns (k: nat)
    requires Trace(cs, mvs) && n < |cs| && cs[n].stale
    ensures k < n && mvs[k].Saves? && mvs[k].tid in cs[k].held && cs[k].held[mvs[k].tid] != cs[k].x
    decreases n
  {
    assert StepAt(cs, mvs, n - 1);
    if cs[n - 1].stale {
      k := StaleSave(cs, mvs, n - 1);
    } else {
      k := n - 1;
    }
  }

  lemma StaleMeansOvertaken(cs: seq<Cell>, mvs: seq<Move>)
    requires Trace(cs, mvs) && LoadsOnce(mvs) && cs[|mvs|].stale
    ensures Overtaken(mvs)
  {
    var k := StaleSave(cs, mvs, |mvs|);
    var t := mvs[k].tid;
    var i := LoadBefore(cs, mvs, 0, k, t);
    HeldSince(cs, mvs, i, k);
    var j := SaveBetween(cs, mvs, i, k);
    if mvs[j].tid == t {
      assert StepAt(cs, mvs, j);
      var again := LoadBefore(cs, mvs, j + 1, k, t);
      assert false;
    }
    assert OvertakenAt(mvs, i, j, k);
  }

  lemma OvertakenMeansStale(cs: seq<Cell>, mvs: seq<Move>, i: nat, j: nat, k: nat)
    requires Trace(cs, mvs) && LoadsOnce(mvs) && cs[0].x + |cs[|mvs|].saved| < U64
    requires i < j < k < |mvs| && OvertakenAt(mvs, i, j, k)
    ensures cs[|mvs|].stale
  {
    assert StepAt(cs, mvs, j) && StepAt(cs, mvs, k);
    HeldSince(cs, mvs, i, k);
    RecordGrows(cs, mvs, i, j);
    RecordGrows(cs, mvs, j + 1, k);
    RecordGrows(cs, mvs, k + 1, |mvs|);
    TraceInv(cs, mvs, i);
    TraceInv(cs, mvs, k);
  }

  /**
    Some save was stale exactly when some thread was overtaken, that is, when between its load and its save another
    thread saved.
   */
  lemma StaleExactlyWhenOvertaken(cs: seq<Cell>, mvs: seq<Move>)
    requires Trace(cs, mvs) && LoadsOnce(mvs) && cs[0].x + |cs[|mvs|].saved| < U64
    ensures cs[|mvs|].stale <==> Overtaken(mvs)
  {
    if cs[|mvs|].stale {
      StaleMeansOvertaken(cs, mvs);
    }
    if Overtaken(mvs) {
      var i, j, k :| 0 <= i < j < k < |mvs| && OvertakenAt(mvs, i, j, k);
      OvertakenMeansStale(cs, mvs, i, j, k);
    }
  }
}
