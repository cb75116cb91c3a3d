/**
  The storage overlay of `src/evm/executor.c`: a log of writes, searched backwards for reads, updated in place by
  a forward search, grown by doubling, and committed to the store at the end. It is shown to be a plain map laid
  over the stored slots.
 */
module Overlays {
  import opened Bytes
  import opened Redis

  datatype Write = Write(slot: Slot, value: Word)

  /** What a log says: for each slot its last entry. */
  function LogMap(log: seq<Write>): map<Slot, Word>
  {
    if log == [] then map[] else LogMap(log[..|log| - 1])[log[|log| - 1].slot := log[|log| - 1].value]
  }

  predicate Unique(log: seq<Write>)
  {
    forall i, j :: 0 <= i < j < |log| ==> log[i].slot != log[j].slot
  }

  lemma {:induction false} LogMapOf(log: seq<Write>, slot: Slot)
    ensures slot in LogMap(log) <==> exists i :: 0 <= i < |log| && log[i].slot == slot
  {
    if log != [] {
      LogMapOf(log[..|log| - 1], slot);
      if slot in LogMap(log[..|log| - 1]) {
        var i :| 0 <= i < |log| - 1 && log[..|log| - 1][i].slot == slot;
        assert log[i].slot == slot;
      } else if exists i :: 0 <= i < |log| && log[i].slot == slot {
        var i :| 0 <= i < |log| && log[i].slot == slot;
        assert i == |log| - 1 || log[..|log| - 1][i].slot == slot;
      }
    }
  }

  lemma {:induction false} LogMapAt(log: seq<Write>, i: nat)
    requires Unique(log) && i < |log|
    ensures log[i].slot in LogMap(log) && LogMap(log)[log[i].slot] == log[i].value
  {
    if i < |log| - 1 {
      LogMapAt(log[..|log| - 1], i);
    }
  }

  /** A backward search that has passed `log[i..]` without a hit may forget it. */
  lemma {:induction false} LogMapPrefix(log: seq<Write>, i: nat, slot: Slot)
    requires i <= |log| && forall j :: i <= j < |log| ==> log[j].slot != slot
    ensures slot in LogMap(log) <==> slot in LogMap(log[..i])
    ensures slot in LogMap(log) ==> LogMap(log)[slot] == LogMap(log[..i])[slot]
    decreases |log|
  {
    if i < |log| {
      LogMapPrefix(log[..|log| - 1], i, slot);
      assert log[..|log| - 1][..i] == log[..i];
    } else {
      assert log[..i] == log;
    }
  }

  lemma {:induction false} LogMapSize(log: seq<Write>)
    requires Unique(log)
    ensures |LogMap(log)| == |log|
  {
    if log != [] {
      var front := log[..|log| - 1];
      LogMapSize(front);
      LogMapOf(front, log[|log| - 1].slot);
      assert LogMap(log).Keys == LogMap(front).Keys + {log[|log| - 1].slot};
    }
  }

  /** Overwriting the one entry of a slot is the map update. */
  lemma {:induction false} LogMapOverwrite(log: seq<Write>, i: nat, v: Word)
    requires Unique(log) && i < |log|
    ensures LogMap(log[i := Write(log[i].slot, v)]) == LogMap(log)[log[i].slot := v]
  {
    var n := |log| - 1;
    var log' := log[i := Write(log[i].slot, v)];
    if i < n {
      LogMapOverwrite(log[..n], i, v);
      assert log'[..n] == log[..n][i := Write(log[i].slot, v)];
    } else {
      assert log'[..n] == log[..n];
    }
  }

  lemma LogMapAppend(log: seq<Write>, w: Write)
    ensures LogMap(log + [w]) == LogMap(log)[w.slot := w.value]
  {
    assert (log + [w])[..|log|] == log;
  }

  /** The order of a log without duplicates does not matter. */
  lemma LogOrderIrrelevant(a: seq<Write>, b: seq<Write>)
    requires Unique(a) && Unique(b) && multiset(a) == multiset(b)
    ensures LogMap(a) == LogMap(b)
  {
    forall slot: Slot
      ensures slot in LogMap(a) ==> slot in LogMap(b) && LogMap(b)[slot] == LogMap(a)[slot]
      ensures slot in LogMap(b) ==> slot in LogMap(a)
    {
      if slot in LogMap(a) {
        SameEntry(a, b, slot);
      }
      if slot in LogMap(b) {
        SameEntry(b, a, slot);
      }
    }
  }

  lemma SameEntry(a: seq<Write>, b: seq<Write>, slot: Slot)
    requires Unique(a) && Unique(b) && multiset(a) == multiset(b) && slot in LogMap(a)
    ensures slot in LogMap(b) && LogMap(b)[slot] == LogMap(a)[slot]
  {
    LogMapOf(a, slot);
    var i :| 0 <= i < |a| && a[i].slot == slot;
    LogMapAt(a, i);
    assert a[i] in multiset(b);
    var j :| 0 <= j < |b| && b[j] == a[i];
    LogMapAt(b, j);
  }

  /** Every map of slots is what some log without duplicates says. */
  lemma {:induction false} MapHasLog(m: map<Slot, Word>) returns (log: seq<Write>)
    ensures Unique(log) && LogMap(log) == m
    decreases |m|
  {
    if m == map[] {
      log := [];
    } else {
      var slot :| slot in m;
      var front := MapHasLog(m - {slot});
      log := front + [Write(slot, m[slot])];
      LogMapAppend(front, Write(slot, m[slot]));
      assert m == (m - {slot})[slot := m[slot]];
      forall i | 0 <= i < |front|
        ensures front[i].slot != slot
      {
        LogMapAt(front, i);
      }
    }
  }

  // ---- The overlay as a map --------------------------------------------------------------------------------

  datatype Status = Assigned | Added | Deleted | Modified

  /** The overlay seen from outside: the slots written so far, and room for how many. */
  datatype Overlay = Overlay(slots: map<Slot, Word>, cap: nat)

  const EMPTY: Overlay := Overlay(map[], 0)

  /** The storage that a running contract sees. */
  function Visible(w: World, o: Overlay): map<Slot, Word> { w.storage + o.slots }

  function Read(w: World, o: Overlay, slot: Slot): Word
  {
    if slot in o.slots then o.slots[slot] else w.Storage(slot)
  }

  /** A write fails only for a new slot, when the log is full and cannot grow. */
  predicate Refused(o: Overlay, slot: Slot, grows: bool) { slot !in o.slots && |o.slots| == o.cap && !grows }

  function NextCap(o: Overlay, slot: Slot): nat
  {
    if slot in o.slots || |o.slots| != o.cap then o.cap else if o.cap == 0 then 8 else 2 * o.cap
  }

  function Put(o: Overlay, slot: Slot, v: Word, grows: bool): Overlay
  {
    if Refused(o, slot, grows) then o else Overlay(o.slots[slot := v], NextCap(o, slot))
  }

  function StatusOf(current: Word, next: Word): Status
  {
    if current == next then Assigned
    else if current == ZERO_WORD then Added
    else if next == ZERO_WORD then Deleted
    else Modified
  }

  /** What `host_set_storage` reports. */
  function PutStatus(w: World, o: Overlay, slot: Slot, v: Word, grows: bool): Status
  {
    if Refused(o, slot, grows) then Assigned else StatusOf(Read(w, o, slot), v)
  }

  /** What the VM may ask of the host. Every call other than a storage write leaves the overlay alone. */
  datatype HostCall = SetStorage(slot: Slot, value: Word, grows: bool) | GetStorage(slot: Slot) | Inspect

  function Step(o: Overlay, c: HostCall): Overlay
  {
    if c.SetStorage? then Put(o, c.slot, c.value, c.grows) else o
  }

  function Run(o: Overlay, calls: seq<HostCall>): Overlay
  {
    if calls == [] then o else Step(Run(o, calls[..|calls| - 1]), calls[|calls| - 1])
  }

  /** A read returns the last value written to the slot by an accepted write, or else what the store has. */
  lemma {:induction false} ReadsLastWrite(w: World, calls: seq<HostCall>, slot: Slot)
    ensures var o := Run(EMPTY, calls);
            Read(w, o, slot) == match LastWrite(calls, slot) case Some(v) => v case None => w.Storage(slot)
  {
    if calls != [] {
      ReadsLastWrite(w, calls[..|calls| - 1], slot);
    }
  }

  /** The value of the last accepted write to a slot, found by looking at the calls alone. */
  function LastWrite(calls: seq<HostCall>, slot: Slot): Option<Word>
  {
    if calls == [] then None
    else
      var n := |calls| - 1;
      var c := calls[n];
      if c.SetStorage? && c.slot == slot && !Refused(Run(EMPTY, calls[..n]), slot, c.grows) then Some(c.value)
      else LastWrite(calls[..n], slot)
  }

  /** The value of the last write to a slot, accepted or not. */
  function LastSet(calls: seq<HostCall>, slot: Slot): Option<Word>
  {
    if calls == [] then None
    else
      var n := |calls| - 1;
      if calls[n].SetStorage? && calls[n].slot == slot then Some(calls[n].value) else LastSet(calls[..n], slot)
  }

  /** While the log can grow, every write is accepted. */
  lemma {:induction false} GrowingLogAcceptsAll(calls: seq<HostCall>, slot: Slot)
    requires forall i :: 0 <= i < |calls| && calls[i].SetStorage? ==> calls[i].grows
    ensures LastWrite(calls, slot) == LastSet(calls, slot)
  {
    if calls != [] {
      GrowingLogAcceptsAll(calls[..|calls| - 1], slot);
    }
  }

  /** The log grows by doubling from 8: it is never larger than 8 entries or twice the slots written. */
  lemma {:induction false} LogCapacity(calls: seq<HostCall>)
    ensures var o := Run(EMPTY, calls);
            |o.slots| <= o.cap && (o.cap == 0 || o.cap == 8 || (o.cap >= 16 && o.cap < 2 * |o.slots|))
  {
    if calls != [] {
      var n := |calls| - 1;
      LogCapacity(calls[..n]);
      if calls[n].SetStorage? {
        CapacityStep(Run(EMPTY, calls[..n]), calls[n].slot, calls[n].value, calls[n].grows);
      }
    }
  }

  lemma CapacityStep(o: Overlay, slot: Slot, v: Word, grows: bool)
    requires |o.slots| <= o.cap && (o.cap == 0 || o.cap == 8 || (o.cap >= 16 && o.cap < 2 * |o.slots|))
    ensures var p := Put(o, slot, v, grows);
            |p.slots| <= p.cap && (p.cap == 0 || p.cap == 8 || (p.cap >= 16 && p.cap < 2 * |p.slots|))
  {
    var p := Put(o, slot, v, grows);
    if !Refused(o, slot, grows) {
      assert p.slots.Keys == o.slots.Keys + {slot};
      assert |p.slots| == |p.slots.Keys| && |o.slots| == |o.slots.Keys|;
    }
  }

  // ---- Storage statuses count the non-zero slots -----------------------------------------------------------

  function NonZeroSlots(m: map<Slot, Word>): set<Slot> { set s | s in m && m[s] != ZERO_WORD }

  function One(b: bool): int { if b then 1 else 0 }

  lemma NonZeroUpdate(m: map<Slot, Word>, slot: Slot, v: Word)
    ensures |NonZeroSlots(m[slot := v])|
            == |NonZeroSlots(m)| - One(slot in m && m[slot] != ZERO_WORD) + One(v != ZERO_WORD)
  {
    var rest := NonZeroSlots(m) - {slot};
    assert NonZeroSlots(m[slot := v]) == if v != ZERO_WORD then rest + {slot} else rest;
    assert NonZeroSlots(m) == if slot in m && m[slot] != ZERO_WORD then rest + {slot} else rest;
  }

  function Score(s: Status): int { if s == Added then 1 else if s == Deleted then -1 else 0 }

  /** ADDED results minus DELETED results over a run of host calls. */
  function Net(w: World, o: Overlay, calls: seq<HostCall>): int
  {
    if calls == [] then 0
    else
      var n := |calls| - 1;
      var c := calls[n];
      Net(w, o, calls[..n])
      + (if c.SetStorage? then Score(PutStatus(w, Run(o, calls[..n]), c.slot, c.value, c.grows)) else 0)
  }

  lemma ScoreOf(current: Word, next: Word)
    ensures Score(StatusOf(current, next)) == One(next != ZERO_WORD) - One(current != ZERO_WORD)
  {
  }

  lemma VisiblePut(w: World, o: Overlay, slot: Slot, v: Word, grows: bool)
    requires !Refused(o, slot, grows)
    ensures Visible(w, Put(o, slot, v, grows)) == Visible(w, o)[slot := v]
  {
    MergeUpdate(w.storage, o.slots, slot, v);
  }

  lemma MergeUpdate<K, V>(m: map<K, V>, n: map<K, V>, k: K, v: V)
    ensures m + n[k := v] == (m + n)[k := v]
  {
    var a, b := m + n[k := v], (m + n)[k := v];
    assert a.Keys == b.Keys;
    assert forall x :: x in a ==> a[x] == b[x];
  }

  lemma ReadVisible(w: World, o: Overlay, slot: Slot)
    ensures Read(w, o, slot) == if slot in Visible(w, o) then Visible(w, o)[slot] else ZERO_WORD
  {
  }

  lemma PutCounts(w: World, o: Overlay, slot: Slot, v: Word, grows: bool)
    ensures |NonZeroSlots(Visible(w, Put(o, slot, v, grows)))|
            == |NonZeroSlots(Visible(w, o))| + Score(PutStatus(w, o, slot, v, grows))
  {
    if !Refused(o, slot, grows) {
      VisiblePut(w, o, slot, v, grows);
      NonZeroUpdate(Visible(w, o), slot, v);
      ReadVisible(w, o, slot);
      ScoreOf(Read(w, o, slot), v);
    }
  }

  /**
    Over any run of host calls, refused writes included, ADDED minus DELETED is the change in the number of
    non-zero slots that the contract sees.
   */
  lemma {:induction false} StatusesCountSlots(w: World, o: Overlay, calls: seq<HostCall>)
    ensures |NonZeroSlots(Visible(w, Run(o, calls)))| == |NonZeroSlots(Visible(w, o))| + Net(w, o, calls)
  {
    if calls != [] {
      var n := |calls| - 1;
      StatusesCountSlots(w, o, calls[..n]);
      var c := calls[n];
      if c.SetStorage? {
        PutCounts(w, Run(o, calls[..n]), c.slot, c.value, c.grows);
      }
    }
  }

  /** The value at a slot of the storage that a contract sees. */
  function SeenAt(m: map<Slot, Word>, slot: Slot): Word { if slot in m then m[slot] else ZERO_WORD }

  /**
    What each status says about the storage seen before and after the write, refused writes included: nothing changed
    at the slot, it became non-zero, it became zero, or it went from one non-zero value to another.
   */
  lemma StatusMeans(w: World, o: Overlay, slot: Slot, v: Word, grows: bool)
    ensures var before, after := Visible(w, o), Visible(w, Put(o, slot, v, grows));
            var had, has := slot in NonZeroSlots(before), slot in NonZeroSlots(after);
            var status := PutStatus(w, o, slot, v, grows);
            && (status == Assigned <==> SeenAt(before, slot) == SeenAt(after, slot))
            && (status == Added <==> !had && has)
            && (status == Deleted <==> had && !has)
            && (status == Modified <==> had && has && SeenAt(before, slot) != SeenAt(after, slot))
            && (!Refused(o, slot, grows) ==> SeenAt(after, slot) == v)
            && (forall other: Slot :: other != slot ==> SeenAt(after, other) == SeenAt(before, other))
  {
    ReadVisible(w, o, slot);
    if !Refused(o, slot, grows) {
      VisiblePut(w, o, slot, v, grows);
      UpdateMeans(Visible(w, o), slot, v);
    }
  }

  lemma UpdateMeans(m: map<Slot, Word>, slot: Slot, v: Word)
    ensures var after, status := m[slot := v], StatusOf(SeenAt(m, slot), v);
            var had, has := slot in NonZeroSlots(m), slot in NonZeroSlots(after);
            && (status == Assigned <==> SeenAt(m, slot) == SeenAt(after, slot))
            && (status == Added <==> !had && has)
            && (status == Deleted <==> had && !has)
            && (status == Modified <==> had && has && SeenAt(m, slot) != SeenAt(after, slot))
            && SeenAt(after, slot) == v
            && (forall other: Slot :: other != slot ==> SeenAt(after, other) == SeenAt(m, other))
  {
    NonZeroAt(m, slot);
    NonZeroAt(m[slot := v], slot);
  }

  lemma NonZeroAt(m: map<Slot, Word>, slot: Slot)
    ensures slot in NonZeroSlots(m) <==> SeenAt(m, slot) != ZERO_WORD
  {
  }
}
