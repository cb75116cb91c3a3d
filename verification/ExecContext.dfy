/** `evm_exec_context_t` of `src/evm/executor.c`: the write log as the code keeps it, and the host calls that use it. */
module ExecContexts {
  import opened Bytes
  import opened Redis
  import opened Overlays

  class ExecContext {
    const state: RedisState
    var writes: seq<Write>
    var writeCap: nat

    /** The log holds each slot at most once and fits its allocation. */
    ghost predicate Valid()
      reads this
    {
      |writes| <= writeCap && Unique(writes)
    }

    ghost function View(): Overlay
      reads this
    {
      Overlay(LogMap(writes), writeCap)
    }

    constructor (state: RedisState)
      ensures this.state == state && Valid() && View() == EMPTY
    {
      this.state, writes, writeCap := state, [], 0;
    }

    /** `exec_context_get_write`: backward search. */
    method GetWrite(slot: Slot) returns (r: Option<Word>)
      ensures r == if slot in View().slots then Some(View().slots[slot]) else None
    {
      var i := |writes|;
      while i > 0
        invariant 0 <= i <= |writes|
        invariant forall j :: i <= j < |writes| ==> writes[j].slot != slot
      {
        if writes[i - 1].slot == slot {
          LogMapPrefix(writes, i, slot);
          assert writes[..i][..i - 1] == writes[..i - 1];
          return Some(writes[i - 1].value);
        }
        i := i - 1;
      }
      LogMapPrefix(writes, 0, slot);
      r := None;
    }

    /** `exec_context_set_write`: overwrite in place, or append, growing the log if the allocator lets it. */
    method SetWrite(slot: Slot, value: Word, grows: bool) returns (rc: int)
      requires Valid()
      modifies this
      ensures Valid() && View() == Put(old(View()), slot, value, grows)
      ensures rc == if Refused(old(View()), slot, grows) then -1 else 0
    {
      ghost var before := View();
      for i := 0 to |writes|
        invariant Valid() && View() == before
        invariant forall j :: 0 <= j < i ==> writes[j].slot != slot
      {
        if writes[i].slot == slot {
          LogMapAt(writes, i);
          LogMapOverwrite(writes, i, value);
          writes := writes[i := Write(slot, value)];
          return 0;
        }
      }
      LogMapOf(writes, slot);
      LogMapSize(writes);
      if |writes| == writeCap {
        if !grows {
          return -1;
        }
        writeCap := if writeCap != 0 then writeCap * 2 else 8;
      }
      LogMapAppend(writes, Write(slot, value));
      writes := writes + [Write(slot, value)];
      rc := 0;
    }

    /** `host_get_storage` */
    method HostGetStorage(slot: Slot) returns (v: Word)
      requires state.Valid()
      ensures v == Read(state.world, View(), slot)
    {
      var w := GetWrite(slot);
      if w.Some? {
        v := w.value;
      } else {
        v := state.GetStorage(slot.addr, slot.key);
      }
    }

    /** `host_set_storage` */
    method HostSetStorage(slot: Slot, next: Word, grows: bool) returns (status: Status)
      requires Valid() && state.Valid()
      modifies this
      ensures Valid() && View() == Put(old(View()), slot, next, grows)
      ensures status == PutStatus(state.world, old(View()), slot, next, grows)
    {
      var current := HostGetStorage(slot);
      var rc := SetWrite(slot, next, grows);
      if rc != 0 {
        return Assigned;
      }
      if current == next {
        return Assigned;
      }
      if current == ZERO_WORD && next != ZERO_WORD {
        return Added;
      }
      if current != ZERO_WORD && next == ZERO_WORD {
        return Deleted;
      }
      return Modified;
    }

    /** The VM at work: any sequence of host calls. */
    method RunVm(calls: seq<HostCall>)
      requires Valid() && state.Valid()
      modifies this
      ensures Valid() && View() == Run(old(View()), calls)
    {
      for i := 0 to |calls|
        invariant Valid() && state.Valid()
        invariant View() == Run(old(View()), calls[..i])
      {
        assert calls[..i + 1][..i] == calls[..i];
        match calls[i]
        case SetStorage(slot, value, grows) => var _ := HostSetStorage(slot, value, grows);
        case GetStorage(slot) => var _ := HostGetStorage(slot);
        case Inspect =>
      }
      assert calls[..|calls|] == calls;
    }

    /** `exec_context_commit`: the store becomes the old store overridden by the overlay. */
    method Commit() returns (rc: int)
      requires Valid() && state.Valid()
      modifies state
      ensures state.Valid() && rc == 0
      ensures state.world == old(state.world).(storage := old(state.world).storage + View().slots)
    {
      ghost var before := state.world;
      assert before.storage + LogMap(writes[..0]) == before.storage;
      for i := 0 to |writes|
        invariant state.Valid()
        invariant state.world == before.(storage := before.storage + LogMap(writes[..i]))
      {
        var w := writes[i];
        assert writes[..i + 1] == writes[..i] + [w];
        LogMapAppend(writes[..i], w);
        MergeUpdate(before.storage, LogMap(writes[..i]), w.slot, w.value);
        assert w.slot == Slot(w.slot.addr, w.slot.key);
        state.SetStorage(w.slot.addr, w.slot.key, w.value);
      }
      assert writes[..|writes|] == writes;
      rc := 0;
    }
  }
}
