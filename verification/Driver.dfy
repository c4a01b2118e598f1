/** The clipboard driver itself: its stack of free ids, its table and its request handlers, updated in
    place. Every method is tied to the function on states that specifies it. */
module Driver {
  import opened Chars
  import opened Clipboard
  import opened LiveUpdate

  // ----- stack.c -----

  class Stack {
    const value: array<nat>
    var current: nat   // index of the first free cell, a pointer in the source

    ghost predicate Valid()
      reads this
    {
      current <= value.Length
    }

    function Live(): seq<nat>
      requires Valid()
      reads this, value
    {
      value[..current]
    }

    /** Static memory: nothing pushed. */
    constructor (size: nat)
      ensures Valid() && fresh(value) && value.Length == size && current == 0
    {
      value := new nat[size](_ => 0);
      current := 0;
    }

    /** A push onto a full stack does nothing. */
    method Push(v: nat)
      requires Valid()
      modifies this, value
      ensures Valid()
      ensures Live() == if |old(Live())| < value.Length then old(Live()) + [v] else old(Live())
    {
      if current != value.Length {
        value[current] := v;
        current := current + 1;
      }
    }

    predicate IsEmpty()
      requires Valid()
      reads this, value
      ensures IsEmpty() <==> Live() == []
    {
      current == 0
    }

    method Top() returns (v: nat)
      requires Valid() && Live() != []
      ensures v == Live()[|Live()| - 1]
    {
      v := value[current - 1];
    }

    method Pop()
      requires Valid() && Live() != []
      modifies this
      ensures Valid() && Live() == old(Live())[..|old(Live())| - 1]
    {
      current := current - 1;
    }

    /** Fills the stack with every index of its own array. */
    method Init()
      modifies this, value
      ensures Valid() && Live() == seq(value.Length, i => i)
    {
      for i := 0 to value.Length
        invariant forall k :: 0 <= k < i ==> value[k] == k
      {
        value[i] := i;
      }
      current := value.Length;
    }
  }

  // ----- clipboard_protocol.h -----

  const LOCK_SIZE: U32 := 12
  const GET_SIZE: U32 := 1032
  const SET_SIZE: U32 := 1036

  predicate IsPidQuery(size: U32) {
    size < GET_SIZE
  }

  function EncodePid(pid: int): U32 {
    (GET_SIZE + pid) % U32_LIMIT
  }

  /** The subtraction wraps and the result is read as a signed number. */
  function DecodePid(size: U32): int {
    var d := (size - GET_SIZE) % U32_LIMIT;
    if d < U32_LIMIT / 2 then d else d - U32_LIMIT
  }

  /** Pids below 2^31 survive the trip through the size parameter and are never taken for an id query. */
  lemma PidRoundTrip(pid: int)
    requires 0 <= pid < U32_LIMIT / 2
    ensures EncodePid(pid) == 1032 + pid
    ensures DecodePid(EncodePid(pid)) == pid && !IsPidQuery(EncodePid(pid))
  {
    assert GET_SIZE + pid < U32_LIMIT;
  }

  class GetMsg {
    var bufferLen: nat
    var decompressedLen: U32
    const buffer: array<Char>

    constructor ()
      ensures fresh(buffer) && buffer.Length == ENTRY_LEN_LIMIT && bufferLen == 0
    {
      bufferLen, decompressedLen := 0, 0;
      buffer := new Char[ENTRY_LEN_LIMIT](_ => 0);
    }
  }

  datatype WriteMsg =
    | LockRequest(pid: int, id: nat, bufferLen: U32)
    | SetRequest(msg: SetMsg)
    | OtherRequest(size: U32)
  {
    /** Messages are told apart by their size alone. */
    function Size(): U32 {
      match this
      case LockRequest(_, _, _) => LOCK_SIZE
      case SetRequest(_) => SET_SIZE
      case OtherRequest(size) => size
    }

    predicate WellSized() {
      OtherRequest? ==> size != LOCK_SIZE && size != SET_SIZE
    }
  }

  class DataStore {
    var m: Store

    constructor ()
      ensures m == map[]
    {
      m := map[];
    }
  }

  // ----- bw386389.c -----

  const BUF_MAX_COUNT := 100
  const STACK_SIZE := 100

  /** A fresh start with the sizes of the source: every slot empty, every id free. */
  method StartFresh() returns (driver: ClipboardDriver)
    ensures driver.Valid() && fresh(driver.entries) && fresh(driver.available) && fresh(driver.available.value)
    ensures driver.entries.Length == BUF_MAX_COUNT
    ensures driver.Abs().free == seq(STACK_SIZE, i => i)
  {
    driver := new ClipboardDriver(BUF_MAX_COUNT, STACK_SIZE);
    InitExactly(driver.Abs());
    driver.ClipboardInit();
  }

  class ClipboardDriver {
    const entries: array<Entry>
    const available: Stack

    /** Static memory before any request: all zero. */
    constructor (bufMaxCount: nat, stackSize: nat)
      ensures fresh(entries) && fresh(available) && fresh(available.value)
      ensures available.Valid() && entries.Length == bufMaxCount && available.value.Length == stackSize
      ensures Abs() == State(seq(bufMaxCount, _ => ZERO_ENTRY), [], stackSize)
    {
      entries := new Entry[bufMaxCount](_ => ZERO_ENTRY);
      available := new Stack(stackSize);
      new;
      assert entries[..] == seq(bufMaxCount, _ => ZERO_ENTRY);
    }

    function Abs(): State
      requires available.Valid()
      reads entries, available, available.value
    {
      State(entries[..], available.Live(), available.value.Length)
    }

    ghost predicate Valid()
      reads entries, available, available.value
    {
      available.Valid() && Inv(Abs())
    }

    method ClipboardInit()
      requires available.Valid()
      modifies entries, available, available.value
      ensures available.Valid() && Abs() == InitState(old(Abs()))
    {
      available.Init();
      for i := 0 to entries.Length
        invariant available.Valid() && available.Live() == seq(available.value.Length, k => k)
        invariant forall k :: 0 <= k < i ==> entries[k] == old(entries[k]).(slot := Empty, buffer := [])
        invariant forall k :: i <= k < entries.Length ==> entries[k] == old(entries[k])
      {
        entries[i] := entries[i].(slot := Empty, buffer := []);
      }
      assert entries[..] == InitState(old(Abs())).entries;
    }

    method GetLockId(pid: int) returns (id: int)
      ensures id == LockId(entries[..], pid)
    {
      for i := 0 to entries.Length
        invariant LockId(entries[..], pid) == LockFrom(entries[..], pid, i)
      {
        if entries[i].lockingPid == pid && entries[i].slot == Locked {
          return i;
        }
      }
      return -1;
    }

    method DeleteEntry(id: nat)
      requires available.Valid() && id < entries.Length && entries[id].slot == Locked
      modifies entries, available, available.value
      ensures available.Valid()
      ensures Abs() == old(Abs()).(entries := old(entries[..])[id := old(entries[id]).(slot := Empty, buffer := [])],
                                   free := Freed(old(Abs()), id))
    {
      available.Push(id);
      entries[id] := entries[id].(buffer := []);
      entries[id] := entries[id].(slot := Empty);
    }

    method DoRealSet(id: nat, msg: SetMsg)
      requires id < entries.Length && SetMsgOk(msg)
      modifies entries
      ensures entries[..] == old(entries[..])[id := Stored(old(entries[id]), msg)]
    {
      entries[id] := entries[id].(buffer := msg.buffer[..msg.bufferLen]);
      entries[id] := entries[id].(bufferLen := msg.bufferLen);
      entries[id] := entries[id].(decompressedLen := msg.decompressedLen);
      entries[id] := entries[id].(sourcePid := msg.pid);
      entries[id] := entries[id].(slot := Used);
    }

    method DoSet(msg: SetMsg) returns (r: int)
      requires Valid() && SetMsgOk(msg)
      modifies entries, available, available.value
      ensures Valid() && Abs() == Set(old(Abs()), msg).state && r == Set(old(Abs()), msg).reply
    {
      SetKeeps(Abs(), msg);
      if available.IsEmpty() {
        return -1;
      }
      var id := available.Top();
      available.Pop();
      if entries[id].slot == Used || entries[id].slot == Locked {
        return -1;
      }
      DoRealSet(id, msg);
      return id;
    }

    method DoLock(pid: int, id: nat, bufferLen: U32) returns (r: int)
      requires Valid() && id < entries.Length
      modifies entries
      ensures Valid() && Abs() == Lock(old(Abs()), pid, id, bufferLen).state
      ensures r == Lock(old(Abs()), pid, id, bufferLen).reply
    {
      hide Inv;
      LockKeeps(Abs(), pid, id, bufferLen);
      var held := GetLockId(pid);
      if held >= 0 {
        entries[held] := entries[held].(slot := Used);
      }
      assert Abs() == Unlocked(old(Abs()), pid);
      if entries[id].slot == Locked || entries[id].slot != Used {
        return -1;
      }
      if bufferLen < entries[id].decompressedLen {
        return -1;
      }
      entries[id] := entries[id].(slot := Locked);
      entries[id] := entries[id].(lockingPid := pid);
      assert Abs().entries == Lock(old(Abs()), pid, id, bufferLen).state.entries;
      return 0;
    }

    method DoGet(msg: GetMsg, pid: int) returns (r: int)
      requires Valid() && msg.buffer.Length == ENTRY_LEN_LIMIT
      modifies entries, available, available.value, msg, msg.buffer
      ensures Valid() && Abs() == Get(old(Abs()), pid).state
      ensures r == if Get(old(Abs()), pid).reply == None then -1 else 0
      ensures match Get(old(Abs()), pid).reply
              case None => unchanged(msg) && unchanged(msg.buffer)
              case Some(p) => && msg.bufferLen == |p.bytes| <= ENTRY_LEN_LIMIT
                              && msg.buffer[..msg.bufferLen] == p.bytes && msg.decompressedLen == p.decompressedLen
    {
      GetKeeps(Abs(), pid);
      var id := GetLockId(pid);
      if id < 0 {
        return -1;
      }
      ghost var bytes := entries[id].buffer;
      for i := 0 to entries[id].bufferLen
        invariant available.Valid() && Abs() == old(Abs())
        invariant msg.buffer[..i] == bytes[..i]
      {
        msg.buffer[i] := entries[id].buffer[i];
      }
      msg.decompressedLen := entries[id].decompressedLen;
      msg.bufferLen := entries[id].bufferLen;
      DeleteEntry(id);
      return 0;
    }

    /** Reads are either owner queries or hand-overs, told apart by the size. A hand-over to a process
        without a lock answers 1, because the comparison is what gets assigned. */
    method ClipboardRead(size: U32, msg: GetMsg) returns (r: int)
      requires Valid() && msg.buffer.Length == ENTRY_LEN_LIMIT
      modifies entries, available, available.value, msg, msg.buffer
      ensures Valid()
      ensures IsPidQuery(size) ==> Abs() == old(Abs()) && unchanged(msg) && unchanged(msg.buffer)
                                   && r == Owner(old(Abs()), size)
      ensures !IsPidQuery(size) && DecodePid(size) < 0 ==>
                Abs() == old(Abs()) && unchanged(msg) && unchanged(msg.buffer) && r == -1
      ensures !IsPidQuery(size) && DecodePid(size) >= 0 ==>
                var a := Get(old(Abs()), DecodePid(size));
                && Abs() == a.state
                && match a.reply
                   case None => r == 1 && unchanged(msg) && unchanged(msg.buffer)
                   case Some(p) => && r == 0 && msg.bufferLen == |p.bytes| <= ENTRY_LEN_LIMIT
                                   && msg.buffer[..msg.bufferLen] == p.bytes
                                   && msg.decompressedLen == p.decompressedLen
    {
      if IsPidQuery(size) {
        if !(size < entries.Length) {
          return -1;
        } else {
          return entries[size].sourcePid;
        }
      }
      var pid := DecodePid(size);
      if pid < 0 {
        return -1;
      }
      var got := DoGet(msg, pid);
      if got != 0 {
        return 1;
      }
      return 0;
    }

    method ClipboardWrite(msg: WriteMsg) returns (r: int)
      requires Valid() && msg.WellSized()
      requires msg.LockRequest? ==> msg.id < entries.Length
      requires msg.SetRequest? ==> SetMsgOk(msg.msg)
      modifies entries, available, available.value
      ensures Valid()
      ensures match msg
              case LockRequest(pid, id, bufferLen) =>
                Abs() == Lock(old(Abs()), pid, id, bufferLen).state && r == Lock(old(Abs()), pid, id, bufferLen).reply
              case SetRequest(m) => Abs() == Set(old(Abs()), m).state && r == Set(old(Abs()), m).reply
              case OtherRequest(_) => Abs() == old(Abs()) && r == -1
    {
      if msg.Size() == LOCK_SIZE {
        r := DoLock(msg.pid, msg.id, msg.bufferLen);
      } else if msg.Size() == SET_SIZE {
        r := DoSet(msg.msg);
      } else {
        r := -1;
      }
    }

    // ----- live update -----

    /** Publishes the structure and every owned buffer, and frees the buffers. */
    method Save(ds: DataStore)
      requires available.Valid()
      modifies entries, ds
      ensures available.Valid() && ds.m == Saved(old(Abs()), old(ds.m))
    {
      hide BufferName, ImageOf;
      ghost var s := Abs();
      ds.m := ds.m[CLIPBOARD_NAME := Image(ImageOf(Abs()))];
      for i := 0 to entries.Length
        invariant available.Valid()
        invariant forall k :: i <= k < entries.Length ==> entries[k] == s.entries[k]
        invariant ds.m == Published(s.entries, i, old(ds.m)[CLIPBOARD_NAME := Image(ImageOf(s))])
      {
        if entries[i].slot != Empty {
          ds.m := ds.m[BufferName(i) := Bytes(entries[i].buffer)];
          entries[i] := entries[i].(buffer := []);
        }
      }
    }

    /** Takes over the published structure, which must be of this driver's sizes, and fetches and
        deletes the buffers. */
    method Restore(ds: DataStore)
      requires available.Valid()
      requires var image := ImageIn(Abs(), ds.m);
               Shape(image) && |image.entries| == entries.Length && image.stackSize == available.value.Length
      modifies entries, available, available.value, ds
      ensures available.Valid()
      ensures Abs() == Restored(old(Abs()), old(ds.m)).state && ds.m == Restored(old(Abs()), old(ds.m)).store
    {
      hide BufferName, Fetched, Without;
      ghost var image := ImageIn(Abs(), ds.m);
      CopyImage(ImageIn(Abs(), ds.m));
      ds.m := Without(ds.m, CLIPBOARD_NAME);
      ghost var start := ds.m;
      for i := 0 to entries.Length
        invariant available.Valid() && available.Live() == image.free
        invariant entries[..] == Recovered(image.entries, i, start).entries
        invariant ds.m == Recovered(image.entries, i, start).store
      {
        assert entries[i] == Recovered(image.entries, i, start).entries[i] == image.entries[i];
        if entries[i].slot != Empty {
          entries[i] := entries[i].(buffer := Fetched(ds.m, BufferName(i)));
          ds.m := Without(ds.m, BufferName(i));
        }
      }
    }

    /** The structure copy of the retrieve call. */
    method CopyImage(image: State)
      requires Shape(image) && |image.entries| == entries.Length && image.stackSize == available.value.Length
      modifies entries, available, available.value
      ensures available.Valid() && Abs() == image
    {
      for i := 0 to entries.Length
        invariant entries[..i] == image.entries[..i]
      {
        entries[i] := image.entries[i];
      }
      for i := 0 to |image.free|
        invariant available.value[..i] == image.free[..i]
        invariant entries[..] == image.entries
      {
        available.value[i] := image.free[i];
      }
      available.current := |image.free|;
    }
  }

  /** A whole live update: the old instance saves, a new one restores. The new driver is in the state
      the old one was in, and the store keeps no name of the clipboard's. */
  method Update(running: ClipboardDriver, replacement: ClipboardDriver, ds: DataStore)
    requires running.Valid() && replacement.available.Valid()
    requires running.entries != replacement.entries && running.available != replacement.available
    requires running.available.value != replacement.available.value
    requires replacement.entries.Length == running.entries.Length
    requires replacement.available.value.Length == running.available.value.Length
    modifies running.entries, replacement.entries, replacement.available, replacement.available.value, ds
    ensures replacement.Valid() && replacement.Abs() == old(running.Abs())
    ensures var s := old(running.Abs());
            ds.m == old(ds.m) - ({CLIPBOARD_NAME} + Names(s.entries, |s.entries|))
  {
    ghost var s := running.Abs();
    LiveUpdateRoundTrip(s, replacement.Abs(), ds.m);
    SavedImage(s, replacement.Abs(), ds.m);
    running.Save(ds);
    replacement.Restore(ds);
  }
}
