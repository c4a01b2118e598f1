/** The state of the clipboard driver and its request handlers, as functions on that state. */
module Clipboard {
  import opened Chars

  const ENTRY_LEN_LIMIT := 1024

  datatype Option<T> = None | Some(value: T)

  datatype Slot = Empty | Used | Locked

  /** One slot of the table. `buffer` holds the bytes the slot owns; an empty slot owns none. */
  datatype Entry = Entry(bufferLen: nat, decompressedLen: U32, sourcePid: int, lockingPid: int,
                         buffer: seq<Char>, slot: Slot)

  const ZERO_ENTRY := Entry(0, 0, 0, 0, [], Empty)

  /** The slot table and the live part of the stack of free ids, top last. The table and the stack
      have sizes of their own. */
  datatype State = State(entries: seq<Entry>, free: seq<nat>, stackSize: nat)

  datatype SetMsg = SetMsg(pid: int, bufferLen: nat, decompressedLen: U32, buffer: seq<Char>)

  predicate SetMsgOk(msg: SetMsg) {
    msg.bufferLen <= ENTRY_LEN_LIMIT == |msg.buffer|
  }

  // ----- handlers -----

  /** The id the linear search for a lock held by `pid` stops at, looking from `from` on; -1 if none. */
  function LockFrom(entries: seq<Entry>, pid: int, from: nat): (id: int)
    requires from <= |entries|
    ensures id == -1 || from <= id < |entries|
    ensures id >= 0 ==> entries[id].slot == Locked && entries[id].lockingPid == pid
    ensures forall i :: from <= i < (if id < 0 then |entries| else id) ==>
              !(entries[i].slot == Locked && entries[i].lockingPid == pid)
    decreases |entries| - from
  {
    if from == |entries| then -1
    else if entries[from].lockingPid == pid && entries[from].slot == Locked then from
    else LockFrom(entries, pid, from + 1)
  }

  function LockId(entries: seq<Entry>, pid: int): int {
    LockFrom(entries, pid, 0)
  }

  /** What the handlers need to stay inside their arrays. */
  predicate Shape(s: State) {
    && |s.free| <= s.stackSize
    && forall i :: 0 <= i < |s.free| ==> s.free[i] < |s.entries|
  }

  function InitState(s: State): State {
    s.(entries := seq(|s.entries|, i requires 0 <= i < |s.entries| => s.entries[i].(slot := Empty, buffer := [])),
       free := seq(s.stackSize, i => i))
  }

  function Stored(e: Entry, msg: SetMsg): Entry
    requires SetMsgOk(msg)
  {
    e.(bufferLen := msg.bufferLen, decompressedLen := msg.decompressedLen, sourcePid := msg.pid,
       buffer := msg.buffer[..msg.bufferLen], slot := Used)
  }

  /** The state after a request and what is answered. */
  datatype Answer<T> = Answer(state: State, reply: T)

  /** The answer is the id used, or -1. */
  function Set(s: State, msg: SetMsg): Answer<int>
    requires Shape(s) && SetMsgOk(msg)
  {
    if s.free == [] then Answer(s, -1) else
    var id := s.free[|s.free| - 1];
    var popped := s.(free := s.free[..|s.free| - 1]);
    if s.entries[id].slot != Empty then Answer(popped, -1)
    else Answer(popped.(entries := s.entries[id := Stored(s.entries[id], msg)]), id)
  }

  function Unlocked(s: State, pid: int): State {
    var id := LockId(s.entries, pid);
    if id < 0 then s else s.(entries := s.entries[id := s.entries[id].(slot := Used)])
  }

  /** The answer is the return code of the lock request; a lock already held is given up in any case. */
  function Lock(s: State, pid: int, id: nat, bufferLen: nat): Answer<int>
    requires id < |s.entries|
  {
    var u := Unlocked(s, pid);
    if u.entries[id].slot != Used || bufferLen < u.entries[id].decompressedLen then Answer(u, -1)
    else Answer(u.(entries := u.entries[id := u.entries[id].(slot := Locked, lockingPid := pid)]), 0)
  }

  datatype Payload = Payload(bytes: seq<Char>, decompressedLen: U32)

  function PayloadOf(e: Entry): Payload {
    Payload(e.buffer, e.decompressedLen)
  }

  function Freed(s: State, id: nat): seq<nat> {
    if |s.free| < s.stackSize then s.free + [id] else s.free
  }

  /** The answer is what is handed over. */
  function Get(s: State, pid: int): Answer<Option<Payload>> {
    var id := LockId(s.entries, pid);
    if id < 0 then Answer(s, None)
    else Answer(s.(entries := s.entries[id := s.entries[id].(slot := Empty, buffer := [])], free := Freed(s, id)),
                Some(PayloadOf(s.entries[id])))
  }

  /** The owner recorded in a slot, even a stale one; -1 for an id outside the table. */
  function Owner(s: State, id: nat): int {
    if id < |s.entries| then s.entries[id].sourcePid else -1
  }

  // ----- the invariant -----

  predicate NoDuplicates<T(==)>(a: seq<T>) {
    forall i, j :: 0 <= i < j < |a| ==> a[i] != a[j]
  }

  /** The live stack holds exactly the empty slots, each once. */
  predicate FreeListExact(s: State) {
    && Shape(s)
    && NoDuplicates(s.free)
    && forall id :: 0 <= id < |s.entries| ==> (id in s.free <==> s.entries[id].slot == Empty)
  }

  predicate OneLockPerPid(entries: seq<Entry>) {
    forall i, j :: 0 <= i < j < |entries| && entries[i].slot == Locked && entries[j].slot == Locked ==>
                     entries[i].lockingPid != entries[j].lockingPid
  }

  predicate EntryOk(e: Entry) {
    && (e.slot == Empty ==> e.buffer == [])
    && (e.slot != Empty ==> |e.buffer| == e.bufferLen <= ENTRY_LEN_LIMIT)
  }

  predicate Inv(s: State) {
    && FreeListExact(s)
    && s.stackSize == |s.entries|
    && OneLockPerPid(s.entries)
    && forall i :: 0 <= i < |s.entries| ==> EntryOk(s.entries[i])
  }

  // ----- what each handler keeps and does -----

  /** A fresh driver meets the invariant exactly when the stack is as large as the table. */
  lemma InitExactly(s: State)
    ensures FreeListExact(InitState(s)) <==> s.stackSize == |s.entries|
    ensures Inv(InitState(s)) <==> s.stackSize == |s.entries|
  {
    var t := InitState(s);
    if s.stackSize < |s.entries| {
      assert t.entries[s.stackSize].slot == Empty && s.stackSize !in t.free;
    } else if s.stackSize > |s.entries| {
      assert t.free[|s.entries|] == |s.entries|;
    } else {
      assert forall id :: 0 <= id < |t.entries| ==> t.free[id] == id && id in t.free;
    }
  }

  lemma TheLock(entries: seq<Entry>, pid: int, id: nat)
    requires OneLockPerPid(entries) && id < |entries|
    requires entries[id].slot == Locked && entries[id].lockingPid == pid
    ensures LockId(entries, pid) == id
  {
  }

  lemma TopIsFree(s: State)
    requires FreeListExact(s) && s.free != []
    ensures s.entries[s.free[|s.free| - 1]].slot == Empty
  {
    assert s.free[|s.free| - 1] in s.free;
  }

  /** Every id out of the table or in use means no free id is left. */
  lemma FullExactly(s: State)
    requires FreeListExact(s)
    ensures s.free == [] <==> forall id :: 0 <= id < |s.entries| ==> s.entries[id].slot != Empty
  {
    if s.free != [] {
      TopIsFree(s);
    }
  }

  /** Storing keeps the invariant; it fails exactly when every slot is taken, so an id taken from the
      stack is never found in use. */
  lemma SetKeeps(s: State, msg: SetMsg)
    requires Inv(s) && SetMsgOk(msg)
    ensures Inv(Set(s, msg).state)
    ensures Set(s, msg).reply == -1 <==> s.free == []
    ensures s.free == [] ==> Set(s, msg).state == s
    ensures s.free != [] ==>
              var id := Set(s, msg).reply;
              0 <= id < |s.entries| && s.entries[id].slot == Empty
              && Set(s, msg).state.entries == s.entries[id := Stored(s.entries[id], msg)]
  {
    if s.free != [] {
      TopIsFree(s);
      var n := |s.free| - 1;
      var id := s.free[n];
      var t := Set(s, msg).state;
      forall i | 0 <= i < |t.entries|
        ensures i in t.free <==> t.entries[i].slot == Empty
      {
        if i in s.free && i != id {
          var k :| 0 <= k < |s.free| && s.free[k] == i;
          assert t.free[k] == i;
        }
      }
    }
  }

  lemma UnlockedKeeps(s: State, pid: int)
    requires Inv(s)
    ensures Inv(Unlocked(s, pid))
    ensures Unlocked(s, pid).free == s.free && Unlocked(s, pid).stackSize == s.stackSize
    ensures |Unlocked(s, pid).entries| == |s.entries|
    ensures forall i :: 0 <= i < |s.entries| ==>
              var held := s.entries[i].slot == Locked && s.entries[i].lockingPid == pid;
              Unlocked(s, pid).entries[i] == if held then s.entries[i].(slot := Used) else s.entries[i]
    ensures LockId(Unlocked(s, pid).entries, pid) == -1
  {
    var id := LockId(s.entries, pid);
    if id >= 0 {
      assert s.entries[id].slot == Locked;
      assert id !in s.free;
    }
  }

  /** Asking for a lock keeps the invariant. It succeeds exactly when the entry is in use, nobody else
      holds it and the buffer is large enough; in every case the caller ends up holding the
      requested entry or nothing. */
  lemma LockKeeps(s: State, pid: int, id: nat, bufferLen: nat)
    requires Inv(s) && id < |s.entries|
    ensures Inv(Lock(s, pid, id, bufferLen).state)
    ensures |Lock(s, pid, id, bufferLen).state.entries| == |s.entries|
    ensures Lock(s, pid, id, bufferLen).reply in {0, -1}
    ensures Lock(s, pid, id, bufferLen).reply == 0
       <==> var e := s.entries[id];
            && (e.slot == Used || (e.slot == Locked && e.lockingPid == pid))
            && e.decompressedLen <= bufferLen
    ensures LockId(Lock(s, pid, id, bufferLen).state.entries, pid)
            == if Lock(s, pid, id, bufferLen).reply == 0 then id else -1
    ensures forall i :: 0 <= i < |s.entries| ==>
              var held := s.entries[i].slot == Locked && s.entries[i].lockingPid == pid;
              Lock(s, pid, id, bufferLen).state.entries[i]
              == if i == id && Lock(s, pid, id, bufferLen).reply == 0
                 then s.entries[i].(slot := Locked, lockingPid := pid)
                 else if held then s.entries[i].(slot := Used) else s.entries[i]
  {
    UnlockedKeeps(s, pid);
    var u := Unlocked(s, pid);
    if Lock(s, pid, id, bufferLen).reply == 0 {
      var t := Lock(s, pid, id, bufferLen).state;
      assert t.entries == u.entries[id := u.entries[id].(slot := Locked, lockingPid := pid)];
      assert id !in u.free;
      forall i | 0 <= i < |t.entries| && i != id && t.entries[i].slot == Locked
        ensures t.entries[i].lockingPid != pid
      {
        assert u.entries[i] == t.entries[i];
      }
      assert OneLockPerPid(t.entries);
      TheLock(t.entries, pid, id);
    }
  }

  /** Handing over keeps the invariant. It succeeds exactly when the caller holds a lock; that slot is
      emptied and its id is pushed, never dropped. */
  lemma GetKeeps(s: State, pid: int)
    requires Inv(s)
    ensures Inv(Get(s, pid).state)
    ensures Get(s, pid).reply == None <==> LockId(s.entries, pid) == -1
    ensures Get(s, pid).reply == None ==> Get(s, pid).state == s
    ensures Get(s, pid).reply != None ==>
              var id := LockId(s.entries, pid);
              && Get(s, pid).reply == Some(PayloadOf(s.entries[id]))
              && Get(s, pid).state.entries == s.entries[id := s.entries[id].(slot := Empty, buffer := [])]
              && Get(s, pid).state.free == s.free + [id]
  {
    var id := LockId(s.entries, pid);
    if id >= 0 {
      assert id !in s.free;
      assert |s.free| < |s.entries| by { FewerThanTable(s, id); }
      var t := Get(s, pid).state;
      forall i | 0 <= i < |t.entries|
        ensures i in t.free <==> t.entries[i].slot == Empty
      {
        assert t.free[|s.free|] == id;
        if i in s.free {
          var k :| 0 <= k < |s.free| && s.free[k] == i;
          assert t.free[k] == i;
        }
      }
    }
  }

  function Range(n: nat): (r: set<nat>)
    ensures forall x: nat :: x in r <==> x < n
    ensures |r| == n
  {
    if n == 0 then {} else Range(n - 1) + {n - 1}
  }

  function Members(a: seq<nat>): (r: set<nat>)
    ensures forall x :: x in r <==> x in a
  {
    if a == [] then {} else Members(a[..|a| - 1]) + {a[|a| - 1]}
  }

  lemma {:induction false} MembersSize(a: seq<nat>)
    requires NoDuplicates(a)
    ensures |Members(a)| == |a|
  {
    if a == [] {
    } else {
      var n := |a| - 1;
      MembersSize(a[..n]);
      assert a[n] !in a[..n];
    }
  }

  lemma SubsetSize<T>(a: set<T>, b: set<T>)
    requires a <= b
    ensures |a| <= |b|
  {
    assert b == a + (b - a);
  }

  /** With a slot in use, the stack has room. */
  lemma FewerThanTable(s: State, id: nat)
    requires FreeListExact(s) && id < |s.entries| && id !in s.free
    ensures |s.free| < |s.entries|
  {
    hide Members, Range;
    MembersSize(s.free);
    assert |Members(s.free) + {id}| == |s.free| + 1;
    SubsetSize(Members(s.free) + {id}, Range(|s.entries|));
  }
}
