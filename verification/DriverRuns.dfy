/** Runs of the driver: requests of many processes in any order, with live updates in between. */
module DriverRuns {
  import opened Clipboard
  import opened LiveUpdate

  /** One request as the driver handles it, or a live update through a data store. */
  datatype Step =
    | DoSet(msg: SetMsg)
    | DoLock(pid: int, id: nat, bufferLen: nat)
    | DoGet(pid: int)
    | DoQuery(id: nat)
    | DoUpdate(own: State, store: Store)

  datatype Reply = Reply(code: int, handed: Option<Payload>)

  /** What the library guarantees about the requests it sends. */
  predicate StepOk(size: nat, step: Step) {
    match step
    case DoSet(msg) => SetMsgOk(msg)
    case DoLock(_, id, _) => id < size
    case _ => true
  }

  /** The driver's answer to a step, as its read and write entry points give it: a hand-over without a
      lock answers 1. Every step keeps the invariant and the size of the table. */
  function Next(s: State, step: Step): (a: Answer<Reply>)
    requires Inv(s) && StepOk(|s.entries|, step)
    ensures Inv(a.state) && |a.state.entries| == |s.entries|
  {
    match step
    case DoSet(msg) =>
      SetKeeps(s, msg);
      Answer(Set(s, msg).state, Reply(Set(s, msg).reply, None))
    case DoLock(pid, id, bufferLen) =>
      LockKeeps(s, pid, id, bufferLen);
      Answer(Lock(s, pid, id, bufferLen).state, Reply(Lock(s, pid, id, bufferLen).reply, None))
    case DoGet(pid) =>
      GetKeeps(s, pid);
      Answer(Get(s, pid).state, Reply(if Get(s, pid).reply == None then 1 else 0, Get(s, pid).reply))
    case DoQuery(id) =>
      Answer(s, Reply(Owner(s, id), None))
    case DoUpdate(own, store) =>
      LiveUpdateRoundTrip(s, own, store);
      Answer(Restored(own, Saved(s, store)).state, Reply(0, None))
  }

  /** The owner answered for a slot is the one of the last store into it; handing over, locking, querying and
      live updates leave it, so an empty slot keeps naming its last owner. Outside the table it is -1. */
  lemma OwnerRemembered(s: State, step: Step, id: nat)
    requires Inv(s) && StepOk(|s.entries|, step)
    ensures Next(s, DoQuery(id)).state == s && Next(s, DoQuery(id)).reply.code == Owner(s, id)
    ensures Owner(Next(s, step).state, id)
            == if step.DoSet? && Next(s, step).reply.code == id then step.msg.pid else Owner(s, id)
    ensures id >= |s.entries| ==> Owner(s, id) == -1
  {
    match step
    case DoSet(msg) => SetKeeps(s, msg);
    case DoLock(pid, k, bufferLen) => LockKeeps(s, pid, k, bufferLen);
    case DoGet(pid) => GetKeeps(s, pid);
    case DoQuery(_) =>
    case DoUpdate(own, store) => LiveUpdateRoundTrip(s, own, store);
  }

  predicate StepsOk(size: nat, steps: seq<Step>) {
    forall i :: 0 <= i < |steps| ==> StepOk(size, steps[i])
  }

  datatype Trace = Trace(state: State, replies: seq<Reply>)

  /** The state after a run and the replies given, one for each step. */
  function Run(s: State, steps: seq<Step>): (t: Trace)
    requires Inv(s) && StepsOk(|s.entries|, steps)
    ensures Inv(t.state) && |t.state.entries| == |s.entries| && |t.replies| == |steps|
    decreases |steps|
  {
    if steps == [] then Trace(s, []) else
    var a := Next(s, steps[0]);
    var rest := Run(a.state, steps[1..]);
    Trace(rest.state, [a.reply] + rest.replies)
  }

  /** The states a freshly started driver with `size` slots can get into. */
  ghost predicate Reachable(s: State, size: nat) {
    exists steps :: ReachedBy(s, size, steps)
  }

  function Fresh(size: nat): (s: State)
    ensures Inv(s) && |s.entries| == size
  {
    var zero := State(seq(size, _ => ZERO_ENTRY), [], size);
    InitExactly(zero);
    InitState(zero)
  }

  ghost predicate ReachedBy(s: State, size: nat, steps: seq<Step>) {
    StepsOk(size, steps) && s == Run(Fresh(size), steps).state
  }

  // ----- counting slots -----

  function Count(entries: seq<Entry>, slot: Slot): nat {
    if entries == [] then 0
    else Count(entries[..|entries| - 1], slot) + (if entries[|entries| - 1].slot == slot then 1 else 0)
  }

  lemma {:induction false} CountsAddUp(entries: seq<Entry>)
    ensures Count(entries, Empty) + Count(entries, Used) + Count(entries, Locked) == |entries|
    decreases |entries|
  {
    if entries == [] {
    } else {
      CountsAddUp(entries[..|entries| - 1]);
    }
  }

  function EmptyIds(entries: seq<Entry>): (r: set<nat>)
    ensures forall i: nat :: i in r <==> i < |entries| && entries[i].slot == Empty
    ensures |r| == Count(entries, Empty)
  {
    if entries == [] then {} else
    var n := |entries| - 1;
    var r := EmptyIds(entries[..n]);
    if entries[n].slot == Empty then r + {n} else r
  }

  lemma FreeCount(s: State)
    requires Inv(s)
    ensures |s.free| == Count(s.entries, Empty)
    ensures Count(s.entries, Empty) + Count(s.entries, Used) + Count(s.entries, Locked) == |s.entries|
  {
    hide Count, Members, EmptyIds, NoDuplicates, OneLockPerPid;
    CountsAddUp(s.entries);
    MembersSize(s.free);
    assert Members(s.free) == EmptyIds(s.entries);
  }

  /** In every reachable state the live stack lists exactly the empty slots, each once, every process
      holds at most one lock, and free, used and locked slots add up to the table. */
  lemma ReachableStates(s: State, size: nat)
    requires Reachable(s, size)
    ensures |s.entries| == size && Inv(s)
    ensures |s.free| == Count(s.entries, Empty)
    ensures |s.free| + Count(s.entries, Used) + Count(s.entries, Locked) == size
  {
    hide Count, Run;
    var steps :| ReachedBy(s, size, steps);
    FreeCount(s);
  }

  // ----- an entry nobody asks for stays as it is -----

  /** Steps that could take or give up a lock held by `pid`. */
  predicate ByHolder(step: Step, pid: int) {
    (step.DoLock? && step.pid == pid) || (step.DoGet? && step.pid == pid)
  }

  predicate NoneByHolder(steps: seq<Step>, pid: int) {
    forall i :: 0 <= i < |steps| ==> !ByHolder(steps[i], pid)
  }

  predicate NoneAsksFor(steps: seq<Step>, id: int) {
    forall i :: 0 <= i < |steps| ==> !(steps[i].DoLock? && steps[i].id == id)
  }

  lemma LockedStaysStep(s: State, step: Step, id: nat, pid: int)
    requires Inv(s) && StepOk(|s.entries|, step) && id < |s.entries|
    requires s.entries[id].slot == Locked && s.entries[id].lockingPid == pid
    requires !ByHolder(step, pid)
    ensures Next(s, step).state.entries[id] == s.entries[id]
  {
    match step
    case DoSet(msg) => SetKeeps(s, msg);
    case DoLock(other, wanted, bufferLen) => LockKeeps(s, other, wanted, bufferLen);
    case DoGet(other) =>
      GetKeeps(s, other);
    case DoQuery(_) =>
    case DoUpdate(own, store) => LiveUpdateRoundTrip(s, own, store);
  }

  /** Lock stability: whatever other processes do in whatever order, an entry locked by `pid` keeps
      its bytes and its lock, and the next hand-over to `pid` gives exactly those bytes and empties
      that slot. */
  lemma {:induction false} LockStability(s: State, steps: seq<Step>, id: nat, pid: int)
    requires Inv(s) && StepsOk(|s.entries|, steps) && id < |s.entries|
    requires s.entries[id].slot == Locked && s.entries[id].lockingPid == pid
    requires NoneByHolder(steps, pid)
    ensures var t := Run(s, steps).state;
            && t.entries[id] == s.entries[id]
            && Get(t, pid).reply == Some(PayloadOf(s.entries[id]))
            && Get(t, pid).state.entries[id].slot == Empty
    decreases |steps|
  {
    if steps == [] {
      TheLock(s.entries, pid, id);
      GetKeeps(s, pid);
    } else {
      LockedStaysStep(s, steps[0], id, pid);
      LockStability(Next(s, steps[0]).state, steps[1..], id, pid);
    }
  }

  /** An unlocked entry stays as it is as long as nobody asks to lock it. */
  lemma {:induction false} UsedStability(s: State, steps: seq<Step>, id: nat)
    requires Inv(s) && StepsOk(|s.entries|, steps) && id < |s.entries|
    requires s.entries[id].slot == Used && NoneAsksFor(steps, id)
    ensures Run(s, steps).state.entries[id] == s.entries[id]
    decreases |steps|
  {
    if steps == [] {
    } else {
      var step := steps[0];
      match step {
        case DoSet(msg) => SetKeeps(s, msg);
        case DoLock(pid, other, bufferLen) => LockKeeps(s, pid, other, bufferLen);
        case DoGet(pid) => GetKeeps(s, pid);
        case DoQuery(_) =>
        case DoUpdate(own, store) => LiveUpdateRoundTrip(s, own, store);
      }
      UsedStability(Next(s, step).state, steps[1..], id);
    }
  }

  /** Stores `msg`, lets `between` happen and asks for the lock; the id used and the answer. */
  function StoreAndLock(s: State, msg: SetMsg, between: seq<Step>, pid: int, bufferLen: nat): (r: (nat, Answer<Reply>))
    requires Inv(s) && s.free != [] && SetMsgOk(msg) && StepsOk(|s.entries|, between)
    ensures r.0 == Set(s, msg).reply < |s.entries|
    ensures Inv(r.1.state) && |r.1.state.entries| == |s.entries|
  {
    SetKeeps(s, msg);
    var stored := Next(s, DoSet(msg));
    (stored.reply.code, Next(Run(stored.state, between).state, DoLock(pid, stored.reply.code, bufferLen)))
  }

  /** From store to hand-over. An entry is stored, nobody asks for it until `pid` does, and `pid` does
      nothing else about locks until it fetches. The lock succeeds exactly when the announced size fits
      the buffer, and then exactly the stored bytes are handed over and the slot is empty again. */
  lemma StoredThenDelivered(s: State, msg: SetMsg, between: seq<Step>, pid: int, bufferLen: nat, waiting: seq<Step>)
    requires Inv(s) && s.free != [] && SetMsgOk(msg)
    requires StepsOk(|s.entries|, between) && NoneAsksFor(between, Set(s, msg).reply)
    requires StepsOk(|s.entries|, waiting) && NoneByHolder(waiting, pid)
    ensures var (id, lock) := StoreAndLock(s, msg, between, pid, bufferLen);
            && (lock.reply.code == 0 <==> msg.decompressedLen <= bufferLen)
            && (lock.reply.code == 0 ==>
                  var got := Next(Run(lock.state, waiting).state, DoGet(pid));
                  && got.reply.handed == Some(Payload(msg.buffer[..msg.bufferLen], msg.decompressedLen))
                  && got.state.entries[id].slot == Empty)
  {
    hide Run, NoneAsksFor, NoneByHolder, StepsOk;
    SetKeeps(s, msg);
    var stored := Next(s, DoSet(msg));
    var id := stored.reply.code;
    UsedStability(stored.state, between, id);
    var before := Run(stored.state, between).state;
    LockKeeps(before, pid, id, bufferLen);
    var lock := Next(before, DoLock(pid, id, bufferLen));
    if lock.reply.code == 0 {
      LockStability(lock.state, waiting, id, pid);
    }
  }

  // ----- nothing is lost, nothing is delivered twice -----

  function One(e: Entry): multiset<Payload> {
    if e.slot == Empty then multiset{} else multiset{PayloadOf(e)}
  }

  /** The payloads the table holds. */
  function Contents(entries: seq<Entry>): multiset<Payload> {
    if entries == [] then multiset{} else Contents(entries[..|entries| - 1]) + One(entries[|entries| - 1])
  }

  lemma AddBoth<T>(a: multiset<T>, b: multiset<T>, c: multiset<T>, d: multiset<T>, x: multiset<T>)
    requires a + b == c + d
    ensures (a + x) + b == (c + x) + d
  {
    assert (a + x) + b == (a + b) + x;
    assert (c + x) + d == (c + d) + x;
  }

  lemma Chain<T>(c0: multiset<T>, in0: multiset<T>, out0: multiset<T>, c1: multiset<T>,
                 ins: multiset<T>, outs: multiset<T>, c2: multiset<T>)
    requires c0 + in0 == out0 + c1 && c1 + ins == outs + c2
    ensures c0 + (in0 + ins) == (out0 + outs) + c2
  {
    assert c0 + (in0 + ins) == (c0 + in0) + ins;
    assert (out0 + c1) + ins == out0 + (c1 + ins);
    assert out0 + (outs + c2) == (out0 + outs) + c2;
  }

  lemma {:induction false} ContentsUpdate(entries: seq<Entry>, i: nat, e: Entry)
    requires i < |entries|
    ensures Contents(entries[i := e]) + One(entries[i]) == Contents(entries) + One(e)
    decreases |entries|
  {
    hide One;
    var n := |entries| - 1;
    var updated := entries[i := e];
    if i == n {
      assert updated[..n] == entries[..n];
    } else {
      ContentsUpdate(entries[..n], i, e);
      assert updated[..n] == entries[..n][i := e];
      AddBoth(Contents(updated[..n]), One(entries[i]), Contents(entries[..n]), One(e), One(entries[n]));
    }
  }

  lemma {:induction false} SameContents(a: seq<Entry>, b: seq<Entry>)
    requires |a| == |b| && forall i :: 0 <= i < |a| ==> One(a[i]) == One(b[i])
    ensures Contents(a) == Contents(b)
    decreases |a|
  {
    if a == [] {
    } else {
      SameContents(a[..|a| - 1], b[..|b| - 1]);
    }
  }

  function Inserted(step: Step, reply: Reply): multiset<Payload> {
    if step.DoSet? && reply.code >= 0 && step.msg.bufferLen <= |step.msg.buffer| then
      multiset{Payload(step.msg.buffer[..step.msg.bufferLen], step.msg.decompressedLen)}
    else multiset{}
  }

  function Delivered(reply: Reply): multiset<Payload> {
    if reply.handed.Some? then multiset{reply.handed.value} else multiset{}
  }

  lemma ConservationSet(s: State, msg: SetMsg)
    requires Inv(s) && SetMsgOk(msg)
    ensures var a := Next(s, DoSet(msg));
            Contents(a.state.entries) == Contents(s.entries) + Inserted(DoSet(msg), a.reply)
  {
    hide Contents;
    SetKeeps(s, msg);
    if s.free != [] {
      var id := Set(s, msg).reply;
      ContentsUpdate(s.entries, id, Stored(s.entries[id], msg));
    }
  }

  lemma ConservationGet(s: State, pid: int)
    requires Inv(s)
    ensures var a := Next(s, DoGet(pid));
            Contents(s.entries) == Delivered(a.reply) + Contents(a.state.entries)
  {
    hide Contents, Inv, LockFrom;
    GetKeeps(s, pid);
    var id := LockId(s.entries, pid);
    if id >= 0 {
      ContentsUpdate(s.entries, id, s.entries[id].(slot := Empty, buffer := []));
      var given, left := multiset{PayloadOf(s.entries[id])}, Contents(Get(s, pid).state.entries);
      assert left + given == Contents(s.entries) + multiset{};
      assert given + left == left + given;
    }
  }

  lemma ConservationLock(s: State, pid: int, id: nat, bufferLen: nat)
    requires Inv(s) && id < |s.entries|
    ensures Contents(Lock(s, pid, id, bufferLen).state.entries) == Contents(s.entries)
  {
    hide Contents, Inv;
    LockKeeps(s, pid, id, bufferLen);
    SameContents(s.entries, Lock(s, pid, id, bufferLen).state.entries);
  }

  lemma ConservationStep(s: State, step: Step)
    requires Inv(s) && StepOk(|s.entries|, step)
    ensures var a := Next(s, step);
            Contents(s.entries) + Inserted(step, a.reply) == Delivered(a.reply) + Contents(a.state.entries)
  {
    hide Contents, Inv, Lock, Set, Get;
    match step
    case DoSet(msg) => ConservationSet(s, msg);
    case DoLock(pid, id, bufferLen) => ConservationLock(s, pid, id, bufferLen);
    case DoGet(pid) => ConservationGet(s, pid);
    case DoQuery(_) =>
    case DoUpdate(own, store) => LiveUpdateRoundTrip(s, own, store);
  }

  function AllInserted(steps: seq<Step>, replies: seq<Reply>): multiset<Payload>
    requires |steps| == |replies|
  {
    if steps == [] then multiset{} else Inserted(steps[0], replies[0]) + AllInserted(steps[1..], replies[1..])
  }

  function AllDelivered(replies: seq<Reply>): multiset<Payload> {
    if replies == [] then multiset{} else Delivered(replies[0]) + AllDelivered(replies[1..])
  }

  /** Conservation over any run: what was there and what was stored is what was delivered and what is
      still there, counted with multiplicity. Nothing is lost and nothing is delivered twice. */
  lemma {:induction false} Conservation(s: State, steps: seq<Step>)
    requires Inv(s) && StepsOk(|s.entries|, steps)
    ensures var t := Run(s, steps);
            Contents(s.entries) + AllInserted(steps, t.replies) == AllDelivered(t.replies) + Contents(t.state.entries)
    decreases |steps|
  {
    hide Contents, Inserted, Delivered, Next, Inv, StepOk;
    if steps == [] {
    } else {
      var a := Next(s, steps[0]);
      ConservationStep(s, steps[0]);
      Conservation(a.state, steps[1..]);
      var t := Run(a.state, steps[1..]);
      Chain(Contents(s.entries), Inserted(steps[0], a.reply), Delivered(a.reply), Contents(a.state.entries),
            AllInserted(steps[1..], t.replies), AllDelivered(t.replies), Contents(t.state.entries));
      assert Run(s, steps) == Trace(t.state, [a.reply] + t.replies);
      assert ([a.reply] + t.replies)[1..] == t.replies;
    }
  }

  lemma {:induction false} ContentsSize(entries: seq<Entry>)
    ensures |Contents(entries)| == Count(entries, Used) + Count(entries, Locked)
    decreases |entries|
  {
    if entries == [] {
    } else {
      ContentsSize(entries[..|entries| - 1]);
    }
  }

  lemma {:induction false} FreshIsEmpty(size: nat, n: nat)
    requires n <= size
    ensures Contents(Fresh(size).entries[..n]) == multiset{}
  {
    if n == 0 {
    } else {
      FreshIsEmpty(size, n - 1);
      assert Fresh(size).entries[..n][..n - 1] == Fresh(size).entries[..n - 1];
    }
  }

  lemma SumOfBoth<T>(whole: multiset<T>, a: multiset<T>, b: multiset<T>)
    requires multiset{} + whole == a + b
    ensures |whole| == |a| + |b| && a <= whole
  {
    assert whole == a + b;
  }

  /** From a fresh start: entries stored minus entries delivered is the number of slots in use, and
      whatever is delivered had been stored, no more often than it was stored. */
  lemma DeliveryCounts(size: nat, steps: seq<Step>)
    requires StepsOk(size, steps)
    ensures var t := Run(Fresh(size), steps);
            && |AllInserted(steps, t.replies)| - |AllDelivered(t.replies)|
               == Count(t.state.entries, Used) + Count(t.state.entries, Locked)
            && AllDelivered(t.replies) <= AllInserted(steps, t.replies)
  {
    hide Contents, AllInserted, AllDelivered, Count, Inv, StepOk;
    var t := Run(Fresh(size), steps);
    Conservation(Fresh(size), steps);
    FreshIsEmpty(size, size);
    assert Fresh(size).entries[..size] == Fresh(size).entries;
    ContentsSize(t.state.entries);
    SumOfBoth(AllInserted(steps, t.replies), AllDelivered(t.replies), Contents(t.state.entries));
  }

  // ----- refinement of a map -----

  /** An entry as a client thinks of it. */
  datatype Item = Item(owner: int, payload: Payload, holder: Option<int>)

  function ItemOf(e: Entry): Item {
    Item(e.sourcePid, PayloadOf(e), if e.slot == Locked then Some(e.lockingPid) else None)
  }

  /** The clipboard as a map from ids to items. */
  function Items(s: State): map<nat, Item> {
    map id: nat | id < |s.entries| && s.entries[id].slot != Empty :: ItemOf(s.entries[id])
  }

  /** The map with every lock of `pid` given up. */
  function Released(m: map<nat, Item>, pid: int): map<nat, Item> {
    map id | id in m :: if m[id].holder == Some(pid) then m[id].(holder := None) else m[id]
  }

  /** The clipboard as a map: what each step may do and answer. Neither the stack, nor the search
      order, nor the stale fields of empty slots appear. */
  ghost predicate MapStep(m: map<nat, Item>, size: nat, step: Step, reply: Reply, m': map<nat, Item>) {
    match step
    case DoSet(msg) =>
      SetMsgOk(msg) && reply.handed == None &&
      if reply.code < 0 then
        reply.code == -1 && m' == m && forall id :: 0 <= id < size ==> id in m
      else
        && reply.code !in m && reply.code < size
        && m' == m[reply.code := Item(msg.pid, Payload(msg.buffer[..msg.bufferLen], msg.decompressedLen), None)]
    case DoLock(pid, id, bufferLen) =>
      var freed := Released(m, pid);
      if id in m && freed[id].holder == None && m[id].payload.decompressedLen <= bufferLen then
        reply == Reply(0, None) && m' == freed[id := freed[id].(holder := Some(pid))]
      else
        reply == Reply(-1, None) && m' == freed
    case DoGet(pid) =>
      if reply.handed == None then
        reply.code == 1 && m' == m && forall id :: id in m ==> m[id].holder != Some(pid)
      else
        reply.code == 0
        && exists id :: id in m && m[id].holder == Some(pid) && m[id].payload == reply.handed.value && m' == m - {id}
    case DoQuery(id) =>
      m' == m && reply.handed == None
      && (id in m ==> reply.code == m[id].owner) && (id >= size ==> reply.code == -1)
    case DoUpdate(_, _) =>
      m' == m && reply == Reply(0, None)
  }

  /** Every step of the driver is a step of the map. */
  lemma Refinement(s: State, step: Step)
    requires Inv(s) && StepOk(|s.entries|, step)
    ensures MapStep(Items(s), |s.entries|, step, Next(s, step).reply, Items(Next(s, step).state))
  {
    match step
    case DoSet(msg) => RefineSet(s, msg);
    case DoLock(pid, id, bufferLen) => RefineLock(s, pid, id, bufferLen);
    case DoGet(pid) => RefineGet(s, pid);
    case DoQuery(_) =>
    case DoUpdate(own, store) => LiveUpdateRoundTrip(s, own, store);
  }

  lemma RefineSet(s: State, msg: SetMsg)
    requires Inv(s) && SetMsgOk(msg)
    ensures MapStep(Items(s), |s.entries|, DoSet(msg), Next(s, DoSet(msg)).reply, Items(Next(s, DoSet(msg)).state))
  {
    SetKeeps(s, msg);
    FullExactly(s);
  }

  lemma ReleasedItems(s: State, pid: int)
    requires Inv(s)
    ensures Released(Items(s), pid) == Items(Unlocked(s, pid))
  {
    UnlockedKeeps(s, pid);
  }

  lemma RefineLock(s: State, pid: int, id: nat, bufferLen: nat)
    requires Inv(s) && id < |s.entries|
    ensures var step := DoLock(pid, id, bufferLen);
            MapStep(Items(s), |s.entries|, step, Next(s, step).reply, Items(Next(s, step).state))
  {
    hide Released, LockId;
    ReleasedItems(s, pid);
    UnlockedKeeps(s, pid);
    var u := Unlocked(s, pid);
    var t := Lock(s, pid, id, bufferLen).state;
    if u.entries[id].slot == Used && u.entries[id].decompressedLen <= bufferLen {
      assert Items(t) == Items(u)[id := Items(u)[id].(holder := Some(pid))];
    } else {
      assert t == u;
    }
  }

  lemma RefineGet(s: State, pid: int)
    requires Inv(s)
    ensures MapStep(Items(s), |s.entries|, DoGet(pid), Next(s, DoGet(pid)).reply, Items(Next(s, DoGet(pid)).state))
  {
    GetKeeps(s, pid);
    var id := LockId(s.entries, pid);
    if id >= 0 {
      assert Items(s)[id].holder == Some(pid);
      assert Items(Get(s, pid).state) == Items(s) - {id};
    }
  }

  /** A run of the map with the given replies. */
  ghost predicate MapRun(m: map<nat, Item>, size: nat, steps: seq<Step>, replies: seq<Reply>, m': map<nat, Item>)
    requires |steps| == |replies|
    decreases |steps|
  {
    if steps == [] then m' == m
    else exists mid :: MapStep(m, size, steps[0], replies[0], mid) && MapRun(mid, size, steps[1..], replies[1..], m')
  }

  /** Every run of the driver, with its replies, is a run of the map. */
  lemma {:induction false} RunRefinement(s: State, steps: seq<Step>)
    requires Inv(s) && StepsOk(|s.entries|, steps)
    ensures MapRun(Items(s), |s.entries|, steps, Run(s, steps).replies, Items(Run(s, steps).state))
    decreases |steps|
  {
    hide MapStep, Inv, Next, Items, StepOk;
    if steps == [] {
    } else {
      var a := Next(s, steps[0]);
      Refinement(s, steps[0]);
      RunRefinement(a.state, steps[1..]);
      var rest := Run(a.state, steps[1..]);
      assert Run(s, steps) == Trace(rest.state, [a.reply] + rest.replies);
      assert ([a.reply] + rest.replies)[1..] == rest.replies;
      assert MapStep(Items(s), |s.entries|, steps[0], a.reply, Items(a.state));
    }
  }
}
