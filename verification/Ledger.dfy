/** Which stored entry a hand-over delivers: over every run, hand-overs and stores are matched one to
    one, and the stores left over are the entries still in the table. */
module Ledger {
  import opened Clipboard
  import opened DriverRuns
  import opened LiveUpdate

  /** The state before step `i` of a run. */
  function StateAt(s: State, steps: seq<Step>, i: nat): (t: State)
    requires Inv(s) && StepsOk(|s.entries|, steps) && i <= |steps|
    ensures Inv(t) && |t.entries| == |s.entries|
  {
    if i == 0 then s else Next(StateAt(s, steps, i - 1), steps[i - 1]).state
  }

  function ReplyAt(s: State, steps: seq<Step>, i: nat): Reply
    requires Inv(s) && StepsOk(|s.entries|, steps) && i < |steps|
  {
    Next(StateAt(s, steps, i), steps[i]).reply
  }

  lemma {:induction false} StateAfterFirst(s: State, steps: seq<Step>, i: nat)
    requires Inv(s) && StepsOk(|s.entries|, steps) && i < |steps|
    ensures StateAt(s, steps, i + 1) == StateAt(Next(s, steps[0]).state, steps[1..], i)
  {
    hide Inv, Next, StepOk;
    if i == 0 {
      assert StateAt(s, steps, 0) == s;
    } else {
      StateAfterFirst(s, steps, i - 1);
      assert steps[1..][i - 1] == steps[i];
    }
  }

  lemma {:induction false} RunStepByStep(s: State, steps: seq<Step>, i: nat)
    requires Inv(s) && StepsOk(|s.entries|, steps) && i <= |steps|
    ensures i == |steps| ==> StateAt(s, steps, i) == Run(s, steps).state
    ensures i < |steps| ==> ReplyAt(s, steps, i) == Run(s, steps).replies[i]
    decreases |steps|
  {
    hide Inv, Next, StepOk;
    if steps == [] {
    } else if i == 0 {
      assert StateAt(s, steps, 0) == s;
    } else {
      StateAfterFirst(s, steps, i - 1);
      RunStepByStep(Next(s, steps[0]).state, steps[1..], i - 1);
      if i < |steps| {
        assert steps[1..][i - 1] == steps[i];
      }
    }
  }

  // ----- the ledger -----

  /** `open` names, for every slot in use, the step that stored its entry; `closed` names, for every
      hand-over, the step that stored what it delivered. */
  datatype Book = Book(open: map<nat, nat>, closed: map<nat, nat>)

  function Entered(b: Book, s: State, step: Step, reply: Reply, i: nat): Book {
    if step.DoSet? && reply.code >= 0 then
      b.(open := b.open[reply.code := i])
    else if step.DoGet? && reply.handed.Some? then
      var id := LockId(s.entries, step.pid);
      if id in b.open then Book(b.open - {id}, b.closed[i := b.open[id]]) else b
    else b
  }

  function BookAt(s: State, steps: seq<Step>, i: nat): Book
    requires Inv(s) && StepsOk(|s.entries|, steps) && i <= |steps|
  {
    if i == 0 then Book(map[], map[])
    else Entered(BookAt(s, steps, i - 1), StateAt(s, steps, i - 1), steps[i - 1], ReplyAt(s, steps, i - 1), i - 1)
  }

  /** Step `j` stored successfully. */
  predicate Stores(s: State, steps: seq<Step>, j: nat)
    requires Inv(s) && StepsOk(|s.entries|, steps)
  {
    j < |steps| && steps[j].DoSet? && ReplyAt(s, steps, j).code >= 0
  }

  /** Entry `e` in slot `id` is what step `j` stored: id, owner and payload. */
  predicate StoredBy(s: State, steps: seq<Step>, j: nat, id: nat, e: Entry)
    requires Inv(s) && StepsOk(|s.entries|, steps)
  {
    && Stores(s, steps, j) && ReplyAt(s, steps, j).code == id
    && SetMsgOk(steps[j].msg) && e.sourcePid == steps[j].msg.pid
    && PayloadOf(e) == Payload(steps[j].msg.buffer[..steps[j].msg.bufferLen], steps[j].msg.decompressedLen)
  }

  /** Step `k` hands over, from the slot its process holds, the entry step `j` stored there. */
  predicate Delivers(s: State, steps: seq<Step>, j: nat, k: nat)
    requires Inv(s) && StepsOk(|s.entries|, steps)
  {
    && k < |steps| && steps[k].DoGet?
    && var before := StateAt(s, steps, k).entries;
       var id := LockId(before, steps[k].pid);
       && id >= 0 && StoredBy(s, steps, j, id, before[id])
       && ReplyAt(s, steps, k).handed == Some(PayloadOf(before[id]))
  }

  ghost predicate Injective(m: map<nat, nat>) {
    forall x, y :: x in m && y in m && m[x] == m[y] ==> x == y
  }

  ghost predicate OpenOk(s: State, steps: seq<Step>, i: nat, b: Book)
    requires Inv(s) && StepsOk(|s.entries|, steps) && i <= |steps|
  {
    var t := StateAt(s, steps, i).entries;
    && (forall id :: id in b.open <==> 0 <= id < |t| && t[id].slot != Empty)
    && (forall id :: id in b.open ==> b.open[id] < i && StoredBy(s, steps, b.open[id], id, t[id]))
  }

  ghost predicate ClosedOk(s: State, steps: seq<Step>, i: nat, b: Book)
    requires Inv(s) && StepsOk(|s.entries|, steps) && i <= |steps|
  {
    && (forall k :: k in b.closed <==> 0 <= k < i && ReplyAt(s, steps, k).handed.Some?)
    && (forall k :: k in b.closed ==> b.closed[k] < k && Delivers(s, steps, b.closed[k], k))
  }

  ghost predicate OneToOne(b: Book) {
    && Injective(b.open) && Injective(b.closed)
    && (forall id, k :: id in b.open && k in b.closed ==> b.open[id] != b.closed[k])
  }

  ghost predicate AllStoresBooked(s: State, steps: seq<Step>, i: nat, b: Book)
    requires Inv(s) && StepsOk(|s.entries|, steps) && i <= |steps|
  {
    forall j :: 0 <= j < i && Stores(s, steps, j) ==> j in b.open.Values || j in b.closed.Values
  }

  ghost predicate BookOk(s: State, steps: seq<Step>, i: nat, b: Book)
    requires Inv(s) && StepsOk(|s.entries|, steps) && i <= |steps|
  {
    OpenOk(s, steps, i, b) && ClosedOk(s, steps, i, b) && OneToOne(b) && AllStoresBooked(s, steps, i, b)
  }

  // ----- every step keeps the book -----

  ghost predicate Keeps(b: Book, b': Book) {
    forall j :: j in b.open.Values || j in b.closed.Values ==> j in b'.open.Values || j in b'.closed.Values
  }

  lemma ValuesGrow(m: map<nat, nat>, x: nat, v: nat)
    requires x !in m
    ensures v in m[x := v].Values
    ensures forall w :: w in m.Values ==> w in m[x := v].Values
  {
    var m' := m[x := v];
    assert m'[x] == v;
    forall w | w in m.Values
      ensures w in m'.Values
    {
      var y :| y in m && m[y] == w;
      assert m'[y] == w;
    }
  }

  /** Opening an entry for a step later than all the book knows. */
  lemma OpenEntry(b: Book, id: nat, i: nat)
    requires OneToOne(b) && id !in b.open
    requires (forall x :: x in b.open ==> b.open[x] < i) && (forall k :: k in b.closed ==> b.closed[k] < i)
    ensures var b' := b.(open := b.open[id := i]);
            OneToOne(b') && Keeps(b, b') && i in b'.open.Values
  {
    ValuesGrow(b.open, id, i);
  }

  /** Moving a store from open to closed. */
  lemma MoveEntry(b: Book, id: nat, i: nat)
    requires id in b.open && i !in b.closed && OneToOne(b)
    ensures var b' := Book(b.open - {id}, b.closed[i := b.open[id]]);
            OneToOne(b') && Keeps(b, b')
  {
    var b' := Book(b.open - {id}, b.closed[i := b.open[id]]);
    ValuesGrow(b.closed, i, b.open[id]);
    forall j | j in b.open.Values
      ensures j in b'.open.Values || j in b'.closed.Values
    {
      var x :| x in b.open && b.open[x] == j;
      assert x != id ==> x in b'.open && b'.open[x] == j;
    }
  }

  lemma ClosedKeeps(s: State, steps: seq<Step>, i: nat, b: Book, b': Book)
    requires Inv(s) && StepsOk(|s.entries|, steps) && i < |steps| && ClosedOk(s, steps, i, b)
    requires b'.closed == b.closed && ReplyAt(s, steps, i).handed == None
    ensures ClosedOk(s, steps, i + 1, b')
  {
    hide Inv, StepsOk, ReplyAt, Delivers;
  }

  lemma BookedKeeps(s: State, steps: seq<Step>, i: nat, b: Book, b': Book)
    requires Inv(s) && StepsOk(|s.entries|, steps) && i < |steps| && AllStoresBooked(s, steps, i, b)
    requires Keeps(b, b') && (Stores(s, steps, i) ==> i in b'.open.Values)
    ensures AllStoresBooked(s, steps, i + 1, b')
  {
    hide Inv, StepsOk, Stores;
  }

  lemma AfterStore(s: State, steps: seq<Step>, i: nat)
    requires Inv(s) && StepsOk(|s.entries|, steps) && Stores(s, steps, i)
    ensures var t, t' := StateAt(s, steps, i).entries, StateAt(s, steps, i + 1).entries;
            var id := ReplyAt(s, steps, i).code;
            && 0 <= id < |t| == |t'| && t[id].slot == Empty
            && t'[id].slot != Empty && StoredBy(s, steps, i, id, t'[id])
            && (forall x :: 0 <= x < |t| && x != id ==> t'[x] == t[x])
  {
    var t := StateAt(s, steps, i);
    SetKeeps(t, steps[i].msg);
    assert StateAt(s, steps, i + 1) == Next(t, steps[i]).state;
  }

  lemma OpenGrows(s: State, steps: seq<Step>, i: nat, b: Book)
    requires Inv(s) && StepsOk(|s.entries|, steps) && Stores(s, steps, i) && OpenOk(s, steps, i, b)
    ensures ReplyAt(s, steps, i).code !in b.open
    ensures OpenOk(s, steps, i + 1, b.(open := b.open[ReplyAt(s, steps, i).code := i]))
  {
    hide Inv, StepsOk, StateAt, ReplyAt, StoredBy, Stores;
    AfterStore(s, steps, i);
  }

  lemma BookStore(s: State, steps: seq<Step>, i: nat, b: Book)
    requires Inv(s) && StepsOk(|s.entries|, steps) && i < |steps| && BookOk(s, steps, i, b)
    requires Stores(s, steps, i)
    ensures BookOk(s, steps, i + 1, Entered(b, StateAt(s, steps, i), steps[i], ReplyAt(s, steps, i), i))
  {
    hide Inv, StepsOk, StateAt, ReplyAt, Stores, StoredBy, Delivers, LockId, OneToOne, Keeps, AllStoresBooked;
    NothingHanded(s, steps, i);
    OpenGrows(s, steps, i, b);
    var id := ReplyAt(s, steps, i).code;
    OpenEntry(b, id, i);
    var b' := b.(open := b.open[id := i]);
    ClosedKeeps(s, steps, i, b, b');
    BookedKeeps(s, steps, i, b, b');
  }

  lemma NothingHanded(s: State, steps: seq<Step>, i: nat)
    requires Inv(s) && StepsOk(|s.entries|, steps) && Stores(s, steps, i)
    ensures i < |steps| && steps[i].DoSet? && ReplyAt(s, steps, i).code >= 0 && ReplyAt(s, steps, i).handed == None
  {
  }

  lemma AfterHandOver(s: State, steps: seq<Step>, i: nat)
    requires Inv(s) && StepsOk(|s.entries|, steps) && i < |steps|
    requires steps[i].DoGet? && ReplyAt(s, steps, i).handed.Some?
    ensures var t, t' := StateAt(s, steps, i).entries, StateAt(s, steps, i + 1).entries;
            var id := LockId(t, steps[i].pid);
            && 0 <= id < |t| == |t'| && t[id].slot != Empty && t'[id].slot == Empty
            && ReplyAt(s, steps, i).handed == Some(PayloadOf(t[id]))
            && (forall x :: 0 <= x < |t| && x != id ==> t'[x] == t[x])
  {
    var t := StateAt(s, steps, i);
    GetKeeps(t, steps[i].pid);
    assert StateAt(s, steps, i + 1) == Next(t, steps[i]).state;
  }

  lemma OpenShrinks(s: State, steps: seq<Step>, i: nat, b: Book)
    requires Inv(s) && StepsOk(|s.entries|, steps) && i < |steps| && OpenOk(s, steps, i, b)
    requires steps[i].DoGet? && ReplyAt(s, steps, i).handed.Some?
    ensures var id := LockId(StateAt(s, steps, i).entries, steps[i].pid);
            && id in b.open && b.open[id] < i && Delivers(s, steps, b.open[id], i)
            && OpenOk(s, steps, i + 1, Book(b.open - {id}, b.closed[i := b.open[id]]))
  {
    hide Inv, StepsOk, StateAt, ReplyAt, StoredBy, LockId;
    AfterHandOver(s, steps, i);
  }

  lemma ClosedGrows(s: State, steps: seq<Step>, i: nat, b: Book, open: map<nat, nat>, j: nat)
    requires Inv(s) && StepsOk(|s.entries|, steps) && i < |steps| && ClosedOk(s, steps, i, b)
    requires j < i && Delivers(s, steps, j, i) && ReplyAt(s, steps, i).handed.Some?
    ensures i !in b.closed && ClosedOk(s, steps, i + 1, Book(open, b.closed[i := j]))
  {
    hide Inv, StepsOk, ReplyAt, Delivers;
  }

  lemma BookHandOver(s: State, steps: seq<Step>, i: nat, b: Book)
    requires Inv(s) && StepsOk(|s.entries|, steps) && i < |steps| && BookOk(s, steps, i, b)
    requires steps[i].DoGet? && ReplyAt(s, steps, i).handed.Some?
    ensures BookOk(s, steps, i + 1, Entered(b, StateAt(s, steps, i), steps[i], ReplyAt(s, steps, i), i))
  {
    hide Inv, StepsOk, StateAt, ReplyAt, Stores, StoredBy, Delivers, LockId, OneToOne, Keeps, AllStoresBooked,
         OpenOk, ClosedOk;
    OpenShrinks(s, steps, i, b);
    var id := LockId(StateAt(s, steps, i).entries, steps[i].pid);
    ClosedGrows(s, steps, i, b, b.open - {id}, b.open[id]);
    MoveEntry(b, id, i);
    StoresAreSets(s, steps, i);
    BookedKeeps(s, steps, i, b, Book(b.open - {id}, b.closed[i := b.open[id]]));
  }

  lemma StoresAreSets(s: State, steps: seq<Step>, i: nat)
    requires Inv(s) && StepsOk(|s.entries|, steps)
    ensures Stores(s, steps, i) ==> i < |steps| && steps[i].DoSet?
  {
  }

  /** A step that neither stores nor hands over leaves owner, payload and use of every slot alone. */
  lemma AfterOther(s: State, steps: seq<Step>, i: nat)
    requires Inv(s) && StepsOk(|s.entries|, steps) && i < |steps|
    requires !Stores(s, steps, i) && ReplyAt(s, steps, i).handed == None
    ensures var t, t' := StateAt(s, steps, i).entries, StateAt(s, steps, i + 1).entries;
            && |t| == |t'|
            && forall id :: 0 <= id < |t| ==>
                 && (t[id].slot == Empty <==> t'[id].slot == Empty)
                 && t'[id].sourcePid == t[id].sourcePid && PayloadOf(t'[id]) == PayloadOf(t[id])
  {
    hide Inv, LockId, Restored, Saved;
    var t := StateAt(s, steps, i);
    assert StateAt(s, steps, i + 1) == Next(t, steps[i]).state;
    match steps[i]
    case DoSet(msg) => SetKeeps(t, msg);
    case DoLock(pid, id, bufferLen) => LockKeeps(t, pid, id, bufferLen);
    case DoGet(pid) => GetKeeps(t, pid);
    case DoQuery(_) =>
    case DoUpdate(own, store) => LiveUpdateRoundTrip(t, own, store);
  }

  lemma SamePayload(s: State, steps: seq<Step>, j: nat, id: nat, e: Entry, e': Entry)
    requires Inv(s) && StepsOk(|s.entries|, steps) && StoredBy(s, steps, j, id, e)
    requires e'.sourcePid == e.sourcePid && PayloadOf(e') == PayloadOf(e)
    ensures StoredBy(s, steps, j, id, e')
  {
  }

  lemma BookOther(s: State, steps: seq<Step>, i: nat, b: Book)
    requires Inv(s) && StepsOk(|s.entries|, steps) && i < |steps| && BookOk(s, steps, i, b)
    requires !Stores(s, steps, i) && ReplyAt(s, steps, i).handed == None
    ensures BookOk(s, steps, i + 1, b)
    ensures Entered(b, StateAt(s, steps, i), steps[i], ReplyAt(s, steps, i), i) == b
  {
    hide Inv, StepsOk, StateAt, ReplyAt, Delivers, StoredBy, LockId, PayloadOf;
    AfterOther(s, steps, i);
    var t, t' := StateAt(s, steps, i).entries, StateAt(s, steps, i + 1).entries;
    forall id | id in b.open
      ensures StoredBy(s, steps, b.open[id], id, t'[id])
    {
      SamePayload(s, steps, b.open[id], id, t[id], t'[id]);
    }
  }

  lemma EmptyBook(s: State, steps: seq<Step>)
    requires Inv(s) && StepsOk(|s.entries|, steps)
    requires forall id :: 0 <= id < |s.entries| ==> s.entries[id].slot == Empty
    ensures BookOk(s, steps, 0, Book(map[], map[]))
  {
    assert StateAt(s, steps, 0) == s;
  }

  lemma {:induction false} BookKept(s: State, steps: seq<Step>, i: nat)
    requires Inv(s) && StepsOk(|s.entries|, steps) && i <= |steps|
    requires forall id :: 0 <= id < |s.entries| ==> s.entries[id].slot == Empty
    ensures BookOk(s, steps, i, BookAt(s, steps, i))
  {
    hide Inv, StepsOk, Next, LockId, Entered, Delivers, StoredBy, Stores, ReplyAt, BookOk;
    if i == 0 {
      EmptyBook(s, steps);
    } else {
      BookKept(s, steps, i - 1);
      var b := BookAt(s, steps, i - 1);
      OnlyHandOversHand(s, steps, i - 1);
      if Stores(s, steps, i - 1) {
        BookStore(s, steps, i - 1, b);
      } else if ReplyAt(s, steps, i - 1).handed.Some? {
        BookHandOver(s, steps, i - 1, b);
      } else {
        BookOther(s, steps, i - 1, b);
      }
    }
  }

  lemma OnlyHandOversHand(s: State, steps: seq<Step>, i: nat)
    requires Inv(s) && StepsOk(|s.entries|, steps) && i < |steps|
    ensures ReplyAt(s, steps, i).handed.Some? ==> steps[i].DoGet?
  {
  }

  /** The book `b` settles the run `t`. Each hand-over delivers the entry that one earlier store put
      into that slot, with its id, owner and payload; no two hand-overs deliver the same store's entry;
      and every store's entry has either been delivered or is in the table. */
  ghost predicate Settles(s: State, steps: seq<Step>, t: Trace, b: Book)
    requires Inv(s) && StepsOk(|s.entries|, steps) && |t.replies| == |steps|
  {
    && (forall k :: k in b.closed <==> 0 <= k < |steps| && t.replies[k].handed.Some?)
    && (forall k :: k in b.closed ==> b.closed[k] < k && Delivers(s, steps, b.closed[k], k))
    && (forall k, l :: k in b.closed && l in b.closed && k != l ==> b.closed[k] != b.closed[l])
    && (forall id :: id in b.open <==> 0 <= id < |t.state.entries| && t.state.entries[id].slot != Empty)
    && (forall id :: id in b.open ==> StoredBy(s, steps, b.open[id], id, t.state.entries[id]))
    && (forall j :: 0 <= j < |steps| && steps[j].DoSet? && t.replies[j].code >= 0 ==>
          (j in b.closed.Values) != (j in b.open.Values))
  }

  /** Exactly once: every run from a fresh start is settled. */
  lemma ExactlyOnce(size: nat, steps: seq<Step>)
    requires StepsOk(size, steps)
    ensures Settles(Fresh(size), steps, Run(Fresh(size), steps), BookAt(Fresh(size), steps, |steps|))
  {
    hide Inv, StepsOk, Next, LockId, StateAt, ReplyAt, Run, Fresh, Delivers, StoredBy, BookAt;
    var s := Fresh(size);
    FreshEmpty(size);
    BookKept(s, steps, |steps|);
    forall i | 0 <= i <= |steps|
      ensures i == |steps| ==> StateAt(s, steps, i) == Run(s, steps).state
      ensures i < |steps| ==> ReplyAt(s, steps, i) == Run(s, steps).replies[i]
    {
      RunStepByStep(s, steps, i);
    }
  }

  lemma FreshEmpty(size: nat)
    ensures forall id :: 0 <= id < size ==> Fresh(size).entries[id].slot == Empty
  {
  }
}
