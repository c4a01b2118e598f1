/** The driver serving requests one after the other, with live updates in between. */
module Service {
  import opened Chars
  import opened Clipboard
  import opened LiveUpdate
  import opened DriverRuns
  import opened Driver

  /** Serves `steps` in order. A live update replaces the running instance by a new one. What the
      instances do is a run of the state machine, reply for reply. */
  method Serve(driver: ClipboardDriver, steps: seq<Step>) returns (last: ClipboardDriver, replies: seq<Reply>)
    requires driver.Valid() && StepsOk(driver.entries.Length, steps)
    requires forall i :: 0 <= i < |steps| ==>
               (steps[i].DoLock? ==> steps[i].bufferLen < U32_LIMIT)
               && (steps[i].DoQuery? ==> steps[i].id < GET_SIZE)
               && (steps[i].DoGet? ==> 0 <= steps[i].pid < U32_LIMIT / 2)
    modifies driver.entries, driver.available, driver.available.value
    ensures last.Valid()
    ensures var t := Run(old(driver.Abs()), steps);
            last.Abs() == t.state && replies == t.replies
  {
    hide Inv, Next, Run, Served;
    last, replies := driver, [];
    ghost var s := driver.Abs();
    NoneServed(s, steps);
    for i := 0 to |steps|
      invariant last.Valid() && |last.Abs().entries| == |s.entries|
      invariant last == driver || (fresh(last.entries) && fresh(last.available) && fresh(last.available.value))
      invariant Served(s, steps, i, last.Abs(), replies)
    {
      var reply;
      OneMoreServed(s, steps, i, last.Abs(), replies);
      last, reply := ServeOne(last, steps[i]);
      replies := replies + [reply];
    }
    AllServed(s, steps, last.Abs(), replies);
  }

  /** The run behind position `i`, begun in `before`, completes the whole run. */
  ghost predicate Served(s: State, steps: seq<Step>, i: nat, before: State, replies: seq<Reply>)
    requires Inv(s) && StepsOk(|s.entries|, steps)
  {
    && i <= |steps| && Inv(before) && |before.entries| == |s.entries|
    && var rest := Run(before, steps[i..]);
       Run(s, steps) == Trace(rest.state, replies + rest.replies)
  }

  lemma OneMoreServed(s: State, steps: seq<Step>, i: nat, before: State, replies: seq<Reply>)
    requires Inv(s) && StepsOk(|s.entries|, steps)
    requires Served(s, steps, i, before, replies) && i < |steps|
    ensures var a := Next(before, steps[i]);
            Served(s, steps, i + 1, a.state, replies + [a.reply])
  {
    hide Inv, Next, StepOk;
    var a := Next(before, steps[i]);
    assert steps[i..][0] == steps[i] && steps[i..][1..] == steps[i + 1..];
    var rest := Run(a.state, steps[i + 1..]);
    assert Run(before, steps[i..]) == Trace(rest.state, [a.reply] + rest.replies);
    assert replies + ([a.reply] + rest.replies) == (replies + [a.reply]) + rest.replies;
  }

  lemma NoneServed(s: State, steps: seq<Step>)
    requires Inv(s) && StepsOk(|s.entries|, steps)
    ensures Served(s, steps, 0, s, [])
  {
    assert steps[0..] == steps;
  }

  lemma AllServed(s: State, steps: seq<Step>, last: State, replies: seq<Reply>)
    requires Inv(s) && StepsOk(|s.entries|, steps) && Served(s, steps, |steps|, last, replies)
    ensures Run(s, steps) == Trace(last, replies)
  {
    assert steps[|steps|..] == [];
  }

  method ServeOne(driver: ClipboardDriver, step: Step) returns (next: ClipboardDriver, reply: Reply)
    requires driver.Valid() && StepOk(driver.entries.Length, step)
    requires step.DoLock? ==> step.bufferLen < U32_LIMIT
    requires step.DoQuery? ==> step.id < GET_SIZE
    requires step.DoGet? ==> 0 <= step.pid < U32_LIMIT / 2
    modifies driver.entries, driver.available, driver.available.value
    ensures next.Valid()
    ensures next == driver || (fresh(next.entries) && fresh(next.available) && fresh(next.available.value))
    ensures next.Abs() == Next(old(driver.Abs()), step).state && reply == Next(old(driver.Abs()), step).reply
  {
    hide Inv, Set, Lock, Get, Saved, Restored;
    next := driver;
    match step {
      case DoSet(msg) =>
        var r := driver.ClipboardWrite(SetRequest(msg));
        reply := Reply(r, None);
      case DoLock(pid, id, bufferLen) =>
        var r := driver.ClipboardWrite(LockRequest(pid, id, bufferLen));
        reply := Reply(r, None);
      case DoGet(pid) =>
        var msg := new GetMsg();
        PidRoundTrip(pid);
        var r := driver.ClipboardRead(EncodePid(pid), msg);
        reply := Reply(r, if r == 0 then Some(Payload(msg.buffer[..msg.bufferLen], msg.decompressedLen)) else None);
      case DoQuery(id) =>
        var msg := new GetMsg();
        var r := driver.ClipboardRead(id, msg);
        reply := Reply(r, None);
      case DoUpdate(own, store) =>
        LiveUpdateRoundTrip(driver.Abs(), own, store);
        var ds := new DataStore();
        ds.m := store;
        next := new ClipboardDriver(driver.entries.Length, driver.available.value.Length);
        Update(driver, next, ds);
        reply := Reply(0, None);
    }
  }
}
