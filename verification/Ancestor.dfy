/** The process manager's ancestor query: a search for the slot of one process, then a walk along
    parent links towards init. */
module Ancestor {

  /** A slot of the process table. */
  datatype Proc = Proc(pid: int, parent: int, active: bool)

  const INIT_PID := 1

  type Table = seq<Proc>

  /** Parents of active slots are active slots. */
  predicate Closed(t: Table) {
    forall i {:trigger t[i].parent} ::
      0 <= i < |t| && t[i].active ==> 0 <= t[i].parent < |t| && t[t[i].parent].active
  }

  predicate ActiveSlot(t: Table, i: int) {
    0 <= i < |t| && t[i].active
  }

  /** The slot `n` parent links up from `i`. */
  function Up(t: Table, i: int, n: nat): (r: int)
    requires Closed(t) && ActiveSlot(t, i)
    ensures ActiveSlot(t, r)
  {
    if n == 0 then i else t[Up(t, i, n - 1)].parent
  }

  ghost predicate ReachesInit(t: Table, i: int)
    requires Closed(t) && ActiveSlot(t, i)
  {
    exists n :: t[Up(t, i, n)].pid == INIT_PID
  }

  /** A process forest: pids of active slots are unique, every chain of parents reaches init, and init
      is its own parent. */
  ghost predicate Forest(t: Table)
    requires Closed(t)
  {
    && (forall i, j {:trigger t[i].pid, t[j].pid} ::
          ActiveSlot(t, i) && ActiveSlot(t, j) && t[i].pid == t[j].pid ==> i == j)
    && (forall i {:trigger ReachesInit(t, i)} :: ActiveSlot(t, i) ==> ReachesInit(t, i))
    && (forall i {:trigger t[i].parent} :: ActiveSlot(t, i) && t[i].pid == INIT_PID ==> t[i].parent == i)
  }

  lemma ForestParts(t: Table, i: int) returns (depth: nat)
    requires Closed(t) && Forest(t)
    ensures ActiveSlot(t, i) ==> t[Up(t, i, depth)].pid == INIT_PID
    ensures ActiveSlot(t, i) && t[i].pid == INIT_PID ==> t[i].parent == i
  {
    depth := 0;
    if ActiveSlot(t, i) {
      assert ReachesInit(t, i);
      depth :| t[Up(t, i, depth)].pid == INIT_PID;
    }
  }

  lemma SameSlot(t: Table, i: int, j: int)
    requires Closed(t) && Forest(t) && ActiveSlot(t, i) && ActiveSlot(t, j) && t[i].pid == t[j].pid
    ensures i == j
  {
  }

  /** The slot of `q` has a slot of `p` some links up. */
  ghost predicate Above(t: Table, p: int, j: int, n: nat)
    requires Closed(t)
  {
    ActiveSlot(t, j) && n > 0 && t[Up(t, j, n)].pid == p
  }

  /** `p` is `q`, or `q` is alive and a chain of one or more parent links leads from it to `p`. */
  ghost predicate IsAncestor(t: Table, p: int, q: int)
    requires Closed(t)
  {
    p == q || exists j, n :: ActiveSlot(t, j) && t[j].pid == q && Above(t, p, j, n)
  }

  lemma {:induction false} UpCompose(t: Table, i: int, m: nat, n: nat)
    requires Closed(t) && ActiveSlot(t, i)
    ensures Up(t, Up(t, i, m), n) == Up(t, i, m + n)
  {
    hide Closed;
    if n == 0 {
    } else {
      UpCompose(t, i, m, n - 1);
      assert Up(t, i, m + n) == t[Up(t, i, m + n - 1)].parent;
    }
  }

  /** Once a chain has reached init it stays there. */
  lemma {:induction false} StaysAtInit(t: Table, i: int, k: nat, n: nat)
    requires Closed(t) && Forest(t) && ActiveSlot(t, i)
    requires t[Up(t, i, k)].pid == INIT_PID && n >= k
    ensures Up(t, i, n) == Up(t, i, k)
  {
    hide Closed, Forest;
    var depth := ForestParts(t, Up(t, i, k));
    if n == k {
    } else {
      StaysAtInit(t, i, k, n - 1);
    }
  }

  /** 1 when `pid1` is an ancestor of `pid2`, else 0; the walk ends on every process forest. */
  method DoCheckIfAncestor(mproc: array<Proc>, pid1: int, pid2: int) returns (r: int)
    requires Closed(mproc[..]) && Forest(mproc[..])
    ensures r == if IsAncestor(mproc[..], pid1, pid2) then 1 else 0
  {
    hide Closed, Forest, IsAncestor;
    ghost var t := mproc[..];
    if pid1 == pid2 {
      AncestorReflexive(t, pid1);
      return 1;
    }

    var current := 0;
    var found := false;
    var last := 0;
    for i := 0 to mproc.Length
      invariant !found && forall k :: 0 <= k < i ==> !(t[k].active && t[k].pid == pid2)
    {
      if mproc[i].active && mproc[i].pid == pid2 {
        current := i;
        found := true;
        break;
      }
    }
    if !found {
      NotAlive(t, pid1, pid2);
      return 0;
    }

    ghost var start := current;
    ghost var steps := 0;
    ghost var depth := ForestParts(t, start);
    assert ActiveSlot(t, start);
    while true
      invariant current == Up(t, start, steps)
      invariant forall m :: 0 < m <= steps ==> t[Up(t, start, m)].pid != pid1 && t[Up(t, start, m)].pid != INIT_PID
      invariant steps <= depth
      decreases depth - steps
    {
      last := current;
      current := mproc[last].parent;
      steps := steps + 1;
      assert current == Up(t, start, steps);
      if mproc[current].pid == pid1 {
        Met(t, start, steps, pid1, pid2);
        return 1;
      }
      if mproc[current].pid == INIT_PID {
        NeverMet(t, start, steps, pid1, pid2);
        return 0;
      }
      if steps > depth {
        StaysAtInit(t, start, depth, steps);
        assert false;
      }
    }
  }

  lemma NotAlive(t: Table, pid1: int, pid2: int)
    requires Closed(t) && pid1 != pid2
    requires forall k :: 0 <= k < |t| ==> !(t[k].active && t[k].pid == pid2)
    ensures !IsAncestor(t, pid1, pid2)
  {
  }

  lemma Met(t: Table, start: int, steps: nat, pid1: int, pid2: int)
    requires Closed(t) && ActiveSlot(t, start) && t[start].pid == pid2
    requires steps > 0 && t[Up(t, start, steps)].pid == pid1
    ensures IsAncestor(t, pid1, pid2)
  {
    assert Above(t, pid1, start, steps);
  }

  /** A walk that meets init without having met `pid1` never would. */
  lemma NeverMet(t: Table, start: int, steps: nat, pid1: int, pid2: int)
    requires Closed(t) && Forest(t) && ActiveSlot(t, start) && t[start].pid == pid2 != pid1
    requires t[Up(t, start, steps)].pid == INIT_PID
    requires forall m :: 0 < m <= steps ==> t[Up(t, start, m)].pid != pid1
    requires steps > 0
    ensures !IsAncestor(t, pid1, pid2)
  {
    forall j, n: nat | ActiveSlot(t, j) && t[j].pid == pid2
      ensures !Above(t, pid1, j, n)
    {
      SameSlot(t, j, start);
      if n > steps {
        StaysAtInit(t, start, steps, n);
      }
    }
  }

  // ----- the relation the query decides -----

  lemma AncestorReflexive(t: Table, p: int)
    requires Closed(t)
    ensures IsAncestor(t, p, p)
  {
  }

  /** The relation steps along one parent link: somebody else is above a process exactly when it is, or is
      above, that process's parent. With the two lemmas behind it, this determines the relation on
      every forest. */
  lemma ParentStep(t: Table, p: int, j: int)
    requires Closed(t) && Forest(t) && ActiveSlot(t, j) && p != t[j].pid
    ensures 0 <= t[j].parent < |t|
    ensures IsAncestor(t, p, t[j].pid) <==> IsAncestor(t, p, t[t[j].parent].pid)
  {
    hide Forest;
    var k := t[j].parent;
    assert Up(t, j, 1) == k by { assert Up(t, j, 0) == j; }
    if IsAncestor(t, p, t[j].pid) {
      var i, n: nat :| ActiveSlot(t, i) && t[i].pid == t[j].pid && Above(t, p, i, n);
      SameSlot(t, i, j);
      UpCompose(t, j, 1, n - 1);
      assert n > 1 ==> Above(t, p, k, n - 1);
    }
    if p == t[k].pid {
      assert Above(t, p, j, 1);
    } else if IsAncestor(t, p, t[k].pid) {
      var i, n: nat :| ActiveSlot(t, i) && t[i].pid == t[k].pid && Above(t, p, i, n);
      SameSlot(t, i, k);
      UpCompose(t, j, 1, n);
      assert Above(t, p, j, n + 1);
    }
  }

  /** Nobody else is above init. */
  lemma NoneAboveInit(t: Table, p: int)
    requires Closed(t) && Forest(t) && IsAncestor(t, p, INIT_PID)
    ensures p == INIT_PID
  {
    hide Closed, Forest;
    if p != INIT_PID {
      var j, n: nat :| ActiveSlot(t, j) && t[j].pid == INIT_PID && Above(t, p, j, n);
      assert Up(t, j, 0) == j;
      StaysAtInit(t, j, 0, n);
    }
  }

  /** Slot 0 holds init, slot 1 its child 5, slot 2 the child 9 of 5. */
  predicate Family(t: Table) {
    |t| == 3 && t[0] == Proc(INIT_PID, 0, true) && t[1] == Proc(5, 0, true) && t[2] == Proc(9, 1, true)
  }

  lemma FamilyIsForest(t: Table)
    requires Family(t)
    ensures Closed(t) && Forest(t)
  {
    hide ReachesInit, Up, Closed;
    FamilyReaches(t);
  }

  lemma FamilyReaches(t: Table)
    requires Family(t)
    ensures Closed(t) && ReachesInit(t, 0) && ReachesInit(t, 1) && ReachesInit(t, 2)
  {
    hide Up;
    UpTwice(t, 0);
    UpTwice(t, 1);
    UpTwice(t, 2);
    assert t[Up(t, 0, 2)].pid == INIT_PID && t[Up(t, 1, 2)].pid == INIT_PID && t[Up(t, 2, 2)].pid == INIT_PID;
  }

  lemma UpTwice(t: Table, i: nat)
    requires Closed(t) && ActiveSlot(t, i)
    ensures ActiveSlot(t, t[i].parent) && Up(t, i, 2) == t[t[i].parent].parent
  {
    assert Up(t, i, 0) == i;
    assert Up(t, i, 1) == t[i].parent;
  }

  /** In that family 5 is above 9, and 9 is above neither 5 nor init. */
  lemma FamilyInstance(t: Table)
    requires Family(t)
    ensures Closed(t) && Forest(t)
    ensures IsAncestor(t, 5, 9) && !IsAncestor(t, 9, 5) && !IsAncestor(t, 9, INIT_PID)
  {
    hide Closed, Forest, IsAncestor;
    FamilyIsForest(t);
    AncestorReflexive(t, 5);
    ParentStep(t, 5, 2);
    ParentStep(t, 9, 1);
    if IsAncestor(t, 9, INIT_PID) {
      NoneAboveInit(t, 9);
    }
  }

  lemma AncestorTransitive(t: Table, p: int, q: int, r: int)
    requires Closed(t) && Forest(t) && IsAncestor(t, p, q) && IsAncestor(t, q, r)
    ensures IsAncestor(t, p, r)
  {
    hide Closed, Forest;
    if p != q && q != r {
      var i, m: nat :| ActiveSlot(t, i) && t[i].pid == q && Above(t, p, i, m);
      var k, n: nat :| ActiveSlot(t, k) && t[k].pid == r && Above(t, q, k, n);
      SameSlot(t, Up(t, k, n), i);
      UpCompose(t, k, n, m);
      assert Above(t, p, k, n + m);
    }
  }

  lemma {:induction false} Around(t: Table, i: int, n: nat, rounds: nat)
    requires Closed(t) && ActiveSlot(t, i) && Up(t, i, n) == i
    ensures Up(t, i, rounds * n) == i
  {
    if rounds == 0 {
    } else {
      Around(t, i, n, rounds - 1);
      UpCompose(t, i, (rounds - 1) * n, n);
      assert (rounds - 1) * n + n == rounds * n;
    }
  }

  /** A slot on a cycle of parent links is init. */
  lemma CycleIsInit(t: Table, i: int, n: nat)
    requires Closed(t) && Forest(t) && ActiveSlot(t, i) && n > 0 && Up(t, i, n) == i
    ensures t[i].pid == INIT_PID
  {
    hide Closed, Forest;
    var depth := ForestParts(t, i);
    Around(t, i, n, depth);
    assert depth * n >= depth;
    StaysAtInit(t, i, depth, depth * n);
  }

  lemma AncestorAntisymmetric(t: Table, p: int, q: int)
    requires Closed(t) && Forest(t) && IsAncestor(t, p, q) && IsAncestor(t, q, p)
    ensures p == q
  {
    hide Closed, Forest;
    if p != q {
      var i, m: nat :| ActiveSlot(t, i) && t[i].pid == q && Above(t, p, i, m);
      var k, n: nat :| ActiveSlot(t, k) && t[k].pid == p && Above(t, q, k, n);
      SameSlot(t, Up(t, i, m), k);
      SameSlot(t, Up(t, k, n), i);
      UpCompose(t, i, m, n);
      CycleIsInit(t, i, m + n);
      UpCompose(t, k, n, m);
      CycleIsInit(t, k, n + m);
    }
  }

  /** Init is an ancestor of every process that is alive. */
  lemma InitAboveAll(t: Table, q: int, j: int)
    requires Closed(t) && Forest(t) && ActiveSlot(t, j) && t[j].pid == q
    ensures IsAncestor(t, INIT_PID, q)
  {
    if q != INIT_PID {
      var n := ForestParts(t, j);
      assert Above(t, INIT_PID, j, n);
    }
  }
}
