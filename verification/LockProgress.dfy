/** The lock system can always come to rest: from every state of every interleaving a schedule leads to
    a state in which no lock is owned. */
module LockProgress {
  import opened Spinlocks

  // ---------------------------------------------------------------- how much is left

  /** The steps that a CPU still has to make until it holds nothing: three per lock to release, and the
      rest of an acquire or a release that it is in. */
  function StepsLeft(c: Cpu): (n: int)
  {
    3 * |c.held| +
    match c.phase
    case Running => 0
    case Spinning(_) => 6
    case Took(_) => 5
    case Saved(_) => 4
    case Restoring(_, _) => -1
    case Restored(_) => -2
  }

  function WorkOf(cpus: seq<Cpu>): (n: int)
  {
    if cpus == [] then 0 else WorkOf(cpus[..|cpus| - 1]) + StepsLeft(cpus[|cpus| - 1])
  }

  predicate Idle(c: Cpu)
  {
    c.phase.Running? && c.held == []
  }

  /** Every CPU is outside all locks, and all lock bytes are clear. */
  ghost predicate AtRest(s: Sys)
  {
    && (forall i :: 0 <= i < |s.cpus| ==> Idle(s.cpus[i]))
    && (forall l :: 0 <= l < |s.locks| ==> !s.locks[l].taken)
  }

  lemma LeftBound(c: Cpu, locks: nat)
    requires Order(c, locks)
    ensures StepsLeft(c) >= 0 && (StepsLeft(c) == 0 <==> Idle(c))
  {
  }

  lemma {:induction false} WorkUpdate(cpus: seq<Cpu>, i: nat, d: Cpu)
    requires i < |cpus|
    ensures WorkOf(cpus[i := d]) == WorkOf(cpus) - StepsLeft(cpus[i]) + StepsLeft(d)
  {
    hide StepsLeft;
    var n := |cpus| - 1;
    if i == n {
      assert cpus[i := d][..n] == cpus[..n];
    } else {
      assert cpus[i := d][..n] == cpus[..n][i := d];
      WorkUpdate(cpus[..n], i, d);
    }
  }

  lemma {:induction false} WorkBound(cpus: seq<Cpu>, locks: nat)
    requires forall i :: 0 <= i < |cpus| ==> Order(cpus[i], locks)
    ensures WorkOf(cpus) >= 0 && (WorkOf(cpus) == 0 <==> forall i :: 0 <= i < |cpus| ==> Idle(cpus[i]))
  {
    hide StepsLeft, Idle, Order;
    if cpus != [] {
      var n := |cpus| - 1;
      WorkBound(cpus[..n], locks);
      LeftBound(cpus[n], locks);
      assert forall i :: 0 <= i < n ==> cpus[..n][i] == cpus[i];
    }
  }

  lemma InvOrder(s: Sys)
    requires Inv(s)
    ensures forall i :: 0 <= i < |s.cpus| ==> Order(s.cpus[i], |s.locks|)
  {
    hide Owned, Exclusive, Order, Flags;
  }

  // ---------------------------------------------------------------- one step closer

  /** The next step of a CPU that is leaving: release the innermost lock, or go on. */
  function NextAction(c: Cpu): (a: Action)
  {
    if c.phase.Running? then Release else Continue
  }

  /** A CPU that is not idle and not blocked gets one step closer to rest. */
  lemma StepsDown(s: Sys, i: nat)
    requires Inv(s) && i < |s.cpus| && !Idle(s.cpus[i]) && !Blocked(s, i)
    ensures var t := Step(s, i, NextAction(s.cpus[i]));
            |t.cpus| == |s.cpus| && t.cpus == s.cpus[i := t.cpus[i]] && StepsLeft(t.cpus[i]) == StepsLeft(s.cpus[i]) - 1
  {
    hide Inv, Exclusive, Owned;
    CpuOf(s, i);
  }

  /** Who can go on: a CPU that is not idle, or the owner of the lock that it waits for. */
  lemma SomebodyLeaves(s: Sys) returns (i: nat)
    requires Inv(s) && !(forall i :: 0 <= i < |s.cpus| ==> Idle(s.cpus[i]))
    ensures i < |s.cpus| && !Idle(s.cpus[i]) && !Blocked(s, i)
  {
    i :| 0 <= i < |s.cpus| && !Idle(s.cpus[i]);
    if Blocked(s, i) {
      var j, k := WaitEnds(s, i);
      OwnerIsBusy(s.cpus[j], k);
      i := j;
    }
  }

  lemma OwnerIsBusy(c: Cpu, l: nat)
    requires Owns(c, l)
    ensures !Idle(c)
  {
  }

  lemma IdleIsRest(s: Sys)
    requires Inv(s) && forall i :: 0 <= i < |s.cpus| ==> Idle(s.cpus[i])
    ensures AtRest(s)
  {
    forall l: nat | l < |s.locks| ensures !s.locks[l].taken {
      if Owned(s, l) {
        var i :| 0 <= i < |s.cpus| && Owns(s.cpus[i], l);
        OwnerIsBusy(s.cpus[i], l);
      }
    }
  }

  // ---------------------------------------------------------------- coming to rest

  lemma {:induction false} RestWithin(s: Sys, sched: Schedule, work: nat) returns (rest: Schedule)
    requires Initial(s) && work == WorkOf(Run(s, sched).cpus)
    ensures AtRest(Run(s, sched + rest)) && |rest| == work
    ensures forall k :: 0 <= k < |rest| ==> rest[k].1 == Release || rest[k].1 == Continue
    decreases work
  {
    hide Step, Inv, WorkOf, StepsLeft, Idle, Blocked, AtRest, Initial, Order;
    var t := Run(s, sched);
    RunKeeps(s, sched);
    InvOrder(t);
    WorkBound(t.cpus, |t.locks|);
    if work == 0 {
      rest := [];
      assert sched + rest == sched;
      IdleIsRest(t);
    } else {
      var i := SomebodyLeaves(t);
      var move := (i, NextAction(t.cpus[i]));
      StepsDown(t, i);
      WorkUpdate(t.cpus, i, Step(t, i, move.1).cpus[i]);
      assert (sched + [move])[..|sched|] == sched;
      assert Run(s, sched + [move]) == Step(t, i, move.1);
      var more := RestWithin(s, sched + [move], work - 1);
      rest := [move] + more;
      assert sched + rest == sched + [move] + more;
    }
  }

  /** From every state of every interleaving the system can come to rest, by releases and the steps of
      acquire and release alone, and in exactly as many steps as are left. */
  lemma CanRest(s: Sys, sched: Schedule) returns (rest: Schedule)
    requires Initial(s)
    ensures AtRest(Run(s, sched + rest)) && |rest| == WorkOf(Run(s, sched).cpus)
    ensures forall k :: 0 <= k < |rest| ==> rest[k].1 == Release || rest[k].1 == Continue
    ensures forall l: nat, i: nat :: i < |Run(s, sched + rest).cpus| ==> !Owns(Run(s, sched + rest).cpus[i], l)
  {
    hide Run, WorkOf, Inv, Order, Initial;
    RunKeeps(s, sched);
    InvOrder(Run(s, sched));
    WorkBound(Run(s, sched).cpus, |Run(s, sched).locks|);
    rest := RestWithin(s, sched, WorkOf(Run(s, sched).cpus));
  }
}
