/** The spinlock of spinlock.h under every interleaving: the lock byte, the saved interrupt flag, and
    the interrupt flag of each CPU, one memory access or instruction at a time. */
module Spinlocks {

  datatype Lock = Lock(taken: bool, interrupts: bool)

  /** Where a CPU is: outside both functions; between the call of spinlock_acquire and its cli; or
      between the load in spinlock_release and its clear. */
  datatype Phase =
    | Running
    | Spinning(l: nat)
    | Took(l: nat)
    | Saved(l: nat)
    | Restoring(l: nat, value: bool)
    | Restored(l: nat)

  /** held: the locks from the outermost to the innermost. before: the interrupt flag at each call of
      spinlock_acquire that is not yet undone. */
  datatype Cpu = Cpu(flag: bool, phase: Phase, held: seq<nat>, before: seq<bool>)

  datatype Sys = Sys(locks: seq<Lock>, cpus: seq<Cpu>)

  /** Code calls acquire in the order of the locks, releases the innermost first, and changes the
      interrupt flag only outside locked parts. Continue runs one more step of either function. */
  datatype Action = Acquire(l: nat) | Release | SetFlag(v: bool) | Continue

  predicate Enabled(s: Sys, i: nat, a: Action)
  {
    i < |s.cpus| &&
    var c := s.cpus[i];
    match a
    case Acquire(l) => c.phase.Running? && l < |s.locks| && forall k :: 0 <= k < |c.held| ==> c.held[k] < l
    case Release => c.phase.Running? && c.held != []
    case SetFlag(_) => c.phase.Running? && c.held == []
    case Continue => !c.phase.Running?
  }

  function Step(s: Sys, i: nat, a: Action): (r: Sys)
  {
    if !Enabled(s, i, a) then s
    else
      var c := s.cpus[i];
      match a
      case Acquire(l) => s.(cpus := s.cpus[i := c.(phase := Spinning(l), before := c.before + [c.flag])])
      case Release =>
        var l := c.held[|c.held| - 1];
        if l < |s.locks| then s.(cpus := s.cpus[i := c.(phase := Restoring(l, s.locks[l].interrupts))]) else s
      case SetFlag(v) => s.(cpus := s.cpus[i := c.(flag := v)])
      case Continue => Advance(s, i, c)
  }

  function Advance(s: Sys, i: nat, c: Cpu): (r: Sys)
    requires i < |s.cpus| && !c.phase.Running?
  {
    var l := c.phase.l;
    if l >= |s.locks| then s
    else
      match c.phase
      case Spinning(_) =>
        if s.locks[l].taken then s
        else Sys(s.locks[l := s.locks[l].(taken := true)], s.cpus[i := c.(phase := Took(l))])
      case Took(_) => Sys(s.locks[l := s.locks[l].(interrupts := c.flag)], s.cpus[i := c.(phase := Saved(l))])
      case Saved(_) => s.(cpus := s.cpus[i := c.(phase := Running, flag := false, held := c.held + [l])])
      case Restoring(_, v) => s.(cpus := s.cpus[i := c.(phase := Restored(l), flag := v)])
      case Restored(_) =>
        if c.held == [] || c.before == [] then s
        else
          Sys(s.locks[l := s.locks[l].(taken := false)],
              s.cpus[i := c.(phase := Running, held := c.held[..|c.held| - 1], before := c.before[..|c.before| - 1])])
  }

  /** A schedule: which CPU does what next. */
  type Schedule = seq<(nat, Action)>

  function Run(s: Sys, sched: Schedule): (r: Sys)
  {
    if sched == [] then s
    else
      var (i, a) := sched[|sched| - 1];
      Step(Run(s, sched[..|sched| - 1]), i, a)
  }

  predicate Initial(s: Sys)
  {
    && (forall l :: 0 <= l < |s.locks| ==> !s.locks[l].taken)
    && (forall i :: 0 <= i < |s.cpus| ==> s.cpus[i].phase == Running && s.cpus[i].held == [] && s.cpus[i].before == [])
  }

  // ---------------------------------------------------------------- the invariant

  predicate Owns(c: Cpu, l: nat)
  {
    l in c.held || c.phase == Took(l) || c.phase == Saved(l)
  }

  predicate Acquiring(c: Cpu)
  {
    c.phase.Spinning? || c.phase.Took? || c.phase.Saved?
  }

  predicate Order(c: Cpu, locks: nat)
  {
    && (forall k :: 0 <= k < |c.held| ==> c.held[k] < locks)
    && (forall j, k :: 0 <= j < k < |c.held| ==> c.held[j] < c.held[k])
    && (Acquiring(c) ==> c.phase.l < locks && forall k :: 0 <= k < |c.held| ==> c.held[k] < c.phase.l)
    && (c.phase.Restoring? || c.phase.Restored? ==> c.held != [] && c.held[|c.held| - 1] == c.phase.l)
    && |c.before| == |c.held| + if Acquiring(c) then 1 else 0
  }

  /** The saved flags are the flags at the calls of acquire; only the outermost can be on; and the
      CPU's own flag is off inside. */
  predicate Flags(c: Cpu, locks: seq<Lock>)
    requires Order(c, |locks|)
  {
    && (forall k :: 0 <= k < |c.held| ==> locks[c.held[k]].interrupts == c.before[k])
    && (c.phase.Saved? ==> locks[c.phase.l].interrupts == c.before[|c.held|])
    && (forall k :: 1 <= k < |c.before| ==> !c.before[k])
    && (c.phase.Running? && c.held != [] ==> !c.flag)
    && (Acquiring(c) ==> c.flag == c.before[|c.held|])
    && (c.phase.Restoring? ==> !c.flag && c.phase.value == c.before[|c.held| - 1])
    && (c.phase.Restored? ==> c.flag == c.before[|c.held| - 1])
  }

  predicate CpuInv(c: Cpu, locks: seq<Lock>)
  {
    Order(c, |locks|) && Flags(c, locks)
  }

  /** A lock byte is set exactly when some CPU owns the lock. */
  predicate Owned(s: Sys, l: nat)
  {
    exists i :: 0 <= i < |s.cpus| && Owns(s.cpus[i], l)
  }

  predicate Exclusive(s: Sys)
  {
    forall i, j, l: nat :: 0 <= i < j < |s.cpus| && l < |s.locks| ==> !(Owns(s.cpus[i], l) && Owns(s.cpus[j], l))
  }

  ghost predicate Inv(s: Sys)
  {
    && (forall i :: 0 <= i < |s.cpus| ==> CpuInv(s.cpus[i], s.locks))
    && (forall l: nat :: l < |s.locks| ==> (s.locks[l].taken <==> Owned(s, l)))
    && Exclusive(s)
  }

  // ---------------------------------------------------------------- one step

  /** What other CPUs see of a step: a lock that somebody else owns keeps its saved flag. */
  lemma OthersKeep(c: Cpu, locks: seq<Lock>, locks': seq<Lock>)
    requires CpuInv(c, locks) && |locks'| == |locks|
    requires forall l: nat :: l < |locks| && Owns(c, l) ==> locks'[l].interrupts == locks[l].interrupts
    ensures CpuInv(c, locks')
  {
    forall k | 0 <= k < |c.held| ensures locks'[c.held[k]].interrupts == locks[c.held[k]].interrupts {
      assert Owns(c, c.held[k]);
    }
  }

  /** CPU i moves from c to d. It may gain or lose lock l, whose byte follows. */
  lemma Moves(s: Sys, i: nat, d: Cpu, locks': seq<Lock>, l: nat)
    requires Inv(s) && i < |s.cpus| && l < |s.locks| && |locks'| == |s.locks|
    requires CpuInv(d, locks')
    requires forall k: nat :: k < |s.locks| && k != l ==> locks'[k] == s.locks[k] && Owns(d, k) == Owns(s.cpus[i], k)
    requires Owns(d, l) && !Owns(s.cpus[i], l) ==> !s.locks[l].taken
    requires locks'[l].interrupts != s.locks[l].interrupts ==> Owns(s.cpus[i], l)
    requires locks'[l].taken == if Owns(d, l) == Owns(s.cpus[i], l) then s.locks[l].taken else Owns(d, l)
    ensures Inv(Sys(locks', s.cpus[i := d]))
  {
    hide CpuInv, Owns;
    var t := Sys(locks', s.cpus[i := d]);
    forall j | 0 <= j < |t.cpus| ensures CpuInv(t.cpus[j], locks') {
      if j != i {
        assert Owns(s.cpus[i], l) ==> !Owns(s.cpus[j], l);
        OthersKeep(s.cpus[j], s.locks, locks');
      }
    }
    forall k: nat | k < |t.locks| ensures t.locks[k].taken <==> Owned(t, k) {
      OwnedAfter(s, i, d, locks', l, k);
    }
    forall j, m, k: nat | 0 <= j < m < |t.cpus| && k < |t.locks| ensures !(Owns(t.cpus[j], k) && Owns(t.cpus[m], k)) {
      if Owns(d, k) && !Owns(s.cpus[i], k) { assert !Owned(s, k); }
    }
  }

  lemma OwnedAfter(s: Sys, i: nat, d: Cpu, locks': seq<Lock>, l: nat, k: nat)
    requires i < |s.cpus| && l < |s.locks| && |locks'| == |s.locks| && k < |s.locks| && Exclusive(s)
    requires s.locks[k].taken <==> Owned(s, k)
    requires k != l ==> locks'[k] == s.locks[k] && Owns(d, k) == Owns(s.cpus[i], k)
    requires locks'[l].taken == if Owns(d, l) == Owns(s.cpus[i], l) then s.locks[l].taken else Owns(d, l)
    ensures locks'[k].taken <==> Owned(Sys(locks', s.cpus[i := d]), k)
  {
    hide Owns;
    var t := Sys(locks', s.cpus[i := d]);
    if Owned(s, k) {
      var j :| 0 <= j < |s.cpus| && Owns(s.cpus[j], k);
      assert j != i ==> Owns(t.cpus[j], k);
      assert j == i && Owns(d, k) ==> Owns(t.cpus[i], k);
      if Owned(t, k) {
        var m :| 0 <= m < |t.cpus| && Owns(t.cpus[m], k);
      }
    } else if Owned(t, k) {
      var m :| 0 <= m < |t.cpus| && Owns(t.cpus[m], k);
      assert m != i ==> Owns(s.cpus[m], k);
    } else {
      assert !Owns(t.cpus[i], k);
    }
  }

  lemma CpuOf(s: Sys, i: nat)
    requires Inv(s) && i < |s.cpus|
    ensures CpuInv(s.cpus[i], s.locks)
  {
    hide CpuInv, Owned, Exclusive;
  }

  lemma TakeKeeps(s: Sys, i: nat)
    requires Inv(s) && i < |s.cpus| && s.cpus[i].phase.Spinning?
    ensures Inv(Advance(s, i, s.cpus[i]))
  {
    hide Inv, Exclusive, Owned;
    var c := s.cpus[i];
    CpuOf(s, i);
    var l := c.phase.l;
    if !s.locks[l].taken {
      Moves(s, i, c.(phase := Took(l)), s.locks[l := s.locks[l].(taken := true)], l);
    }
  }

  lemma SaveKeeps(s: Sys, i: nat)
    requires Inv(s) && i < |s.cpus| && s.cpus[i].phase.Took?
    ensures Inv(Advance(s, i, s.cpus[i]))
  {
    hide Inv, Exclusive, Owned;
    var c := s.cpus[i];
    CpuOf(s, i);
    var l := c.phase.l;
    assert l !in c.held;
    Moves(s, i, c.(phase := Saved(l)), s.locks[l := s.locks[l].(interrupts := c.flag)], l);
  }

  lemma EnterKeeps(s: Sys, i: nat)
    requires Inv(s) && i < |s.cpus| && s.cpus[i].phase.Saved?
    ensures Inv(Advance(s, i, s.cpus[i]))
  {
    hide Inv, Exclusive, Owned;
    var c := s.cpus[i];
    CpuOf(s, i);
    Moves(s, i, c.(phase := Running, flag := false, held := c.held + [c.phase.l]), s.locks, c.phase.l);
  }

  lemma RestoreKeeps(s: Sys, i: nat)
    requires Inv(s) && i < |s.cpus| && s.cpus[i].phase.Restoring?
    ensures Inv(Advance(s, i, s.cpus[i]))
  {
    hide Inv, Exclusive, Owned;
    var c := s.cpus[i];
    CpuOf(s, i);
    Moves(s, i, c.(phase := Restored(c.phase.l), flag := c.phase.value), s.locks, c.phase.l);
  }

  lemma ClearKeeps(s: Sys, i: nat)
    requires Inv(s) && i < |s.cpus| && s.cpus[i].phase.Restored?
    ensures Inv(Advance(s, i, s.cpus[i]))
  {
    hide Inv, Exclusive, Owned;
    var c := s.cpus[i];
    CpuOf(s, i);
    var l := c.phase.l;
    var d := c.(phase := Running, held := c.held[..|c.held| - 1], before := c.before[..|c.before| - 1]);
    assert c.held == d.held + [l];
    assert l !in d.held;
    Moves(s, i, d, s.locks[l := s.locks[l].(taken := false)], l);
  }

  lemma AdvanceKeeps(s: Sys, i: nat)
    requires Inv(s) && i < |s.cpus| && !s.cpus[i].phase.Running?
    ensures Inv(Advance(s, i, s.cpus[i]))
  {
    hide Inv, Advance;
    match s.cpus[i].phase
    case Spinning(_) => TakeKeeps(s, i);
    case Took(_) => SaveKeeps(s, i);
    case Saved(_) => EnterKeeps(s, i);
    case Restoring(_, _) => RestoreKeeps(s, i);
    case Restored(_) => ClearKeeps(s, i);
  }

  lemma AcquireKeeps(s: Sys, i: nat, l: nat)
    requires Inv(s) && Enabled(s, i, Acquire(l))
    ensures Inv(Step(s, i, Acquire(l)))
  {
    hide Inv, Exclusive, Owned;
    var c := s.cpus[i];
    CpuOf(s, i);
    Moves(s, i, c.(phase := Spinning(l), before := c.before + [c.flag]), s.locks, l);
  }

  lemma ReleaseKeeps(s: Sys, i: nat)
    requires Inv(s) && Enabled(s, i, Release)
    ensures Inv(Step(s, i, Release))
  {
    hide Inv, Exclusive, Owned;
    var c := s.cpus[i];
    CpuOf(s, i);
    var l := c.held[|c.held| - 1];
    Moves(s, i, c.(phase := Restoring(l, s.locks[l].interrupts)), s.locks, l);
  }

  lemma StepKeeps(s: Sys, i: nat, a: Action)
    requires Inv(s)
    ensures Inv(Step(s, i, a))
  {
    hide Inv, Advance;
    if Enabled(s, i, a) {
      match a
      case Acquire(l) => AcquireKeeps(s, i, l);
      case Release => ReleaseKeeps(s, i);
      case SetFlag(v) => FlagKeeps(s, i, v);
      case Continue => AdvanceKeeps(s, i);
    }
  }

  lemma FlagKeeps(s: Sys, i: nat, v: bool)
    requires Inv(s) && Enabled(s, i, SetFlag(v))
    ensures Inv(Step(s, i, SetFlag(v)))
  {
    var t := Step(s, i, SetFlag(v));
    forall j, l: nat | 0 <= j < |s.cpus| ensures Owns(t.cpus[j], l) == Owns(s.cpus[j], l) { }
    forall l: nat | l < |s.locks| ensures Owned(t, l) == Owned(s, l) {
      if Owned(s, l) { var j :| 0 <= j < |s.cpus| && Owns(s.cpus[j], l); assert Owns(t.cpus[j], l); }
      if Owned(t, l) { var j :| 0 <= j < |t.cpus| && Owns(t.cpus[j], l); assert Owns(s.cpus[j], l); }
    }
  }

  /** The invariant holds in every state of every interleaving. */
  lemma {:induction false} RunKeeps(s: Sys, sched: Schedule)
    requires Initial(s)
    ensures Inv(Run(s, sched)) && |Run(s, sched).cpus| == |s.cpus| && |Run(s, sched).locks| == |s.locks|
  {
    if sched == [] {
      forall l: nat | l < |s.locks| ensures !Owned(s, l) { }
    } else {
      hide Inv, Step;
      var (i, a) := sched[|sched| - 1];
      RunKeeps(s, sched[..|sched| - 1]);
      StepKeeps(Run(s, sched[..|sched| - 1]), i, a);
      StepSize(Run(s, sched[..|sched| - 1]), i, a);
    }
  }

  lemma StepSize(s: Sys, i: nat, a: Action)
    ensures |Step(s, i, a).cpus| == |s.cpus| && |Step(s, i, a).locks| == |s.locks|
  {
  }

  // ---------------------------------------------------------------- what it means

  /** Mutual exclusion: no two CPUs are between acquire and release of the same lock. */
  lemma MutualExclusion(s: Sys, sched: Schedule, i: nat, j: nat, l: nat)
    requires Initial(s) && i < |s.cpus| && j < |s.cpus| && l < |s.locks|
    ensures |Run(s, sched).cpus| == |s.cpus|
    ensures Owns(Run(s, sched).cpus[i], l) && Owns(Run(s, sched).cpus[j], l) ==> i == j
  {
    RunKeeps(s, sched);
    hide Run, Owns;
  }

  /** The field `interrupts` of every lock that a CPU holds is that CPU's interrupt flag at the time
      it called acquire. */
  lemma SavedIsHoldersFlag(s: Sys, sched: Schedule, i: nat, k: nat)
    requires Initial(s) && i < |s.cpus|
    ensures var t := Run(s, sched);
            && |t.cpus| == |s.cpus| && |t.locks| == |s.locks|
            && (k < |t.cpus[i].held| ==>
                  t.cpus[i].held[k] < |t.locks| && k < |t.cpus[i].before| && t.locks[t.cpus[i].held[k]].interrupts == t.cpus[i].before[k])
  {
    RunKeeps(s, sched);
    hide Run;
    var t := Run(s, sched);
    assert CpuInv(t.cpus[i], t.locks);
  }

  /** The interrupt flag that a CPU has outside all locks, or will have once it has released them. */
  function OuterFlag(c: Cpu): (ok: bool)
  {
    if c.before == [] then c.flag else c.before[0]
  }

  predicate NoSetFlag(sched: Schedule, i: nat)
  {
    forall k :: 0 <= k < |sched| ==> sched[k].0 == i ==> !sched[k].1.SetFlag?
  }

  lemma StepOuter(s: Sys, i: nat, a: Action, j: nat)
    requires Inv(s) && j < |s.cpus| && (i == j ==> !a.SetFlag?)
    ensures |Step(s, i, a).cpus| == |s.cpus| && OuterFlag(Step(s, i, a).cpus[j]) == OuterFlag(s.cpus[j])
  {
    if Enabled(s, i, a) && i == j {
      assert CpuInv(s.cpus[i], s.locks);
    }
  }

  /** Releasing restores, last in first out, whatever is nested and however CPUs interleave: back
      outside all locks, a CPU has the interrupt flag it had before its first acquire. */
  lemma {:induction false} NestingRestores(s: Sys, sched: Schedule, i: nat)
    requires Initial(s) && i < |s.cpus| && NoSetFlag(sched, i)
    ensures |Run(s, sched).cpus| == |s.cpus|
    ensures OuterFlag(Run(s, sched).cpus[i]) == s.cpus[i].flag
    ensures var c := Run(s, sched).cpus[i]; c.phase.Running? && c.held == [] ==> c.flag == s.cpus[i].flag
  {
    RunKeeps(s, sched);
    assert CpuInv(Run(s, sched).cpus[i], Run(s, sched).locks);
    if sched != [] {
      var before := sched[..|sched| - 1];
      assert NoSetFlag(before, i);
      NestingRestores(s, before, i);
      RunKeeps(s, before);
      hide Step, Inv, CpuInv;
      StepOuter(Run(s, before), sched[|sched| - 1].0, sched[|sched| - 1].1, i);
    }
  }

  // ---------------------------------------------------------------- the windows

  /** A CPU owns a lock while its interrupts are on. */
  ghost predicate ExposedOwner(c: Cpu)
  {
    c.flag && exists l: nat :: Owns(c, l)
  }

  /** An owner has its interrupts on exactly in two windows of the outermost lock: after the lock was
      taken and before cli, and after sti and before the lock is cleared, if they were on before. */
  lemma ExposedIff(s: Sys, sched: Schedule, i: nat)
    requires Initial(s) && i < |s.cpus|
    ensures |Run(s, sched).cpus| == |s.cpus|
    ensures var c := Run(s, sched).cpus[i];
            ExposedOwner(c) <==> |c.before| == 1 && c.before[0] && (c.phase.Took? || c.phase.Saved? || c.phase.Restored?)
  {
    RunKeeps(s, sched);
    hide Run;
    var c := Run(s, sched).cpus[i];
    assert CpuInv(c, Run(s, sched).locks);
    if c.phase.Took? || c.phase.Saved? || c.phase.Restored? { assert Owns(c, c.phase.l); }
    if c.held != [] { assert Owns(c, c.held[0]); }
  }

  /** Interrupts are off for locked code in every run that leaves the flag alone exactly when they
      were off from the start. */
  lemma AlwaysOffIff(s: Sys, i: nat)
    requires Initial(s) && i < |s.cpus| && |s.locks| > 0
    ensures (forall sched: Schedule | NoSetFlag(sched, i) :: |Run(s, sched).cpus| == |s.cpus| && !ExposedOwner(Run(s, sched).cpus[i]))
            <==> !s.cpus[i].flag
  {
    if s.cpus[i].flag {
      var sched: Schedule := [(i, Acquire(0)), (i, Continue)];
      assert NoSetFlag(sched, i);
      assert sched[..1] == [(i, Acquire(0))] && sched[..1][..0] == [];
      var s1 := Step(s, i, Acquire(0));
      assert Run(s, sched[..1][..0]) == s;
      assert Run(s, sched[..1]) == s1;
      assert Run(s, sched) == Step(s1, i, Continue);
      assert Owns(Run(s, sched).cpus[i], 0);
    } else {
      forall sched: Schedule | NoSetFlag(sched, i)
        ensures |Run(s, sched).cpus| == |s.cpus| && !ExposedOwner(Run(s, sched).cpus[i])
      {
        NestingRestores(s, sched, i);
        ExposedIff(s, sched, i);
      }
    }
  }

  // ---------------------------------------------------------------- no circular wait

  /** CPU i spins on a lock that is taken. */
  predicate Blocked(s: Sys, i: nat)
  {
    i < |s.cpus| && s.cpus[i].phase.Spinning? && s.cpus[i].phase.l < |s.locks| && s.locks[s.cpus[i].phase.l].taken
  }

  /** A CPU that waits for l owns only locks below l. */
  lemma OwnsBelow(s: Sys, i: nat, k: nat)
    requires Inv(s) && i < |s.cpus| && s.cpus[i].phase.Spinning? && Owns(s.cpus[i], k)
    ensures k < s.cpus[i].phase.l < |s.locks|
  {
    assert CpuInv(s.cpus[i], s.locks);
  }

  /** Waiting follows the lock order upwards, so it ends at the owner of some lock that can go on. */
  lemma {:induction false} WaitEnds(s: Sys, i: nat) returns (j: nat, k: nat)
    requires Inv(s) && Blocked(s, i)
    ensures j < |s.cpus| && j != i && !Blocked(s, j)
    ensures s.cpus[i].phase.l <= k < |s.locks| && Owns(s.cpus[j], k)
    decreases |s.locks| - s.cpus[i].phase.l
  {
    var l := s.cpus[i].phase.l;
    assert Owned(s, l);
    j :| 0 <= j < |s.cpus| && Owns(s.cpus[j], l);
    k := l;
    hide Owns, CpuInv;
    if j == i { OwnsBelow(s, i, l); }
    if Blocked(s, j) {
      OwnsBelow(s, j, l);
      j, k := WaitEnds(s, j);
      if j == i { OwnsBelow(s, i, k); }
    }
  }

  /** No deadlock in any interleaving: whenever a CPU is blocked, some other CPU owns a lock at least
      as high and is not blocked. */
  lemma NoCircularWait(s: Sys, sched: Schedule, i: nat) returns (j: nat, k: nat)
    requires Initial(s) && Blocked(Run(s, sched), i)
    ensures var t := Run(s, sched);
            j < |t.cpus| && j != i && !Blocked(t, j) && t.cpus[i].phase.l <= k < |t.locks| && Owns(t.cpus[j], k)
  {
    RunKeeps(s, sched);
    j, k := WaitEnds(Run(s, sched), i);
  }
}
