/** SMP bring-up cannot get stuck: in every reachable state some CPU can move until the boot processor
    is done, and no schedule moves more than a fixed number of times. */
module SmpProgress {
  import opened Words
  import opened Gdts
  import opened Smps
  import PmmSpec

  /** More steps than one round of the boot processor's loop takes. */
  const ROUND: nat := 21

  /** How far CPU c has come. */
  function PcRank(cfg: Config, c: nat, pc: Pc): (v: nat)
  {
    match pc
    case Loop(i) => i * ROUND
    case Fill(i, step) => i * ROUND + 1 + step
    case Goto(i) => i * ROUND + 4
    case Unlock(i) => i * ROUND + 5
    case Wait => cfg.n * ROUND + 1
    case Done => cfg.n * ROUND + 2
    case Parked => 0
    case Entering => 1
    case Halted => 19
    case Work(e, k, _, _, _) => if c == cfg.bsp then e * ROUND + 4 + k else 2 + k
  }

  /** The sum over the first n CPUs. */
  function Rank(cfg: Config, pcs: seq<Pc>, n: nat): (v: nat)
    requires n <= |pcs|
  {
    if n == 0 then 0 else Rank(cfg, pcs, n - 1) + PcRank(cfg, n - 1, pcs[n - 1])
  }

  lemma {:induction false} RankOfOther(cfg: Config, pcs: seq<Pc>, c: nat, pc: Pc, n: nat)
    requires n <= |pcs| && c < |pcs|
    ensures Rank(cfg, pcs[c := pc], n) == Rank(cfg, pcs, n) + if c < n then PcRank(cfg, c, pc) - PcRank(cfg, c, pcs[c]) else 0
  {
    if n > 0 {
      RankOfOther(cfg, pcs, c, pc, n - 1);
      hide PcRank;
    }
  }

  /** No program counter of a reachable state ranks above the boot processor's last one. */
  lemma PcRankBound(cfg: Config, s: Sys, c: nat)
    requires Inv(cfg, s) && c < cfg.n
    ensures PcRank(cfg, c, s.pcs[c]) <= cfg.n * ROUND + 2
  {
    assert CpuInv(cfg, s, c);
    var pc := s.pcs[c];
    if pc.Work? { assert WorkInv(cfg, s, c, pc); }
    hide FieldsSet, TssAddress, Filled, SetUp;
    if Index(cfg, pc) < cfg.n { MulMono(Index(cfg, pc) + 1, cfg.n, ROUND); }
  }

  lemma {:induction false} RankBound(cfg: Config, s: Sys, n: nat)
    requires Inv(cfg, s) && n <= cfg.n && n <= |s.pcs|
    ensures Rank(cfg, s.pcs, n) <= n * (cfg.n * ROUND + 2)
  {
    hide PcRank, Inv;
    if n > 0 {
      RankBound(cfg, s, n - 1);
      PcRankBound(cfg, s, n - 1);
      OneMoreTerm(n, cfg.n * ROUND + 2);
    }
  }

  lemma OneMoreTerm(n: nat, m: nat)
    requires n > 0
    ensures (n - 1) * m + m == n * m
  {
  }

  // ---------------------------------------------------------------- every move is progress

  /** A step outside Work either changes nothing or raises the rank. */
  lemma PlainStepRaises(cfg: Config, s: Sys, c: nat)
    requires Inv(cfg, s) && c < cfg.n && !s.pcs[c].Work?
    ensures var t := Step(cfg, s, c);
            t == s || (t.pcs == s.pcs[c := t.pcs[c]] && PcRank(cfg, c, t.pcs[c]) > PcRank(cfg, c, s.pcs[c]))
  {
    hide WorkStep, WorkInv, Filled, SetUp, TssAddress;
    assert CpuInv(cfg, s, c);
    var pc := s.pcs[c];
    if pc.Loop? && pc.i >= cfg.n { assert pc.i == cfg.n; }
    if pc.Fill? { SameId(cfg, pc.i); }
  }

  lemma SameId(cfg: Config, i: nat)
    requires WfConfig(cfg) && i < cfg.n
    ensures cfg.lapic[i] == cfg.lapic[cfg.bsp] <==> i == cfg.bsp
  {
  }

  lemma WorkStepRaises(cfg: Config, s: Sys, c: nat)
    requires Inv(cfg, s) && c < cfg.n && s.pcs[c].Work?
    ensures var t := Step(cfg, s, c);
            t.pcs == s.pcs[c := t.pcs[c]] && PcRank(cfg, c, t.pcs[c]) > PcRank(cfg, c, s.pcs[c])
  {
    WorkCounter(cfg, s, c);
    assert CpuInv(cfg, s, c);
    assert WorkInv(cfg, s, c, s.pcs[c]);
    var t := Step(cfg, s, c);
    OnlyOwnPc(cfg, s, c);
    SameEntry(cfg, s, c);
    hide Step, Inv, WorkInv, CpuInv;
  }

  lemma OnlyOwnPc(cfg: Config, s: Sys, c: nat)
    requires WfConfig(cfg) && Sized(cfg, s) && c < cfg.n
    ensures |Step(cfg, s, c).pcs| == cfg.n && Step(cfg, s, c).pcs == s.pcs[c := Step(cfg, s, c).pcs[c]]
  {
    hide Step, WfConfig;
    StepSized(cfg, s, c);
    forall d: nat | d < cfg.n && d != c ensures Step(cfg, s, c).pcs[d] == s.pcs[d] {
      StepOthers(cfg, s, c, d);
    }
  }

  lemma SameEntry(cfg: Config, s: Sys, c: nat)
    requires WfConfig(cfg) && Sized(cfg, s) && c < cfg.n && s.pcs[c].Work?
    ensures var pc' := Step(cfg, s, c).pcs[c]; pc'.Work? ==> pc'.e == s.pcs[c].e
  {
    hide SetField, TssAddress, FieldsSet, Base;
  }

  lemma StepRaises(cfg: Config, s: Sys, c: nat)
    requires WfConfig(cfg) && Sized(cfg, s) && Inv(cfg, s)
    ensures var t := Step(cfg, s, c);
            |t.pcs| == cfg.n && (t == s || Rank(cfg, t.pcs, cfg.n) > Rank(cfg, s.pcs, cfg.n))
  {
    StepSized(cfg, s, c);
    if c < cfg.n {
      if s.pcs[c].Work? { WorkStepRaises(cfg, s, c); } else { PlainStepRaises(cfg, s, c); }
      hide Step, Inv, PcRank;
      RankOfOther(cfg, s.pcs, c, Step(cfg, s, c).pcs[c], cfg.n);
    }
  }

  /** A bound on the moves of any schedule. */
  function MostMoves(cfg: Config): (v: nat)
  {
    cfg.n * (cfg.n * ROUND + 2)
  }

  /** How many steps of a schedule change the state. */
  ghost function Moves(cfg: Config, s: Sys, sched: seq<nat>): (n: nat)
    requires WfConfig(cfg) && Sized(cfg, s)
  {
    if sched == [] then 0
    else
      var before := sched[..|sched| - 1];
      Moves(cfg, s, before) + if Run(cfg, s, sched) != Run(cfg, s, before) then 1 else 0
  }

  /** However CPUs interleave and spin, bring-up takes at most n * (21n + 2) moves. */
  lemma {:induction false} MovesBounded(cfg: Config, s: Sys, sched: seq<nat>)
    requires Initial(cfg, s)
    ensures Moves(cfg, s, sched) <= MostMoves(cfg)
  {
    hide Run, Rank, Moves, PcRank, CpuInv;
    MovesAreProgress(cfg, s, sched);
    RunKeeps(cfg, s, sched);
    RankBound(cfg, Run(cfg, s, sched), cfg.n);
  }

  lemma {:induction false} MovesAreProgress(cfg: Config, s: Sys, sched: seq<nat>)
    requires Initial(cfg, s)
    ensures Moves(cfg, s, sched) <= Rank(cfg, Run(cfg, s, sched).pcs, cfg.n)
  {
    if sched != [] {
      var before := sched[..|sched| - 1];
      MovesAreProgress(cfg, s, before);
      RunKeeps(cfg, s, before);
      StepRaises(cfg, Run(cfg, s, before), sched[|sched| - 1]);
      hide Step, Inv, Rank;
    }
  }

  // ---------------------------------------------------------------- somebody can move

  lemma InsideMoves(cfg: Config, s: Sys, c: nat)
    requires Inv(cfg, s) && c < cfg.n && Inside(s.pcs[c])
    ensures Step(cfg, s, c) != s
  {
    if s.pcs[c].Work? {
      WorkStepRaises(cfg, s, c);
    } else {
      assert CpuInv(cfg, s, c);
      hide WorkStep, WorkInv, Filled, SetUp, TssAddress;
      assert Step(cfg, s, c).pcs[c] != s.pcs[c];
    }
  }

  /** With the lock free, an application processor that has not counted yet can move once the boot
      processor waits for it. */
  lemma WaitedForMoves(cfg: Config, s: Sys, c: nat)
    requires Inv(cfg, s) && c < cfg.n && !s.locked && s.pcs[cfg.bsp].Wait? && !Counted(cfg, c, s.pcs[c])
    ensures Step(cfg, s, c) != s
  {
    assert CpuInv(cfg, s, c) && CpuInv(cfg, s, cfg.bsp);
    hide WorkStep, WorkInv, Filled, SetUp, TssAddress;
    assert c != cfg.bsp && s.entries[c].go;
    assert Step(cfg, s, c).pcs[c] != s.pcs[c];
  }

  /** No deadlock: until the boot processor is done, some CPU can move. */
  lemma SomebodyMoves(cfg: Config, s: Sys) returns (c: nat)
    requires Inv(cfg, s) && !s.pcs[cfg.bsp].Done?
    ensures c < cfg.n && Step(cfg, s, c) != s
  {
    c := cfg.bsp;
    assert CpuInv(cfg, s, c);
    if s.locked {
      c :| 0 <= c < cfg.n && Inside(s.pcs[c]);
      InsideMoves(cfg, s, c);
    } else if s.pcs[c].Wait? && s.online != cfg.n {
      CountBound(cfg, s.pcs);
      c := Uncounted(cfg, s.pcs);
      WaitedForMoves(cfg, s, c);
    } else {
      hide WorkStep, WorkInv, Filled, SetUp, TssAddress;
      assert Step(cfg, s, c).pcs[c] != s.pcs[c];
    }
  }

  lemma Uncounted(cfg: Config, pcs: seq<Pc>) returns (c: nat)
    requires |pcs| == cfg.n && |CountedCpus(cfg, pcs)| != cfg.n
    ensures c < cfg.n && !Counted(cfg, c, pcs[c])
  {
    hide Counted;
    if forall d: nat :: d < cfg.n ==> Counted(cfg, d, pcs[d]) {
      assert CountedCpus(cfg, pcs) == PmmSpec.Range(0, cfg.n);
      PmmSpec.RangeSize(0, cfg.n);
      assert false;
    }
    c :| c < cfg.n && !Counted(cfg, c, pcs[c]);
  }

  /** One more move of a schedule. */
  lemma OneMove(cfg: Config, s: Sys, sched: seq<nat>) returns (c: nat)
    requires Initial(cfg, s) && !Run(cfg, s, sched).pcs[cfg.bsp].Done?
    ensures Rank(cfg, Run(cfg, s, sched).pcs, cfg.n) < Rank(cfg, Run(cfg, s, sched + [c]).pcs, cfg.n) <= MostMoves(cfg)
  {
    hide Step, Rank;
    var t := Run(cfg, s, sched);
    RunKeeps(cfg, s, sched);
    c := SomebodyMoves(cfg, t);
    StepRaises(cfg, t, c);
    assert (sched + [c])[..|sched|] == sched;
    assert Run(cfg, s, sched + [c]) == Step(cfg, t, c);
    RunKeeps(cfg, s, sched + [c]);
    RankBound(cfg, Run(cfg, s, sched + [c]), cfg.n);
  }

  lemma {:induction false} FinishWithin(cfg: Config, s: Sys, sched: seq<nat>, left: nat) returns (rest: seq<nat>)
    requires Initial(cfg, s) && Rank(cfg, Run(cfg, s, sched).pcs, cfg.n) + left >= MostMoves(cfg)
    ensures Run(cfg, s, sched + rest).pcs[cfg.bsp].Done?
    decreases left
  {
    hide Step, Rank, MostMoves, Run;
    if Run(cfg, s, sched).pcs[cfg.bsp].Done? {
      rest := [];
      assert sched + rest == sched;
    } else {
      var c := OneMove(cfg, s, sched);
      var more := FinishWithin(cfg, s, sched + [c], left - 1);
      rest := [c] + more;
      assert sched + rest == sched + [c] + more;
    }
  }

  /** From every state of every interleaving, bring-up can be completed. */
  lemma CanFinish(cfg: Config, s: Sys, sched: seq<nat>) returns (rest: seq<nat>)
    requires Initial(cfg, s)
    ensures Run(cfg, s, sched + rest).pcs[cfg.bsp].Done?
  {
    rest := FinishWithin(cfg, s, sched, MostMoves(cfg));
  }
}
