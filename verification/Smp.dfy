/** SMP bring-up: the boot processor and the application processors, one memory access at a time, in
    every interleaving. */
module Smps {
  import opened Words
  import opened Gdts
  import PmmSpec

  /** sizeof(cpu_local_t), and the offset of its tss. */
  const LOCAL_SIZE: nat := 120
  const TSS_OFFSET: nat := 16

  /** smp_tag->smp_info: local APIC ids; the stacks that pmm_allocz provides; where cpu_locals lies;
      and which entry is the boot processor's. */
  datatype Config = Config(n: nat, bsp: nat, lapic: seq<nat>, stacks: seq<Word>, base: nat)

  predicate WfConfig(cfg: Config)
  {
    && cfg.bsp < cfg.n == |cfg.lapic| == |cfg.stacks|
    && cfg.n < 0x1_0000_0000
    && (forall i, j :: 0 <= i < j < cfg.n ==> cfg.lapic[i] != cfg.lapic[j])
    && cfg.base + cfg.n * LOCAL_SIZE <= WORD_LIMIT
  }

  /** &cpu_locals[c].tss. */
  function TssAddress(cfg: Config, c: nat): (v: Word)
    requires WfConfig(cfg) && c < cfg.n
  {
    MulMono(c + 1, cfg.n, LOCAL_SIZE);
    cfg.base + c * LOCAL_SIZE + TSS_OFFSET
  }

  datatype Entry = Entry(extra: nat, stack: nat, go: bool)
  datatype Local = Local(number: nat, lapic: nat, rsp0: nat)
  datatype Task = NotLoaded | Loaded(base: nat)

  /** Program counters. The boot processor: Loop at the head of the for loop, Fill inside it before
      the comparison with bsp_lapic_id, Goto before goto_address is set, Unlock before the release,
      Wait in the final spin loop, Done after it. An application processor: Parked until its
      goto_address is set, Entering before it has the lock, Halted at the end. Both: Work(e, k, ..)
      before step k of generic_cpu_local_init for entry e, of the counting, and of the release. */
  datatype Pc =
    | Loop(i: nat) | Fill(i: nat, step: nat) | Goto(i: nat) | Unlock(i: nat) | Wait | Done
    | Parked | Entering | Halted
    | Work(e: nat, k: nat, num: nat, stack: nat, seen: nat)

  datatype Sys = Sys(locked: bool, online: nat, gdt: Descriptor, locals: seq<Local>, entries: seq<Entry>, task: seq<Task>,
                     pcs: seq<Pc>, fault: bool)

  predicate Sized(cfg: Config, s: Sys)
  {
    |s.locals| == |s.entries| == |s.task| == |s.pcs| == cfg.n
  }

  /** Work steps: 0-1 read the entry, 2-4 fill the local block, 5-12 write the descriptor, 13 ltr,
      14-15 increment cpus_online, 16 release. */
  const LTR: nat := 5 + FIELDS

  function At(s: Sys, c: nat, pc: Pc): (r: Sys)
    requires c < |s.pcs|
  {
    s.(pcs := s.pcs[c := pc])
  }

  function WorkStep(cfg: Config, s: Sys, c: nat, pc: Pc): (r: Sys)
    requires WfConfig(cfg) && Sized(cfg, s) && c < cfg.n && pc.Work?
  {
    var next := At(s, c, pc.(k := pc.k + 1));
    if pc.e >= cfg.n || pc.num >= cfg.n then s
    else if pc.k == 0 then At(s, c, pc.(k := 1, num := s.entries[pc.e].extra))
    else if pc.k == 1 then At(s, c, pc.(k := 2, stack := s.entries[pc.e].stack))
    else if pc.k == 2 then next.(locals := s.locals[pc.num := s.locals[pc.num].(number := pc.num)])
    else if pc.k == 3 then next.(locals := s.locals[pc.num := s.locals[pc.num].(lapic := cfg.lapic[pc.e])])
    else if pc.k == 4 then next.(locals := s.locals[pc.num := s.locals[pc.num].(rsp0 := pc.stack)])
    else if pc.k < LTR then next.(gdt := SetField(s.gdt, pc.k - 5, TssAddress(cfg, pc.num)))
    else if pc.k == LTR then
      if s.gdt.flags1 != TSS_AVAILABLE then s.(fault := true)
      else next.(task := s.task[c := Loaded(Base(s.gdt))], gdt := s.gdt.(flags1 := TSS_BUSY))
    else if pc.k == LTR + 1 then At(s, c, pc.(k := LTR + 2, seen := s.online))
    else if pc.k == LTR + 2 then next.(online := (pc.seen + 1) % 0x1_0000_0000)
    else At(s, c, if c == cfg.bsp then Loop(pc.e + 1) else Halted).(locked := false)
  }

  /** The next step of CPU c. A CPU that spins, is parked or has halted does not move. */
  function Step(cfg: Config, s: Sys, c: nat): (r: Sys)
    requires WfConfig(cfg) && Sized(cfg, s)
  {
    if c >= cfg.n || s.fault then s
    else
      match s.pcs[c]
      case Loop(i) =>
        if i >= cfg.n then At(s, c, Wait) else if s.locked then s else At(s, c, Fill(i, 0)).(locked := true)
      case Fill(i, k) =>
        if i >= cfg.n then s
        else if k == 0 then At(s, c, Fill(i, 1)).(entries := s.entries[i := s.entries[i].(extra := i)])
        else if k == 1 then At(s, c, Fill(i, 2)).(entries := s.entries[i := s.entries[i].(stack := cfg.stacks[i])])
        else At(s, c, if cfg.lapic[i] == cfg.lapic[cfg.bsp] then Work(i, 0, 0, 0, 0) else Goto(i))
      case Goto(i) => if i >= cfg.n then s else At(s, c, Unlock(i)).(entries := s.entries[i := s.entries[i].(go := true)])
      case Unlock(i) => At(s, c, Loop(i + 1)).(locked := false)
      case Wait => if s.online == cfg.n then At(s, c, Done) else s
      case Done => s
      case Parked => if s.entries[c].go then At(s, c, Entering) else s
      case Entering => if s.locked then s else At(s, c, Work(c, 0, 0, 0, 0)).(locked := true)
      case Halted => s
      case Work(_, _, _, _, _) => WorkStep(cfg, s, c, s.pcs[c])
  }

  lemma StepSized(cfg: Config, s: Sys, c: nat)
    requires WfConfig(cfg) && Sized(cfg, s)
    ensures Sized(cfg, Step(cfg, s, c))
  {
    hide WfConfig, SetField, TssAddress, Base, WorkStep;
    if c < cfg.n && s.pcs[c].Work? { WorkSized(cfg, s, c, s.pcs[c]); }
  }

  lemma WorkSized(cfg: Config, s: Sys, c: nat, pc: Pc)
    requires WfConfig(cfg) && Sized(cfg, s) && c < cfg.n && pc.Work?
    ensures Sized(cfg, WorkStep(cfg, s, c, pc))
  {
    hide WfConfig, SetField, TssAddress, Base;
  }

  function Run(cfg: Config, s: Sys, sched: seq<nat>): (t: Sys)
    requires WfConfig(cfg) && Sized(cfg, s)
    ensures Sized(cfg, t)
  {
    if sched == [] then s
    else
      var before := Run(cfg, s, sched[..|sched| - 1]);
      StepSized(cfg, before, sched[|sched| - 1]);
      Step(cfg, before, sched[|sched| - 1])
  }

  predicate Initial(cfg: Config, s: Sys)
  {
    && WfConfig(cfg) && Sized(cfg, s)
    && !s.locked && s.online == 0 && !s.fault
    && (forall c :: 0 <= c < cfg.n ==> s.pcs[c] == if c == cfg.bsp then Loop(0) else Parked)
    && (forall c :: 0 <= c < cfg.n ==> !s.entries[c].go)
  }

  // ---------------------------------------------------------------- the invariant

  /** The lock is held. */
  predicate Inside(pc: Pc)
  {
    pc.Fill? || pc.Goto? || pc.Unlock? || pc.Work?
  }

  /** The boot processor's loop counter. */
  function Index(cfg: Config, pc: Pc): (v: nat)
  {
    match pc
    case Loop(i) => i
    case Fill(i, _) => i
    case Goto(i) => i
    case Unlock(i) => i
    case Work(e, _, _, _, _) => e
    case _ => cfg.n
  }

  /** CPU c has stored its increment. */
  predicate Counted(cfg: Config, c: nat, pc: Pc)
  {
    if pc.Work? then pc.k > LTR + 2
    else if c == cfg.bsp then Index(cfg, pc) > cfg.bsp
    else pc.Halted?
  }

  predicate Filled(cfg: Config, s: Sys, e: nat)
    requires WfConfig(cfg) && Sized(cfg, s) && e < cfg.n
  {
    s.entries[e].extra == e && s.entries[e].stack == cfg.stacks[e]
  }

  /** CPU c's local block and task register are as they should be. */
  predicate SetUp(cfg: Config, s: Sys, c: nat)
    requires WfConfig(cfg) && Sized(cfg, s) && c < cfg.n
  {
    s.locals[c] == Local(c, cfg.lapic[c], cfg.stacks[c]) && s.task[c] == Loaded(TssAddress(cfg, c))
  }

  /** How far CPU c has come at step k. */
  predicate WorkInv(cfg: Config, s: Sys, c: nat, pc: Pc)
    requires WfConfig(cfg) && Sized(cfg, s) && c < cfg.n && pc.Work?
  {
    && pc.e == c && pc.k <= LTR + 3 && Filled(cfg, s, c)
    && pc.num < cfg.n && (pc.k > 0 ==> pc.num == c)
    && (pc.k > 1 ==> pc.stack == cfg.stacks[c])
    && (pc.k > 2 ==> s.locals[c].number == c)
    && (pc.k > 3 ==> s.locals[c].lapic == cfg.lapic[c])
    && (pc.k > 4 ==> s.locals[c].rsp0 == cfg.stacks[c])
    && (5 <= pc.k <= LTR ==> FieldsSet(s.gdt, pc.k - 5, TssAddress(cfg, c)))
    && (pc.k > LTR ==> s.task[c] == Loaded(TssAddress(cfg, c)))
    && (pc.k == LTR + 2 ==> pc.seen == s.online)
  }

  predicate BspInv(cfg: Config, s: Sys, pc: Pc)
    requires WfConfig(cfg) && Sized(cfg, s)
  {
    var i := Index(cfg, pc);
    && !pc.Parked? && !pc.Entering? && !pc.Halted?
    && i <= cfg.n && (forall e: nat :: e < i ==> Filled(cfg, s, e))
    && (forall e: nat :: e < cfg.n ==> (s.entries[e].go <==> e != cfg.bsp && (e < i || (e == i && pc.Unlock?))))
    && (pc.Fill? ==> i < cfg.n && pc.step <= 2 && (pc.step > 0 ==> s.entries[i].extra == i) && (pc.step > 1 ==> Filled(cfg, s, i)))
    && (pc.Goto? || pc.Unlock? ==> i < cfg.n && i != cfg.bsp && Filled(cfg, s, i))
    && (pc.Work? ==> WorkInv(cfg, s, cfg.bsp, pc))
    && (i > cfg.bsp ==> SetUp(cfg, s, cfg.bsp))
  }

  predicate ApInv(cfg: Config, s: Sys, c: nat, pc: Pc)
    requires WfConfig(cfg) && Sized(cfg, s) && c < cfg.n
  {
    && (pc.Parked? || pc.Entering? || pc.Work? || pc.Halted?)
    && (!pc.Parked? ==> s.entries[c].go && Filled(cfg, s, c))
    && (pc.Work? ==> WorkInv(cfg, s, c, pc))
    && (pc.Halted? ==> SetUp(cfg, s, c))
  }

  predicate CpuInv(cfg: Config, s: Sys, c: nat)
    requires WfConfig(cfg) && Sized(cfg, s) && c < cfg.n
  {
    if c == cfg.bsp then BspInv(cfg, s, s.pcs[c]) else ApInv(cfg, s, c, s.pcs[c])
  }

  ghost function CountedCpus(cfg: Config, pcs: seq<Pc>): (s: set<nat>)
    requires |pcs| == cfg.n
  {
    set c: nat | c < cfg.n && Counted(cfg, c, pcs[c])
  }

  ghost predicate Inv(cfg: Config, s: Sys)
  {
    && WfConfig(cfg) && Sized(cfg, s) && !s.fault
    && (forall c: nat :: c < cfg.n ==> CpuInv(cfg, s, c))
    && (forall c: nat, d: nat :: c < d < cfg.n ==> !(Inside(s.pcs[c]) && Inside(s.pcs[d])))
    && (forall c: nat :: c < cfg.n && Inside(s.pcs[c]) ==> s.locked)
    && (s.locked ==> exists c: nat :: c < cfg.n && Inside(s.pcs[c]))
    && s.online == |CountedCpus(cfg, s.pcs)|
    && (s.pcs[cfg.bsp].Done? ==> s.online == cfg.n)
  }

  // ---------------------------------------------------------------- one step of one CPU

  /** What CPU c may change, so that the other CPUs do not notice. */
  ghost predicate OnlyOwn(cfg: Config, s: Sys, t: Sys, c: nat)
    requires WfConfig(cfg) && Sized(cfg, s) && Sized(cfg, t) && c < cfg.n
  {
    && t.pcs == s.pcs[c := t.pcs[c]]
    && (forall d: nat :: d < cfg.n && d != c ==> t.locals[d] == s.locals[d] && t.task[d] == s.task[d])
    && (t.gdt != s.gdt || t.online != s.online ==> Inside(s.pcs[c]))
    && (c != cfg.bsp ==> t.entries == s.entries)
    && (forall e: nat :: e < cfg.n && (s.entries[e].go || e < Index(cfg, s.pcs[cfg.bsp])) ==> t.entries[e] == s.entries[e])
  }

  lemma WorkKept(cfg: Config, s: Sys, t: Sys, d: nat, pc: Pc)
    requires WfConfig(cfg) && Sized(cfg, s) && Sized(cfg, t) && d < cfg.n && pc.Work? && WorkInv(cfg, s, d, pc)
    requires t.locals[d] == s.locals[d] && t.task[d] == s.task[d] && t.gdt == s.gdt && t.online == s.online && t.entries[d] == s.entries[d]
    ensures WorkInv(cfg, t, d, pc)
  {
    hide FieldsSet, TssAddress;
  }

  lemma OthersKeep(cfg: Config, s: Sys, t: Sys, c: nat, d: nat)
    requires Inv(cfg, s) && Sized(cfg, t) && c < cfg.n && d < cfg.n && d != c && OnlyOwn(cfg, s, t, c)
    ensures CpuInv(cfg, t, d)
  {
    assert CpuInv(cfg, s, d);
    assert Inside(s.pcs[d]) ==> !Inside(s.pcs[c]) by {
      assert if c < d then !(Inside(s.pcs[c]) && Inside(s.pcs[d])) else !(Inside(s.pcs[d]) && Inside(s.pcs[c]));
    }
    hide WorkInv;
    var pc := s.pcs[d];
    assert pc.Parked? || t.entries[d] == s.entries[d];
    if pc.Work? { WorkKept(cfg, s, t, d, pc); }
    hide Inv;
    if d == cfg.bsp {
      forall e: nat | e < Index(cfg, pc) ensures Filled(cfg, t, e) { assert Filled(cfg, s, e); }
    }
  }

  lemma Keeps(cfg: Config, s: Sys, t: Sys, c: nat)
    requires Inv(cfg, s) && Sized(cfg, t) && c < cfg.n && OnlyOwn(cfg, s, t, c) && !t.fault
    requires CpuInv(cfg, t, c)
    requires Inside(t.pcs[c]) && !Inside(s.pcs[c]) ==> !s.locked
    requires t.locked == if Inside(t.pcs[c]) == Inside(s.pcs[c]) then s.locked else Inside(t.pcs[c])
    requires Counted(cfg, c, s.pcs[c]) ==> Counted(cfg, c, t.pcs[c])
    requires t.online == s.online + if Counted(cfg, c, s.pcs[c]) == Counted(cfg, c, t.pcs[c]) then 0 else 1
    requires t.pcs[cfg.bsp].Done? && !s.pcs[cfg.bsp].Done? ==> s.online == cfg.n
    ensures Inv(cfg, t)
  {
    forall d: nat | d < cfg.n ensures CpuInv(cfg, t, d) {
      if d != c { OthersKeep(cfg, s, t, c, d); }
    }
    hide CpuInv, Counted;
    if t.locked && !Inside(t.pcs[c]) {
      var d: nat :| d < cfg.n && Inside(s.pcs[d]);
      assert Inside(t.pcs[d]);
    }
    CountOne(cfg, s.pcs, t.pcs[c], c);
    CountBound(cfg, t.pcs);
  }

  lemma CountOne(cfg: Config, pcs: seq<Pc>, pc: Pc, c: nat)
    requires |pcs| == cfg.n && c < cfg.n && (Counted(cfg, c, pcs[c]) ==> Counted(cfg, c, pc))
    ensures |CountedCpus(cfg, pcs[c := pc])| == |CountedCpus(cfg, pcs)| + if Counted(cfg, c, pcs[c]) == Counted(cfg, c, pc) then 0 else 1
  {
    hide Counted;
    var before, after := CountedCpus(cfg, pcs), CountedCpus(cfg, pcs[c := pc]);
    if Counted(cfg, c, pcs[c]) == Counted(cfg, c, pc) {
      assert after == before;
    } else {
      assert after == before + {c};
    }
  }

  lemma CountBound(cfg: Config, pcs: seq<Pc>)
    requires |pcs| == cfg.n
    ensures |CountedCpus(cfg, pcs)| <= cfg.n
    ensures |CountedCpus(cfg, pcs)| == cfg.n ==> forall c: nat :: c < cfg.n ==> Counted(cfg, c, pcs[c])
  {
    hide Counted;
    var all, some := PmmSpec.Range(0, cfg.n), CountedCpus(cfg, pcs);
    PmmSpec.RangeSize(0, cfg.n);
    PmmSpec.SubsetSize(some, all);
    assert |all - some| == |all| - |some|;
    if |some| == cfg.n {
      assert all - some == {};
      forall c: nat | c < cfg.n ensures Counted(cfg, c, pcs[c]) { assert c in all; }
    }
  }

  // ---------------------------------------------------------------- the boot processor's loop

  lemma LoopKeeps(cfg: Config, s: Sys, c: nat)
    requires Inv(cfg, s) && c < cfg.n && (s.pcs[c].Loop? || s.pcs[c].Wait?)
    ensures Inv(cfg, Step(cfg, s, c))
  {
    hide WorkInv;
    assert CpuInv(cfg, s, c);
    var t := Step(cfg, s, c);
    if t != s {
      forall e: nat | e < Index(cfg, t.pcs[c]) ensures Filled(cfg, t, e) { assert Filled(cfg, s, e); }
      assert CpuInv(cfg, t, c);
      Keeps(cfg, s, t, c);
    }
  }

  lemma FillKeeps(cfg: Config, s: Sys, c: nat)
    requires Inv(cfg, s) && c < cfg.n && s.pcs[c].Fill?
    ensures Inv(cfg, Step(cfg, s, c))
  {
    assert CpuInv(cfg, s, c);
    var i := s.pcs[c].i;
    var t := Step(cfg, s, c);
    assert cfg.lapic[i] == cfg.lapic[cfg.bsp] <==> i == cfg.bsp;
    forall e: nat | e < i ensures t.entries[e] == s.entries[e] && Filled(cfg, t, e) { assert Filled(cfg, s, e); }
    hide FieldsSet;
    Keeps(cfg, s, t, c);
  }

  lemma GotoKeeps(cfg: Config, s: Sys, c: nat)
    requires Inv(cfg, s) && c < cfg.n && (s.pcs[c].Goto? || s.pcs[c].Unlock?)
    ensures Inv(cfg, Step(cfg, s, c))
  {
    hide WorkInv;
    assert CpuInv(cfg, s, c);
    var i := s.pcs[c].i;
    var t := Step(cfg, s, c);
    forall e: nat | e < Index(cfg, t.pcs[c]) ensures Filled(cfg, t, e) { if e < i { assert Filled(cfg, s, e); } }
    Keeps(cfg, s, t, c);
  }

  // ---------------------------------------------------------------- application processors

  lemma ParkedKeeps(cfg: Config, s: Sys, c: nat)
    requires Inv(cfg, s) && c < cfg.n && (s.pcs[c].Parked? || s.pcs[c].Entering?)
    ensures Inv(cfg, Step(cfg, s, c))
  {
    assert CpuInv(cfg, s, c);
    assert CpuInv(cfg, s, cfg.bsp);
    var t := Step(cfg, s, c);
    if t != s {
      if s.entries[c].go { assert Filled(cfg, s, c); }
      hide FieldsSet;
      Keeps(cfg, s, t, c);
    }
  }

  // ---------------------------------------------------------------- work under the lock

  /** A step of Work that stays in Work and does not count. */
  lemma WorkKeeps(cfg: Config, s: Sys, c: nat, t: Sys, pc': Pc)
    requires Inv(cfg, s) && c < cfg.n && s.pcs[c].Work? && Sized(cfg, t)
    requires t.pcs == s.pcs[c := pc'] && pc'.Work? && pc'.k == s.pcs[c].k + 1
    requires t.entries == s.entries && t.locked == s.locked && !t.fault
    requires forall d: nat :: d < cfg.n && d != c ==> t.locals[d] == s.locals[d] && t.task[d] == s.task[d]
    requires WorkInv(cfg, t, c, pc')
    requires t.online == s.online + if pc'.k == LTR + 3 then 1 else 0
    ensures Inv(cfg, t)
  {
    assert CpuInv(cfg, s, c);
    hide WorkInv;
    if c == cfg.bsp {
      forall e: nat | e < Index(cfg, pc') ensures Filled(cfg, t, e) { assert Filled(cfg, s, e); }
    }
    Keeps(cfg, s, t, c);
  }

  lemma PrepareKeeps(cfg: Config, s: Sys, c: nat)
    requires Inv(cfg, s) && c < cfg.n && s.pcs[c].Work? && s.pcs[c].k < 5
    ensures Inv(cfg, Step(cfg, s, c))
  {
    assert CpuInv(cfg, s, c);
    var pc := s.pcs[c];
    assert WorkInv(cfg, s, c, pc);
    var t := Step(cfg, s, c);
    hide Inv, CpuInv, BspInv, ApInv;
    WorkKeeps(cfg, s, c, t, t.pcs[c]);
  }

  lemma FieldKeeps(cfg: Config, s: Sys, c: nat)
    requires Inv(cfg, s) && c < cfg.n && s.pcs[c].Work? && 5 <= s.pcs[c].k < LTR
    ensures Inv(cfg, Step(cfg, s, c))
  {
    assert CpuInv(cfg, s, c);
    var pc := s.pcs[c];
    assert WorkInv(cfg, s, c, pc);
    var t := Step(cfg, s, c);
    hide Inv, CpuInv, BspInv, ApInv, FieldsSet, SetField, TssAddress;
    SetFieldStep(s.gdt, pc.k - 5, TssAddress(cfg, c));
    WorkKeeps(cfg, s, c, t, pc.(k := pc.k + 1));
  }

  lemma LtrKeeps(cfg: Config, s: Sys, c: nat)
    requires Inv(cfg, s) && c < cfg.n && s.pcs[c].Work? && s.pcs[c].k == LTR
    ensures s.gdt.flags1 == TSS_AVAILABLE && Base(s.gdt) == TssAddress(cfg, c)
    ensures Inv(cfg, Step(cfg, s, c))
  {
    assert CpuInv(cfg, s, c);
    var pc := s.pcs[c];
    assert WorkInv(cfg, s, c, pc);
    hide FieldsSet, TssAddress, Base;
    SegmentNamesAddress(s.gdt, TssAddress(cfg, c));
    var t := Step(cfg, s, c);
    hide Inv, CpuInv, BspInv, ApInv;
    WorkKeeps(cfg, s, c, t, pc.(k := pc.k + 1));
  }

  lemma CountKeeps(cfg: Config, s: Sys, c: nat)
    requires Inv(cfg, s) && c < cfg.n && s.pcs[c].Work? && LTR + 1 <= s.pcs[c].k <= LTR + 2
    ensures Inv(cfg, Step(cfg, s, c))
  {
    assert CpuInv(cfg, s, c);
    var pc := s.pcs[c];
    assert WorkInv(cfg, s, c, pc);
    CountBound(cfg, s.pcs);
    assert !Counted(cfg, c, pc);
    assert s.online < cfg.n;
    SmallMod(s.online + 1, 0x1_0000_0000);
    var t := Step(cfg, s, c);
    hide Inv, CpuInv, BspInv, ApInv, FieldsSet;
    WorkKeeps(cfg, s, c, t, t.pcs[c]);
  }

  lemma ReleaseKeeps(cfg: Config, s: Sys, c: nat)
    requires Inv(cfg, s) && c < cfg.n && s.pcs[c].Work? && s.pcs[c].k > LTR + 2
    ensures Inv(cfg, Step(cfg, s, c))
  {
    assert CpuInv(cfg, s, c);
    var t := Step(cfg, s, c);
    assert SetUp(cfg, t, c);
    hide FieldsSet, TssAddress;
    if c == cfg.bsp {
      forall e: nat | e < Index(cfg, t.pcs[c]) ensures Filled(cfg, t, e) { if e < c { assert Filled(cfg, s, e); } }
    }
    Keeps(cfg, s, t, c);
  }

  lemma SizedPcs(cfg: Config, s: Sys)
    requires Sized(cfg, s)
    ensures |s.pcs| == cfg.n
  {
  }

  lemma StepKeeps(cfg: Config, s: Sys, c: nat)
    requires Inv(cfg, s)
    ensures Inv(cfg, Step(cfg, s, c))
  {
    assert WfConfig(cfg) && Sized(cfg, s);
    hide Inv, WorkStep, Sized, WfConfig;
    if c < cfg.n {
      assert c < |s.pcs| by { SizedPcs(cfg, s); }
      match s.pcs[c]
      case Loop(_) => LoopKeeps(cfg, s, c);
      case Fill(_, _) => FillKeeps(cfg, s, c);
      case Goto(_) => GotoKeeps(cfg, s, c);
      case Unlock(_) => GotoKeeps(cfg, s, c);
      case Wait => LoopKeeps(cfg, s, c);
      case Done =>
      case Parked => ParkedKeeps(cfg, s, c);
      case Entering => ParkedKeeps(cfg, s, c);
      case Halted =>
      case Work(_, k, _, _, _) =>
        if k < 5 { PrepareKeeps(cfg, s, c); }
        else if k < LTR { FieldKeeps(cfg, s, c); }
        else if k == LTR { LtrKeeps(cfg, s, c); }
        else if k <= LTR + 2 { CountKeeps(cfg, s, c); }
        else { ReleaseKeeps(cfg, s, c); }
    }
  }

  /** The invariant holds in every interleaving of n CPUs. */
  lemma {:induction false} RunKeeps(cfg: Config, s: Sys, sched: seq<nat>)
    requires Initial(cfg, s)
    ensures Inv(cfg, Run(cfg, s, sched))
  {
    if sched == [] {
      InitialInv(cfg, s);
    } else {
      hide Inv, Step;
      RunKeeps(cfg, s, sched[..|sched| - 1]);
      StepKeeps(cfg, Run(cfg, s, sched[..|sched| - 1]), sched[|sched| - 1]);
    }
  }

  lemma InitialInv(cfg: Config, s: Sys)
    requires Initial(cfg, s)
    ensures Inv(cfg, s)
  {
    assert CountedCpus(cfg, s.pcs) == {};
  }

  // ---------------------------------------------------------------- what it means

  /** Two local blocks never overlap. */
  lemma TssApart(cfg: Config, c: nat, d: nat)
    requires WfConfig(cfg) && c < d < cfg.n
    ensures TssAddress(cfg, c) + LOCAL_SIZE <= TssAddress(cfg, d)
  {
    MulMono(c + 1, d, LOCAL_SIZE);
  }

  /** ltr on an available descriptor loads its base and marks it busy; on a busy one it faults. */
  lemma LtrEffect(cfg: Config, s: Sys, c: nat)
    requires WfConfig(cfg) && Sized(cfg, s) && c < cfg.n && !s.fault
    requires s.pcs[c].Work? && s.pcs[c].k == 13 && s.pcs[c].e < cfg.n && s.pcs[c].num < cfg.n
    ensures var t := Step(cfg, s, c);
            && (s.gdt.flags1 == 0x89 ==> !t.fault && t.task == s.task[c := Loaded(Base(s.gdt))] && t.gdt == s.gdt.(flags1 := 0x8B))
            && (s.gdt.flags1 == 0x8B ==> t == s.(fault := true))
  {
    hide Base, TssAddress, WfConfig, SetField;
  }

  /** At each ltr, in every interleaving, the one shared descriptor is available and names the
      executing CPU's own tss; no ltr faults. */
  lemma LtrSeesOwnTss(cfg: Config, s: Sys, sched: seq<nat>, c: nat)
    requires Initial(cfg, s) && c < cfg.n
    ensures var t := Run(cfg, s, sched);
            && !t.fault
            && (t.pcs[c].Work? && t.pcs[c].k == LTR ==> t.gdt.flags1 == 0x89 && Base(t.gdt) == TssAddress(cfg, c))
            && TssAddress(cfg, c) == cfg.base + 120 * c + 16
  {
    RunKeeps(cfg, s, sched);
    var t := Run(cfg, s, sched);
    if t.pcs[c].Work? && t.pcs[c].k == LTR { LtrKeeps(cfg, t, c); }
  }

  /** At most one CPU is between acquire and release of smp_lock. */
  lemma OneInside(cfg: Config, s: Sys, sched: seq<nat>, c: nat, d: nat)
    requires Initial(cfg, s) && c < d < cfg.n
    ensures !(Inside(Run(cfg, s, sched).pcs[c]) && Inside(Run(cfg, s, sched).pcs[d]))
  {
    RunKeeps(cfg, s, sched);
  }

  /** How often CPU c stores an incremented cpus_online during a run. */
  ghost function Stores(cfg: Config, s: Sys, sched: seq<nat>, c: nat): (v: nat)
    requires WfConfig(cfg) && Sized(cfg, s) && c < cfg.n
  {
    if sched == [] then 0
    else
      var before := sched[..|sched| - 1];
      var t := Run(cfg, s, before);
      Stores(cfg, s, before, c) + if sched[|sched| - 1] == c && t.pcs[c].Work? && t.pcs[c].k == LTR + 2 then 1 else 0
  }

  /** Every CPU stores at most once, and exactly the counted CPUs have. */
  lemma {:induction false} StoresAreCounted(cfg: Config, s: Sys, sched: seq<nat>, c: nat)
    requires Initial(cfg, s) && c < cfg.n
    ensures Stores(cfg, s, sched, c) == if Counted(cfg, c, Run(cfg, s, sched).pcs[c]) then 1 else 0
  {
    if sched != [] {
      var before := sched[..|sched| - 1];
      StoresAreCounted(cfg, s, before, c);
      RunKeeps(cfg, s, before);
      CountingStep(cfg, Run(cfg, s, before), sched[|sched| - 1], c);
    }
  }

  /** A step of CPU d leaves the other program counters alone. */
  lemma StepOthers(cfg: Config, s: Sys, d: nat, c: nat)
    requires WfConfig(cfg) && Sized(cfg, s) && c < cfg.n && d != c
    ensures Step(cfg, s, d).pcs[c] == s.pcs[c]
  {
    hide SetField, TssAddress, FieldsSet;
  }

  /** One step of Work: the program counter goes on by one, or leaves after the last step. */
  lemma WorkCounter(cfg: Config, s: Sys, c: nat)
    requires Inv(cfg, s) && c < cfg.n && s.pcs[c].Work?
    ensures var pc, pc' := s.pcs[c], Step(cfg, s, c).pcs[c];
            if pc.k <= LTR + 2 then pc'.Work? && pc'.k == pc.k + 1
            else pc' == if c == cfg.bsp then Loop(cfg.bsp + 1) else Halted
  {
    assert CpuInv(cfg, s, c);
    assert WorkInv(cfg, s, c, s.pcs[c]);
    if s.pcs[c].k == LTR { LtrKeeps(cfg, s, c); }
    hide SetField, TssAddress, FieldsSet, Filled;
  }

  lemma CountingStep(cfg: Config, s: Sys, d: nat, c: nat)
    requires Inv(cfg, s) && c < cfg.n
    ensures var t := Step(cfg, s, d);
            Counted(cfg, c, t.pcs[c]) <==> Counted(cfg, c, s.pcs[c]) || (d == c && s.pcs[c].Work? && s.pcs[c].k == LTR + 2)
  {
    if d != c {
      StepOthers(cfg, s, d, c);
    } else if s.pcs[c].Work? {
      WorkCounter(cfg, s, c);
    } else {
      assert CpuInv(cfg, s, c);
      hide WorkStep, WorkInv, Filled, SetUp;
    }
  }

  /** The boot barrier: in every interleaving, once the boot processor has left the final spin loop,
      each CPU has stored its increment exactly once, none was lost, and each CPU has its own local
      block filled in and its own tss loaded. */
  lemma Barrier(cfg: Config, s: Sys, sched: seq<nat>, c: nat)
    requires Initial(cfg, s) && c < cfg.n && Run(cfg, s, sched).pcs[cfg.bsp].Done?
    ensures var t := Run(cfg, s, sched);
            t.online == cfg.n && Stores(cfg, s, sched, c) == 1 && SetUp(cfg, t, c)
  {
    RunKeeps(cfg, s, sched);
    var t := Run(cfg, s, sched);
    CountBound(cfg, t.pcs);
    StoresAreCounted(cfg, s, sched, c);
    assert CpuInv(cfg, t, c);
  }

  /** No lost update: cpus_online is always the number of CPUs that have stored their increment. */
  lemma NoLostUpdate(cfg: Config, s: Sys, sched: seq<nat>)
    requires Initial(cfg, s)
    ensures Run(cfg, s, sched).online == |set c: nat | c < cfg.n && Stores(cfg, s, sched, c) == 1|
  {
    RunKeeps(cfg, s, sched);
    var t := Run(cfg, s, sched);
    assert t.online == |CountedCpus(cfg, t.pcs)|;
    hide Run, Inv, Counted, Initial, WfConfig;
    forall c: nat | c < cfg.n ensures Counted(cfg, c, t.pcs[c]) <==> Stores(cfg, s, sched, c) == 1 {
      StoresAreCounted(cfg, s, sched, c);
    }
    hide Stores;
    assert (set c: nat | c < cfg.n && Stores(cfg, s, sched, c) == 1) == CountedCpus(cfg, t.pcs);
  }
}
