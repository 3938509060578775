/** Running the stub of a patched syscall site, from the jump at the site to the hook. */
module StubExecution {
  import opened Words
  import opened TraceeMemory
  import opened ExtendedJumps
  import opened StubMachine
  import opened SyscallStubs

  // ----- Steps through a stub

  const LOCALS: u32 := 0x7000_1000
  const LOCALS_SIZE: nat := 0x20

  /** The instruction `offset` bytes into a stub. */
  ghost function StubInsn(st: Stub, offset: int): Option<Insn> {
    match st.arch
    case X86 =>
      if offset == 0 then Some(SaveSp(Scratch(st.arch)))
      else if offset == 6 then Some(Increment(NestingLevel(st.arch)))
      else if offset == 12 then Some(CompareOne(NestingLevel(st.arch)))
      else if offset == 20 then Some(JumpIfNot(6))
      else if offset == 22 then Some(LoadSp(ALT_STACK))
      else if offset == 28 then Some(PushAt(Scratch(st.arch)))
      else if offset == 34 then Some(PushImm(Low(st)))
      else if offset == 39 then Some(JumpNear(Relative(st)))
      else None
    case X64 =>
      if offset == 0 then Some(SaveSp(Scratch(st.arch)))
      else if offset == 8 then Some(Increment(NestingLevel(st.arch)))
      else if offset == 15 then Some(CompareOne(NestingLevel(st.arch)))
      else if offset == 23 then Some(JumpIfNot(10))
      else if offset == 25 then Some(LoadSp(ALT_STACK))
      else if offset == 33 then Some(JumpShort(7))
      else if offset == 35 then Some(LowerSp(0x100))
      else if offset == 42 then Some(PushAt(Scratch(st.arch)))
      else if offset == 49 then Some(PushAx)
      else if offset == 50 then Some(StoreLow(Low(st)))
      else if offset == 57 then Some(StoreHigh(High(st)))
      else if offset == 65 then Some(JumpThrough(st.target))
      else None
  }

  lemma StubFetch(at: (int, Insn) -> bool, st: Stub, offset: int, i: Insn)
    requires StubCode(at, st) && StubInsn(st, offset) == Some(i)
    ensures at(st.start + offset, i)
  {
  }

  /** A step by an instruction of the stub that does not write over the stub. */
  ghost predicate StubStep(st: Stub, s: Machine, i: Insn, s': Machine) {
    && StubInsn(st, s.ip - st.start) == Some(i)
    && Apart(Written(st.arch, s, i).addr, Written(st.arch, s, i).size, st.start, StubSize(st.arch))
    && s' == Effect(st.arch, s, i)
  }

  lemma StubExecutes(st: Stub, s: Machine, i: Insn)
    requires HasStub(s.mem, st) && StubInsn(st, s.ip - st.start) == Some(i)
    ensures Executes(st.arch, s, i, Effect(st.arch, s, i))
  {
    StubFetches((a, i) => InsnAt(st.arch, s.mem, a, i), s.mem, st, s.ip - st.start, i);
  }

  lemma StubFetches(at: (int, Insn) -> bool, mem: Memory, st: Stub, offset: int, i: Insn)
    requires Knows(at, st.arch, mem) && HasStub(mem, st) && StubInsn(st, offset) == Some(i)
    ensures at(st.start + offset, i)
  {
    StubDecodes(at, mem, st);
    StubFetch(at, st, offset, i);
  }

  lemma StubStays(st: Stub, s: Machine, i: Insn)
    requires HasStub(s.mem, st)
    requires Apart(Written(st.arch, s, i).addr, Written(st.arch, s, i).size, st.start, StubSize(st.arch))
    ensures HasStub(Effect(st.arch, s, i).mem, st)
  {
    EffectElsewhere(st.arch, s, i, st.start, StubBytes(st.arch, st.start, st.returnAddr, st.target));
  }

  lemma StubStepExecutes(st: Stub, s: Machine, i: Insn, s': Machine)
    requires StubStep(st, s, i, s') && HasStub(s.mem, st)
    ensures Executes(st.arch, s, i, s') && HasStub(s'.mem, st)
  {
    StubExecutes(st, s, i);
    StubStays(st, s, i);
  }

  ghost function StubSteps(st: Stub): Step {
    (s, i, s') => StubStep(st, s, i, s')
  }

  /** Such steps are what the processor does with the stub in memory. */
  lemma StubRunExecutes(st: Stub, m: Machine, n: nat, m': Machine)
    requires Run(StubSteps(st), m, n, m') && HasStub(m.mem, st)
    ensures Run(Processor(st.arch), m, n, m')
  {
    forall s, i, s' | StubStep(st, s, i, s') && HasStub(s.mem, st)
      ensures Executes(st.arch, s, i, s') && HasStub(s'.mem, st)
    {
      StubStepExecutes(st, s, i, s');
    }
    RunRefines(StubSteps(st), Processor(st.arch), (s: Machine) => HasStub(s.mem, st), m, n, m');
  }

  /** The nesting level once the stub has counted itself. */
  ghost function Level(arch: Arch, m: Machine): u32 {
    (Load(m.mem, NestingLevel(arch), 4) + 1) % TWO_32
  }

  /** The outermost hook runs on the alternate stack, a nested one below the stack it interrupts. */
  ghost function StackFor(arch: Arch, m: Machine): nat {
    if Level(arch, m) == 1 then Load(m.mem, ALT_STACK, WordSize(arch))
    else if arch.X86? then m.sp
    else (m.sp - 0x100) % TWO_64
  }

  ghost function Entered(arch: Arch, m: Machine): Memory {
    Store(Store(m.mem, Scratch(arch), WordSize(arch), m.sp), NestingLevel(arch), 4, Level(arch, m))
  }

  lemma EnteredLoads(arch: Arch, m: Machine)
    requires m.sp < Width(arch)
    ensures Load(Store(m.mem, Scratch(arch), WordSize(arch), m.sp), NestingLevel(arch), 4) ==
            Load(m.mem, NestingLevel(arch), 4)
    ensures Load(Entered(arch, m), NestingLevel(arch), 4) == Level(arch, m)
    ensures Load(Entered(arch, m), Scratch(arch), WordSize(arch)) == m.sp
    ensures Load(Entered(arch, m), ALT_STACK, WordSize(arch)) == Load(m.mem, ALT_STACK, WordSize(arch))
  {
    var mem1 := Store(m.mem, Scratch(arch), WordSize(arch), m.sp);
    Pow256Values();
    LoadElsewhere(m.mem, Scratch(arch), WordSize(arch), m.sp, NestingLevel(arch), 4);
    LoadElsewhere(m.mem, Scratch(arch), WordSize(arch), m.sp, ALT_STACK, WordSize(arch));
    LoadStored(m.mem, Scratch(arch), WordSize(arch), m.sp);
    LoadStored(mem1, NestingLevel(arch), 4, Level(arch, m));
    LoadElsewhere(mem1, NestingLevel(arch), 4, Level(arch, m), Scratch(arch), WordSize(arch));
    LoadElsewhere(mem1, NestingLevel(arch), 4, Level(arch, m), ALT_STACK, WordSize(arch));
  }

  function EntryEnd(arch: Arch, switch: bool): nat {
    match arch
    case X86 => if switch then 22 else 28
    case X64 => if switch then 25 else 35
  }

  ghost predicate Covers(step: Step, st: Stub) {
    forall s, i, s' :: StubStep(st, s, i, s') ==> step(s, i, s')
  }

  lemma Covered(step: Step, st: Stub, s: Machine, i: Insn, s': Machine)
    requires Covers(step, st) && StubStep(st, s, i, s')
    ensures step(s, i, s')
  {
  }

  ghost predicate LocalsApart(st: Stub) {
    Apart(LOCALS, LOCALS_SIZE, st.start, StubSize(st.arch))
  }

  /** The machine with another instruction pointer, `offset` bytes into the stub, and memory. */
  ghost function At(st: Stub, s: Machine, offset: nat, mem: Memory): Machine {
    s.(ip := st.start + offset, mem := mem)
  }

  lemma SaveStep(step: Step, st: Stub, s: Machine)
    requires Covers(step, st) && LocalsApart(st) && s.ip == st.start
    ensures step(s, SaveSp(Scratch(st.arch)),
                 At(st, s, if st.arch.X86? then 6 else 8, Store(s.mem, Scratch(st.arch), WordSize(st.arch), s.sp)))
  {
    Covered(step, st, s, SaveSp(Scratch(st.arch)), Effect(st.arch, s, SaveSp(Scratch(st.arch))));
  }

  lemma CountStep(step: Step, st: Stub, s: Machine, level: u32)
    requires Covers(step, st) && LocalsApart(st) && s.ip == st.start + if st.arch.X86? then 6 else 8
    requires level == (Load(s.mem, NestingLevel(st.arch), 4) + 1) % TWO_32
    ensures step(s, Increment(NestingLevel(st.arch)),
                 At(st, s, if st.arch.X86? then 12 else 15,
                    Store(s.mem, NestingLevel(st.arch), 4, level)).(zf := level == 0))
  {
    Covered(step, st, s, Increment(NestingLevel(st.arch)), Effect(st.arch, s, Increment(NestingLevel(st.arch))));
  }

  lemma CompareStep(step: Step, st: Stub, s: Machine, level: u32)
    requires Covers(step, st) && s.ip == st.start + if st.arch.X86? then 12 else 15
    requires level == Load(s.mem, NestingLevel(st.arch), 4)
    ensures step(s, CompareOne(NestingLevel(st.arch)),
                 At(st, s, if st.arch.X86? then 20 else 23, s.mem).(zf := level == 1))
  {
    Covered(step, st, s, CompareOne(NestingLevel(st.arch)), Effect(st.arch, s, CompareOne(NestingLevel(st.arch))));
  }

  lemma BranchStep(step: Step, st: Stub, s: Machine)
    requires Covers(step, st) && s.ip == st.start + if st.arch.X86? then 20 else 23
    ensures step(s, JumpIfNot(if st.arch.X86? then 6 else 10), At(st, s, EntryEnd(st.arch, s.zf), s.mem))
  {
    var i := JumpIfNot(if st.arch.X86? then 6 else 10);
    Covered(step, st, s, i, Effect(st.arch, s, i));
  }

  lemma CountRuns(step: Step, st: Stub, m: Machine)
    requires Covers(step, st) && LocalsApart(st) && m.ip == st.start && m.sp < Width(st.arch)
    ensures Run(step, m, 2,
                At(st, m, if st.arch.X86? then 12 else 15, Entered(st.arch, m)).(zf := Level(st.arch, m) == 0))
  {
    var arch, a, b, level := st.arch, Scratch(st.arch), NestingLevel(st.arch), Level(st.arch, m);
    EnteredLoads(arch, m);
    var m1 := At(st, m, if arch.X86? then 6 else 8, Store(m.mem, a, WordSize(arch), m.sp));
    SaveStep(step, st, m);
    OneMore(step, m, 0, m, SaveSp(a), m1);
    CountStep(step, st, m1, level);
    OneMore(step, m, 1, m1, Increment(b),
            At(st, m1, if arch.X86? then 12 else 15, Entered(arch, m)).(zf := level == 0));
  }

  lemma EntryRuns(step: Step, st: Stub, m: Machine)
    requires Covers(step, st) && LocalsApart(st) && m.ip == st.start && m.sp < Width(st.arch)
    ensures
      var level := Level(st.arch, m);
      Run(step, m, 4, At(st, m, EntryEnd(st.arch, level == 1), Entered(st.arch, m)).(zf := level == 1))
  {
    var arch, mem, level := st.arch, Entered(st.arch, m), Level(st.arch, m);
    CountRuns(step, st, m);
    EnteredLoads(arch, m);
    CompareAndBranch(step, st, m, At(st, m, if arch.X86? then 12 else 15, mem).(zf := level == 0), level);
  }

  lemma CompareAndBranch(step: Step, st: Stub, m: Machine, s: Machine, level: u32)
    requires Covers(step, st) && Run(step, m, 2, s) && s.ip == st.start + if st.arch.X86? then 12 else 15
    requires level == Load(s.mem, NestingLevel(st.arch), 4)
    ensures Run(step, m, 4, At(st, s, EntryEnd(st.arch, level == 1), s.mem).(zf := level == 1))
  {
    var s1 := At(st, s, if st.arch.X86? then 20 else 23, s.mem).(zf := level == 1);
    CompareStep(step, st, s, level);
    OneMore(step, m, 2, s, CompareOne(NestingLevel(st.arch)), s1);
    BranchStep(step, st, s1);
    OneMore(step, m, 3, s1, JumpIfNot(if st.arch.X86? then 6 else 10),
            At(st, s1, EntryEnd(st.arch, level == 1), s.mem));
  }

  /** How far in a stub pushes the stack pointer it found. */
  function PushOffset(arch: Arch): nat {
    if arch.X86? then 28 else 42
  }

  lemma LoadStep(step: Step, st: Stub, s: Machine)
    requires Covers(step, st) && s.ip == st.start + EntryEnd(st.arch, true)
    ensures step(s, LoadSp(ALT_STACK),
                 At(st, s, if st.arch.X86? then 28 else 33, s.mem).(sp := Load(s.mem, ALT_STACK, WordSize(st.arch))))
  {
    Covered(step, st, s, LoadSp(ALT_STACK), Effect(st.arch, s, LoadSp(ALT_STACK)));
  }

  lemma SkipStep(step: Step, st: Stub, s: Machine)
    requires Covers(step, st) && st.arch.X64? && s.ip == st.start + 33
    ensures step(s, JumpShort(7), At(st, s, 42, s.mem))
  {
    Covered(step, st, s, JumpShort(7), Effect(st.arch, s, JumpShort(7)));
  }

  lemma LowerStep(step: Step, st: Stub, s: Machine)
    requires Covers(step, st) && st.arch.X64? && s.ip == st.start + EntryEnd(X64, false)
    ensures
      var sp := (s.sp - 0x100) % TWO_64;
      step(s, LowerSp(0x100), At(st, s, 42, s.mem).(sp := sp, zf := sp == 0))
  {
    Covered(step, st, s, LowerSp(0x100), Effect(st.arch, s, LowerSp(0x100)));
  }

  /** After the entry, the stack is that for the hook. */
  lemma SwitchRuns(step: Step, st: Stub, m: Machine) returns (n: nat, s: Machine)
    requires Covers(step, st) && LocalsApart(st) && m.ip == st.start && m.sp < Width(st.arch)
    ensures Run(step, m, n, s)
    ensures
      && s.ip == st.start + PushOffset(st.arch) && s.sp == StackFor(st.arch, m) && s.ax == m.ax
      && s.mem == Entered(st.arch, m)
  {
    var level := Level(st.arch, m);
    EntryRuns(step, st, m);
    EnteredLoads(st.arch, m);
    n, s := 4, At(st, m, EntryEnd(st.arch, level == 1), Entered(st.arch, m)).(zf := level == 1);
    if level == 1 {
      LoadStep(step, st, s);
      var s1 := At(st, s, if st.arch.X86? then 28 else 33, s.mem).(sp := Load(s.mem, ALT_STACK, WordSize(st.arch)));
      OneMore(step, m, n, s, LoadSp(ALT_STACK), s1);
      n, s := 5, s1;
      if st.arch.X64? {
        SkipStep(step, st, s);
        OneMore(step, m, n, s, JumpShort(7), At(st, s, 42, s.mem));
        n, s := 6, At(st, s, 42, s.mem);
      }
    } else if st.arch.X64? {
      LowerStep(step, st, s);
      var sp := (s.sp - 0x100) % TWO_64;
      OneMore(step, m, n, s, LowerSp(0x100), At(st, s, 42, s.mem).(sp := sp, zf := sp == 0));
      n, s := 5, At(st, s, 42, s.mem).(sp := sp, zf := sp == 0);
    }
  }

  // ----- Calling the hook

  /** The stack the hook gets has room for two words, clear of the stub and of the thread's locals. */
  ghost predicate HasRoom(st: Stub, m: Machine) {
    var n, base := 2 * WordSize(st.arch), StackFor(st.arch, m);
    && m.sp < Width(st.arch) && LocalsApart(st) && n <= base
    && Apart(base - n, n, st.start, StubSize(st.arch)) && Apart(base - n, n, LOCALS, LOCALS_SIZE)
  }

  ghost predicate TwoWordsApart(st: Stub, base: nat) {
    var n := 2 * WordSize(st.arch);
    n <= base < Width(st.arch) && Apart(base - n, n, st.start, StubSize(st.arch))
  }

  lemma X86PushSpStep(step: Step, st: Stub, s: Machine, v: nat)
    requires Covers(step, st) && st.arch.X86? && s.ip == st.start + 28 && TwoWordsApart(st, s.sp)
    requires v == Load(s.mem, Scratch(X86), 4)
    ensures step(s, PushAt(Scratch(X86)), At(st, s, 34, Store(s.mem, s.sp - 4, 4, v)).(sp := s.sp - 4))
  {
    PushAtEffect(X86, s, Scratch(X86), v);
    Covered(step, st, s, PushAt(Scratch(X86)), Effect(X86, s, PushAt(Scratch(X86))));
  }

  lemma X64PushSpStep(step: Step, st: Stub, s: Machine, v: nat)
    requires Covers(step, st) && st.arch.X64? && s.ip == st.start + 42 && TwoWordsApart(st, s.sp)
    requires v == Load(s.mem, Scratch(X64), 8)
    ensures step(s, PushAt(Scratch(X64)), At(st, s, 49, Store(s.mem, s.sp - 8, 8, v)).(sp := s.sp - 8))
  {
    PushAtEffect(X64, s, Scratch(X64), v);
    Covered(step, st, s, PushAt(Scratch(X64)), Effect(X64, s, PushAt(Scratch(X64))));
  }

  lemma PushReturnStep(step: Step, st: Stub, s: Machine)
    requires Covers(step, st) && st.arch.X86? && s.ip == st.start + 34 && TwoWordsApart(st, s.sp + 4)
    ensures step(s, PushImm(Low(st)), At(st, s, 39, Store(s.mem, s.sp - 4, 4, Low(st))).(sp := s.sp - 4))
  {
    Covered(step, st, s, PushImm(Low(st)), Effect(st.arch, s, PushImm(Low(st))));
  }

  lemma JumpStep(step: Step, st: Stub, s: Machine)
    requires Covers(step, st) && st.arch.X86? && s.ip == st.start + 39
    ensures step(s, JumpNear(Relative(st)), s.(ip := st.target % TWO_32))
  {
    RelativeJump(st.start + 44, st.target - (st.start + 44));
    Covered(step, st, s, JumpNear(Relative(st)), Effect(st.arch, s, JumpNear(Relative(st))));
  }

  lemma PushAxStep(step: Step, st: Stub, s: Machine)
    requires Covers(step, st) && st.arch.X64? && s.ip == st.start + 49 && TwoWordsApart(st, s.sp + 8)
    ensures step(s, PushAx, At(st, s, 50, Store(s.mem, s.sp - 8, 8, s.ax)).(sp := s.sp - 8))
  {
    Covered(step, st, s, PushAx, Effect(st.arch, s, PushAx));
  }

  lemma StoreLowStep(step: Step, st: Stub, s: Machine)
    requires Covers(step, st) && st.arch.X64? && s.ip == st.start + 50 && TwoWordsApart(st, s.sp + 16)
    ensures step(s, StoreLow(Low(st)), At(st, s, 57, Store(s.mem, s.sp, 4, Low(st))))
  {
    Covered(step, st, s, StoreLow(Low(st)), Effect(st.arch, s, StoreLow(Low(st))));
  }

  lemma StoreHighStep(step: Step, st: Stub, s: Machine)
    requires Covers(step, st) && st.arch.X64? && s.ip == st.start + 57 && TwoWordsApart(st, s.sp + 16)
    ensures step(s, StoreHigh(High(st)), At(st, s, 65, Store(s.mem, s.sp + 4, 4, High(st))))
  {
    Covered(step, st, s, StoreHigh(High(st)), Effect(st.arch, s, StoreHigh(High(st))));
  }

  lemma JumpThroughStep(step: Step, st: Stub, s: Machine)
    requires Covers(step, st) && st.arch.X64? && s.ip == st.start + 65
    ensures step(s, JumpThrough(st.target), s.(ip := st.target))
  {
    Covered(step, st, s, JumpThrough(st.target), Effect(st.arch, s, JumpThrough(st.target)));
  }

  /** Memory with the two words pushed; the 64-bit stub writes the return address in halves over another word. */
  ghost function WithCall(st: Stub, mem: Memory, base: nat, sp: nat, ax: u64): Memory {
    match st.arch
    case X86 => Store(Store(mem, base - 4, 4, sp), base - 8, 4, Low(st))
    case X64 =>
      var pushed := Store(Store(mem, base - 8, 8, sp), base - 16, 8, ax);
      Store(Store(pushed, base - 16, 4, Low(st)), base - 16 + 4, 4, High(st))
  }

  lemma X86CallRuns(step: Step, st: Stub, m: Machine, n: nat, s: Machine, sp: nat)
    requires Covers(step, st) && Run(step, m, n, s) && st.arch.X86? && s.ip == st.start + 28 && TwoWordsApart(st, s.sp)
    requires sp == Load(s.mem, Scratch(X86), 4)
    ensures Run(step, m, n + 3, Machine(st.target % TWO_32, s.sp - 8, s.ax, s.zf, WithCall(st, s.mem, s.sp, sp, s.ax)))
  {
    var s1 := At(st, s, 34, Store(s.mem, s.sp - 4, 4, sp)).(sp := s.sp - 4);
    X86PushSpStep(step, st, s, sp);
    OneMore(step, m, n, s, PushAt(Scratch(X86)), s1);
    var s2 := At(st, s1, 39, Store(s1.mem, s.sp - 8, 4, Low(st))).(sp := s.sp - 8);
    PushReturnStep(step, st, s1);
    OneMore(step, m, n + 1, s1, PushImm(Low(st)), s2);
    JumpStep(step, st, s2);
    OneMore(step, m, n + 2, s2, JumpNear(Relative(st)), s2.(ip := st.target % TWO_32));
  }

  lemma X64PushRuns(step: Step, st: Stub, m: Machine, n: nat, s: Machine, sp: nat)
    requires Covers(step, st) && Run(step, m, n, s) && st.arch.X64? && s.ip == st.start + 42 && TwoWordsApart(st, s.sp)
    requires sp == Load(s.mem, Scratch(X64), 8)
    ensures Run(step, m, n + 2,
                At(st, s, 50, Store(Store(s.mem, s.sp - 8, 8, sp), s.sp - 16, 8, s.ax)).(sp := s.sp - 16))
  {
    var s1 := At(st, s, 49, Store(s.mem, s.sp - 8, 8, sp)).(sp := s.sp - 8);
    X64PushSpStep(step, st, s, sp);
    OneMore(step, m, n, s, PushAt(Scratch(X64)), s1);
    PushAxStep(step, st, s1);
    OneMore(step, m, n + 1, s1, PushAx, At(st, s1, 50, Store(s1.mem, s.sp - 16, 8, s.ax)).(sp := s.sp - 16));
  }

  lemma X64StoreRuns(step: Step, st: Stub, m: Machine, n: nat, s: Machine)
    requires Covers(step, st) && Run(step, m, n, s) && st.arch.X64?
    requires s.ip == st.start + 50 && TwoWordsApart(st, s.sp + 16)
    ensures Run(step, m, n + 3,
                s.(ip := st.target, mem := Store(Store(s.mem, s.sp, 4, Low(st)), s.sp + 4, 4, High(st))))
  {
    var s1 := At(st, s, 57, Store(s.mem, s.sp, 4, Low(st)));
    StoreLowStep(step, st, s);
    OneMore(step, m, n, s, StoreLow(Low(st)), s1);
    var s2 := At(st, s1, 65, Store(s1.mem, s.sp + 4, 4, High(st)));
    StoreHighStep(step, st, s1);
    OneMore(step, m, n + 1, s1, StoreHigh(High(st)), s2);
    JumpThroughStep(step, st, s2);
    OneMore(step, m, n + 2, s2, JumpThrough(st.target), s2.(ip := st.target));
  }

  /** Adding the sign-extended low 32 bits of an offset is, modulo 2^32, adding the offset. */
  lemma RelativeJump(a: int, offset: int)
    ensures (a + SignExtend32(offset % TWO_32)) % TWO_32 == (a + offset) % TWO_32
  {
    var q := offset / TWO_32;
    ModShift(a + offset, TWO_32, 0 - q);
    ModShift(a + offset, TWO_32, 0 - q - 1);
  }

  lemma X64CallRuns(step: Step, st: Stub, m: Machine, n: nat, s: Machine, sp: nat)
    requires Covers(step, st) && Run(step, m, n, s) && st.arch.X64? && s.ip == st.start + 42 && TwoWordsApart(st, s.sp)
    requires sp == Load(s.mem, Scratch(X64), 8)
    ensures Run(step, m, n + 5, Machine(st.target, s.sp - 16, s.ax, s.zf, WithCall(st, s.mem, s.sp, sp, s.ax)))
  {
    X64PushRuns(step, st, m, n, s, sp);
    var s1 := At(st, s, 50, Store(Store(s.mem, s.sp - 8, 8, sp), s.sp - 16, 8, s.ax)).(sp := s.sp - 16);
    X64StoreRuns(step, st, m, n + 2, s1);
  }

  lemma RoomIsApart(st: Stub, m: Machine)
    requires HasRoom(st, m)
    ensures TwoWordsApart(st, StackFor(st.arch, m))
  {
    Pow256Values();
  }

  lemma CallRuns(step: Step, st: Stub, m: Machine, k: nat, s: Machine, sp: nat) returns (n: nat)
    requires Covers(step, st) && Run(step, m, k, s) && s.ip == st.start + PushOffset(st.arch) && TwoWordsApart(st, s.sp)
    requires sp == Load(s.mem, Scratch(st.arch), WordSize(st.arch))
    ensures Run(step, m, n, Machine(st.target % Width(st.arch), s.sp - 2 * WordSize(st.arch), s.ax, s.zf,
                                    WithCall(st, s.mem, s.sp, sp, s.ax)))
  {
    if st.arch.X86? {
      X86CallRuns(step, st, m, k, s, sp);
      n := k + 3;
    } else {
      X64CallRuns(step, st, m, k, s, sp);
      n := k + 5;
    }
  }

  /** From the first byte of the stub to the hook. */
  lemma StubRuns(step: Step, st: Stub, m: Machine) returns (n: nat, m': Machine)
    requires Covers(step, st) && m.ip == st.start && HasRoom(st, m)
    ensures Run(step, m, n, m')
    ensures m'.ip == st.target % Width(st.arch) && m'.ax == m.ax
    ensures m'.sp == StackFor(st.arch, m) - 2 * WordSize(st.arch)
    ensures m'.mem == WithCall(st, Entered(st.arch, m), StackFor(st.arch, m), m.sp, m.ax)
  {
    var k, s := SwitchRuns(step, st, m);
    RoomIsApart(st, m);
    EnteredLoads(st.arch, m);
    n := CallRuns(step, st, m, k, s, m.sp);
    m' := Machine(st.target % Width(st.arch), s.sp - 2 * WordSize(st.arch), s.ax, s.zf,
                  WithCall(st, s.mem, s.sp, m.sp, s.ax));
  }

  ghost predicate InWords(st: Stub, base: nat, k: int) {
    base - 2 * WordSize(st.arch) <= k < base
  }

  lemma X86CallLoads(st: Stub, mem: Memory, base: nat, sp: nat, ax: u64)
    requires st.arch.X86? && sp < TWO_32
    ensures
      var mem' := WithCall(st, mem, base, sp, ax);
      Load(mem', base - 8, 4) == st.returnAddr % TWO_32 && Load(mem', base - 4, 4) == sp
  {
    var mem1 := Store(mem, base - 4, 4, sp);
    Pow256Values();
    LoadStored(mem1, base - 8, 4, Low(st));
    LoadElsewhere(mem1, base - 8, 4, Low(st), base - 4, 4);
    LoadStored(mem, base - 4, 4, sp);
  }

  lemma X64CallLoads(st: Stub, mem: Memory, base: nat, sp: nat, ax: u64)
    requires st.arch.X64? && sp < TWO_64
    ensures
      var mem' := WithCall(st, mem, base, sp, ax);
      Load(mem', base - 16, 8) == st.returnAddr && Load(mem', base - 8, 8) == sp
  {
    var mem1 := Store(mem, base - 8, 8, sp);
    var mem2 := Store(mem1, base - 16, 8, ax);
    Pow256Values();
    HalvesStored(mem2, base - 16, Low(st), High(st));
    LoadElsewhere(Store(mem2, base - 16, 4, Low(st)), base - 16 + 4, 4, High(st), base - 8, 8);
    LoadElsewhere(mem2, base - 16, 4, Low(st), base - 8, 8);
    LoadElsewhere(mem1, base - 16, 8, ax, base - 8, 8);
    LoadStored(mem, base - 8, 8, sp);
  }

  lemma HalvesStored(mem: Memory, a: int, lo: u32, hi: u32)
    ensures Load(Store(Store(mem, a, 4, lo), a + 4, 4, hi), a, 8) == lo + TWO_32 * hi
  {
    var mem1 := Store(mem, a, 4, lo);
    var mem2 := Store(mem1, a + 4, 4, hi);
    Pow256Values();
    LoadHalves(mem2, a);
    LoadStored(mem1, a + 4, 4, hi);
    LoadElsewhere(mem1, a + 4, 4, hi, a, 4);
    LoadStored(mem, a, 4, lo);
  }

  /** Pushing the words changes no byte elsewhere. */
  lemma WithCallFrame(st: Stub, mem: Memory, base: nat, sp: nat, ax: u64, k: int)
    requires k in mem && !InWords(st, base, k)
    ensures
      var mem' := WithCall(st, mem, base, sp, ax);
      k in mem' && mem'[k] == mem[k]
  {
    var n := WordSize(st.arch);
    var mem1 := Store(mem, base - n, n, sp);
    StoreFrame(mem, base - n, n, sp, k);
    if st.arch.X86? {
      StoreFrame(mem1, base - 8, 4, Low(st), k);
    } else {
      var mem2 := Store(mem1, base - 16, 8, ax);
      StoreFrame(mem1, base - 16, 8, ax, k);
      StoreFrame(mem2, base - 16, 4, Low(st), k);
      StoreFrame(Store(mem2, base - 16, 4, Low(st)), base - 16 + 4, 4, High(st), k);
    }
  }

  lemma WithCallLevel(st: Stub, mem: Memory, base: nat, sp: nat, ax: u64)
    requires Apart(base - 2 * WordSize(st.arch), 2 * WordSize(st.arch), LOCALS, LOCALS_SIZE)
    ensures Load(WithCall(st, mem, base, sp, ax), NestingLevel(st.arch), 4) == Load(mem, NestingLevel(st.arch), 4)
  {
    var n, a := WordSize(st.arch), NestingLevel(st.arch);
    var mem1 := Store(mem, base - n, n, sp);
    LoadElsewhere(mem, base - n, n, sp, a, 4);
    if st.arch.X86? {
      LoadElsewhere(mem1, base - 8, 4, Low(st), a, 4);
    } else {
      var mem2 := Store(mem1, base - 16, 8, ax);
      LoadElsewhere(mem1, base - 16, 8, ax, a, 4);
      LoadElsewhere(mem2, base - 16, 4, Low(st), a, 4);
      LoadElsewhere(Store(mem2, base - 16, 4, Low(st)), base - 16 + 4, 4, High(st), a, 4);
    }
  }

  lemma EnteredFrame(arch: Arch, m: Machine, k: int)
    requires k in m.mem && !(LOCALS <= k < LOCALS + LOCALS_SIZE)
    ensures k in Entered(arch, m) && Entered(arch, m)[k] == m.mem[k]
  {
    StoreFrame(m.mem, Scratch(arch), WordSize(arch), m.sp, k);
    StoreFrame(Store(m.mem, Scratch(arch), WordSize(arch), m.sp), NestingLevel(arch), 4, Level(arch, m), k);
  }

  /** On the stack are the address to return to and, behind it, the stack pointer that the stub found. */
  ghost predicate HasCall(st: Stub, base: nat, sp: nat, m': Machine) {
    var n := WordSize(st.arch);
    && m'.sp == base - 2 * n
    && Load(m'.mem, m'.sp, n) == st.returnAddr % Width(st.arch) && Load(m'.mem, m'.sp + n, n) == sp
  }

  /** The nesting level is one higher, and no byte outside the thread's locals and the two words has changed. */
  ghost predicate OthersKept(st: Stub, m: Machine, m': Machine) {
    && Load(m'.mem, NestingLevel(st.arch), 4) == Level(st.arch, m) && m'.ax == m.ax
    && forall k <- m.mem :: !(LOCALS <= k < LOCALS + LOCALS_SIZE) && !InWords(st, StackFor(st.arch, m), k) ==>
                              k in m'.mem && m'.mem[k] == m.mem[k]
  }

  /** The processor is at the hook. */
  ghost predicate AtHook(st: Stub, m: Machine, m': Machine) {
    m'.ip == st.target % Width(st.arch) && HasCall(st, StackFor(st.arch, m), m.sp, m') && OthersKept(st, m, m')
  }

  /** Some number of steps leads to the hook, and nowhere else. */
  ghost predicate ReachesHook(st: Stub, m: Machine) {
    Arrives(Processor(st.arch), m, m' => AtHook(st, m, m'))
  }

  lemma StubRunAtHook(st: Stub, m: Machine) returns (n: nat, m': Machine)
    requires HasStub(m.mem, st) && m.ip == st.start && HasRoom(st, m)
    ensures Run(Processor(st.arch), m, n, m') && AtHook(st, m, m')
  {
    n, m' := StubRuns(StubSteps(st), st, m);
    StubRunExecutes(st, m, n, m');
    CallPushed(st, Entered(st.arch, m), StackFor(st.arch, m), m.sp, m');
    CallKeepsOthers(st, m, m');
  }

  /** A processor at the stub, with room on the stack, gets to the hook, whether or not it switches stacks. */
  lemma StubReachesHook(st: Stub, m: Machine)
    requires HasStub(m.mem, st) && m.ip == st.start && HasRoom(st, m)
    ensures ReachesHook(st, m)
  {
    var n, m' := StubRunAtHook(st, m);
    ProcessorIsDeterministic(st.arch);
    RunArrives(Processor(st.arch), m, n, m', x => AtHook(st, m, x));
  }

  lemma CallPushed(st: Stub, mem: Memory, base: nat, sp: nat, m': Machine)
    requires sp < Width(st.arch) && m'.sp == base - 2 * WordSize(st.arch)
    requires m'.mem == WithCall(st, mem, base, sp, m'.ax)
    ensures HasCall(st, base, sp, m')
  {
    if st.arch.X86? {
      X86CallLoads(st, mem, base, sp, m'.ax);
    } else {
      X64CallLoads(st, mem, base, sp, m'.ax);
    }
  }

  lemma CallKeepsOthers(st: Stub, m: Machine, m': Machine)
    requires HasRoom(st, m) && m'.ax == m.ax
    requires m'.mem == WithCall(st, Entered(st.arch, m), StackFor(st.arch, m), m.sp, m.ax)
    ensures OthersKept(st, m, m')
  {
    var mem, base := Entered(st.arch, m), StackFor(st.arch, m);
    EnteredLoads(st.arch, m);
    WithCallLevel(st, mem, base, m.sp, m.ax);
    forall k | k in m.mem && !(LOCALS <= k < LOCALS + LOCALS_SIZE) && !InWords(st, base, k)
      ensures k in m'.mem && m'.mem[k] == m.mem[k]
    {
      EnteredFrame(st.arch, m, k);
      WithCallFrame(st, mem, base, m.sp, m.ax, k);
    }
  }

  // ----- The patched site

  lemma JumpBytesAre(site: int, stub: int, rel: u32)
    requires rel == (stub - (site + 5)) % TWO_32
    ensures JumpBytes(site, stub) == [0xe9] + ToLittleEndian(rel, 4)
  {
    OnePair(JUMP_OPCODE, 4, rel);
  }

  lemma JumpTarget(arch: Arch, m: Machine, target: int, rel: u32)
    requires FitsI32(target - (m.ip + 5)) && 0 <= target < Width(arch) && rel == (target - (m.ip + 5)) % TWO_32
    ensures Effect(arch, m, JumpNear(rel)) == m.(ip := target)
  {
    assert SignExtend32(rel) == target - (m.ip + 5);
  }

  lemma JumpExecutes(arch: Arch, m: Machine, target: int, rel: u32, code: seq<byte>)
    requires HasBytes(m.mem, m.ip, code) && code == [0xe9] + ToLittleEndian(rel, 4)
    requires FitsI32(target - (m.ip + 5)) && 0 <= target < Width(arch) && rel == (target - (m.ip + 5)) % TWO_32
    ensures Executes(arch, m, JumpNear(rel), m.(ip := target))
  {
    JumpTarget(arch, m, target, rel);
  }

  /** The jump at the site leads to a stub in reach. */
  lemma SiteJumps(arch: Arch, m: Machine, stub: int)
    requires FitsI32(stub - (m.ip + 5)) && HasBytes(m.mem, m.ip, JumpBytes(m.ip, stub)) && 0 <= stub < Width(arch)
    ensures Executes(arch, m, JumpNear((stub - (m.ip + 5)) % TWO_32), m.(ip := stub))
  {
    var rel := (stub - (m.ip + 5)) % TWO_32;
    JumpBytesAre(m.ip, stub, rel);
    JumpExecutes(arch, m, stub, rel, JumpBytes(m.ip, stub));
  }

  lemma RoomAt(st: Stub, m: Machine, ip: int)
    requires HasRoom(st, m)
    ensures HasRoom(st, m.(ip := ip))
  {
  }

  lemma HookFrom(st: Stub, m: Machine, ip: int, m': Machine)
    requires AtHook(st, m.(ip := ip), m')
    ensures AtHook(st, m, m')
  {
  }

  lemma ReachesHookBefore(st: Stub, m: Machine, i: Insn)
    requires Executes(st.arch, m, i, m.(ip := st.start)) && ReachesHook(st, m.(ip := st.start))
    ensures ReachesHook(st, m)
  {
    var m1 := m.(ip := st.start);
    ProcessorIsDeterministic(st.arch);
    forall m' | AtHook(st, m1, m')
      ensures AtHook(st, m, m')
    {
      HookFrom(st, m, st.start, m');
    }
    ArrivesFromBefore(Processor(st.arch), m, i, m1, m' => AtHook(st, m1, m'), m' => AtHook(st, m, m'));
  }

  lemma JumpReachesHook(st: Stub, m: Machine, i: Insn)
    requires Executes(st.arch, m, i, m.(ip := st.start)) && HasStub(m.mem, st) && HasRoom(st, m)
    ensures ReachesHook(st, m)
  {
    RoomAt(st, m, st.start);
    StubReachesHook(st, m.(ip := st.start));
    ReachesHookBefore(st, m, i);
  }

  /** A processor at the site gets to the hook by way of the stub. */
  lemma SiteReachesHook(st: Stub, m: Machine)
    requires FitsI32(st.start - (m.ip + 5)) && HasBytes(m.mem, m.ip, JumpBytes(m.ip, st.start))
    requires HasStub(m.mem, st) && st.start < Width(st.arch) && HasRoom(st, m)
    ensures ReachesHook(st, m)
  {
    SiteJumps(st.arch, m, st.start);
    JumpReachesHook(st, m, JumpNear((st.start - (m.ip + 5)) % TWO_32));
  }
}
