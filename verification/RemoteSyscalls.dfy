/** Making syscalls in a tracee and undoing every trace of it (`auto_remote_syscalls.rs`). */
module RemoteSyscalls {
  import opened Words
  import opened TraceeMemory

  /** The instruction and stack pointers, and all other registers together. */
  datatype Regs = Regs(ip: int, sp: int, others: seq<u64>)

  datatype Tracee = Tracee(regs: Regs, mem: Memory, status: int)

  /** Where the syscall instructions of the two paths are, and their bytes. */
  datatype Env = Env(untracedSite: int, tracedSite: int, insn: seq<byte>)

  /** `AutoRemoteSyscalls` without its tracee. */
  datatype Remote = Remote(initialRegs: Regs, initialIp: int, initialSp: int, replaced: seq<byte>, status: int,
                           scratch: Option<int>, singlestep: bool, memParams: bool)

  /** A tracee prepared for remote syscalls. */
  datatype State = State(t: Tracee, r: Remote)

  // ----- The path

  function SiteOf(env: Env, singlestep: bool): int {
    if singlestep then env.untracedSite else env.tracedSite
  }

  /** Memory with the bytes of the current syscall site put back. */
  function Undone(mem: Memory, r: Remote): Memory {
    if r.replaced == [] then mem else Write(mem, r.initialRegs.ip, r.replaced)
  }

  /** Restores the old site, then makes sure the syscall instruction is at the new one. */
  function AfterSetup(env: Env, s: State, singlestep: bool): State {
    var mem := Undone(s.t.mem, s.r);
    var site := SiteOf(env, singlestep);
    var bytes := Read(mem, site, |env.insn|);
    var r := s.r.(initialRegs := s.r.initialRegs.(ip := site), singlestep := singlestep);
    if bytes == env.insn then State(s.t.(mem := mem), r.(replaced := []))
    else State(s.t.(mem := Write(mem, site, env.insn)), r.(replaced := bytes))
  }

  // ----- The stack

  const SCRATCH_SIZE: nat := 4096
  const STACK_RESERVE: nat := 2048

  /** A mapping; `usable` if it is private, readable and writable. */
  datatype Area = Area(start: int, end: int, usable: bool)

  /** What the stack pointer is fixed by: the mappings, and the page the kernel hands out if none of them will do. */
  datatype Stack = Stack(memParams: bool, doneInitialExec: bool, areas: seq<Area>, scratch: int)

  datatype Fix = Keep | Move(sp: int) | Scratch(page: int)

  /** The stack pointer is in a usable mapping with room below it. */
  predicate GoodStack(areas: seq<Area>, sp: int) {
    exists i :: 0 <= i < |areas| && areas[i].start <= sp - 1 < areas[i].end && areas[i].usable &&
      areas[i].start + STACK_RESERVE <= sp
  }

  /** The first usable mapping, if there is one. */
  function FirstUsable(areas: seq<Area>): Option<Area> {
    if areas == [] then None else if areas[0].usable then Some(areas[0]) else FirstUsable(areas[1..])
  }

  /** A stack pointer that will not do moves to the end of the first usable mapping, or of a new page. */
  function FixOf(stack: Stack, sp: int): Fix {
    if !stack.memParams || !stack.doneInitialExec || GoodStack(stack.areas, sp) then Keep
    else
      match FirstUsable(stack.areas)
      case Some(area) => Move(area.end)
      case None => Scratch(stack.scratch)
  }

  lemma {:induction false} FirstUsableIsFirst(areas: seq<Area>)
    ensures FirstUsable(areas).None? ==> forall a <- areas :: !a.usable
    ensures FirstUsable(areas).Some? ==>
              exists i :: 0 <= i < |areas| && areas[i] == FirstUsable(areas).value && areas[i].usable &&
                forall j :: 0 <= j < i ==> !areas[j].usable
  {
    if areas != [] && !areas[0].usable {
      var rest := areas[1..];
      FirstUsableIsFirst(rest);
      if FirstUsable(rest).Some? {
        var i :| 0 <= i < |rest| && rest[i] == FirstUsable(rest).value && rest[i].usable && forall j :: 0 <= j < i ==>
          !rest[j].usable;
        assert areas[i + 1] == rest[i];
        assert forall j :: 0 < j < i + 1 ==> areas[j] == rest[j - 1];
      }
    }
  }

  function SpAfter(f: Fix, sp: int): int {
    match f
    case Keep => sp
    case Move(sp') => sp'
    case Scratch(page) => page + SCRATCH_SIZE
  }

  function ZeroPage(): (s: seq<byte>)
    ensures |s| == SCRATCH_SIZE
  {
    seq(SCRATCH_SIZE, _ => 0)
  }

  /** Memory with the scratch page mapped. The remote that maps it leaves no other trace. */
  function WithScratch(mem: Memory, f: Fix): Memory {
    if f.Scratch? then Write(mem, f.page, ZeroPage()) else mem
  }

  predicate InScratch(page: int, k: int) {
    page <= k < page + SCRATCH_SIZE
  }

  function WithoutScratch(mem: Memory, scratch: Option<int>): Memory {
    if scratch.None? then mem else map k | k in mem && !InScratch(scratch.value, k) :: mem[k]
  }

  /**
   * Memory parameters need a stack: after a fix the byte below the stack pointer is in a usable mapping or
   * the scratch page.
   */
  lemma FixedStackIsUsable(stack: Stack, sp: int)
    requires stack.memParams && stack.doneInitialExec && forall a <- stack.areas :: a.start < a.end
    ensures
      var f := FixOf(stack, sp);
      var last := SpAfter(f, sp) - 1;
      if f.Scratch? then InScratch(f.page, last) && forall a <- stack.areas :: !a.usable
      else exists a <- stack.areas :: a.usable && a.start <= last < a.end
  {
    FirstUsableIsFirst(stack.areas);
    if GoodStack(stack.areas, sp) {
      var i :| 0 <= i < |stack.areas| && stack.areas[i].start <= sp - 1 < stack.areas[i].end && stack.areas[i].usable;
      assert stack.areas[i] in stack.areas;
    } else if FirstUsable(stack.areas).Some? {
      assert FirstUsable(stack.areas).value in stack.areas;
    }
  }

  // ----- Preparing and restoring

  function Fixed(s: State, f: Fix): State {
    State(s.t.(mem := WithScratch(s.t.mem, f)),
          s.r.(initialRegs := s.r.initialRegs.(sp := SpAfter(f, s.r.initialRegs.sp)),
               scratch := if f.Scratch? then Some(f.page) else s.r.scratch))
  }

  function Prepare(env: Env, t: Tracee, singlestep: bool, stack: Stack): State {
    var r := Remote(t.regs, t.regs.ip, t.regs.sp, [], t.status, None, false, stack.memParams);
    Fixed(AfterSetup(env, State(t, r), singlestep), FixOf(stack, t.regs.sp))
  }

  /** Unmaps the scratch page, puts the site back and restores the registers and the wait status. */
  function Restored(s: State): Tracee {
    Tracee(s.r.initialRegs.(ip := s.r.initialIp, sp := s.r.initialSp),
           Undone(WithoutScratch(s.t.mem, s.r.scratch), s.r), s.r.status)
  }

  // ----- Temporary memory

  /** The saved contents of a reserved block; no address if the given contents could not be written. */
  datatype Saved = Saved(addr: Option<int>, data: seq<byte>, savedSp: int)

  predicate Usable(contents: Option<seq<byte>>, fails: bool) {
    contents.None? || !fails
  }

  function Reserve(s: State, len: nat, contents: Option<seq<byte>>, fails: bool): (State, Saved) {
    var sp := s.r.initialRegs.sp;
    var r := s.r.(initialRegs := s.r.initialRegs.(sp := sp - len));
    var mem := if contents.None? || fails then s.t.mem else Write(s.t.mem, sp - len, contents.value);
    (State(s.t.(regs := r.initialRegs, mem := mem), r),
     Saved(if Usable(contents, fails) then Some(sp - len) else None, Read(s.t.mem, sp - len, len), sp))
  }

  /** The assertion with which the source ends the life of a block. */
  predicate SpAgrees(s: State, b: Saved) {
    b.savedSp == s.r.initialRegs.sp + |b.data|
  }

  function Release(s: State, b: Saved): State {
    var r := s.r.(initialRegs := s.r.initialRegs.(sp := s.r.initialRegs.sp + |b.data|));
    State(s.t.(regs := r.initialRegs, mem := if b.addr.None? then s.t.mem else Write(s.t.mem, b.addr.value, b.data)), r)
  }

  // ----- Well-nested programs

  /** A syscall ends with some registers and wait status; the kernel writes the ranges it was given. */
  datatype Result = Result(ip: int, others: seq<u64>, status: int, writes: seq<(int, seq<byte>)>)

  datatype Program =
    | Done
    | Poke(addr: int, bytes: seq<byte>, next: Program)
    | Call(setsSigtrapHandler: bool, result: Result, next: Program)
    | WithMem(len: nat, contents: Option<seq<byte>>, fails: bool, body: Program, next: Program)
    | WithRemote(singlestep: bool, stack: Stack, body: Program, next: Program)

  function WriteAll(mem: Memory, writes: seq<(int, seq<byte>)>): Memory
    decreases |writes|
  {
    if writes == [] then mem else WriteAll(Write(mem, writes[0].0, writes[0].1), writes[1..])
  }

  /** Installing a SIGTRAP handler on the singlestep path first switches to the traced path. */
  function DoSyscall(env: Env, s: State, setsSigtrapHandler: bool, result: Result): State {
    var s1 := if setsSigtrapHandler && s.r.singlestep then AfterSetup(env, s, false) else s;
    s1.(t := Tracee(Regs(result.ip, s1.r.initialRegs.sp, result.others), WriteAll(s1.t.mem, result.writes),
      result.status))
  }

  function Exec(env: Env, s: State, p: Program): State
    decreases p
  {
    match p
    case Done => s
    case Poke(addr, bytes, next) => Exec(env, s.(t := s.t.(mem := Write(s.t.mem, addr, bytes))), next)
    case Call(setsSigtrapHandler, result, next) => Exec(env, DoSyscall(env, s, setsSigtrapHandler, result), next)
    case WithMem(len, contents, fails, body, next) =>
      var (s1, b) := Reserve(s, len, contents, fails);
      Exec(env, Release(Exec(env, s1, body), b), next)
    case WithRemote(singlestep, stack, body, next) =>
      var t := Restored(Exec(env, Prepare(env, s.t, singlestep, stack), body));
      Exec(env, s.(t := t), next)
  }

  // ----- What a program may do

  datatype Block = Block(start: int, len: nat)

  ghost predicate InBlock(b: Block, k: int) {
    b.start <= k < b.start + b.len
  }

  ghost predicate Reserved(blocks: seq<Block>, k: int) {
    exists i :: 0 <= i < |blocks| && InBlock(blocks[i], k)
  }

  ghost predicate WriteReserved(blocks: seq<Block>, a: int, n: nat) {
    forall k :: a <= k < a + n ==> Reserved(blocks, k)
  }

  ghost predicate WritesReserved(blocks: seq<Block>, writes: seq<(int, seq<byte>)>) {
    forall i :: 0 <= i < |writes| ==> WriteReserved(blocks, writes[i].0, |writes[i].1|)
  }

  ghost predicate ClearOfSites(env: Env, b: Block) {
    Apart(b.start, b.len, env.untracedSite, |env.insn|) && Apart(b.start, b.len, env.tracedSite, |env.insn|)
  }

  ghost predicate BlocksMapped(keys: set<int>, blocks: seq<Block>) {
    forall i :: 0 <= i < |blocks| ==> RangeIn(keys, blocks[i].start, blocks[i].len)
  }

  /** The program asks its own remote to install a SIGTRAP handler. */
  predicate Switches(p: Program) {
    match p
    case Done => false
    case Poke(_, _, next) => Switches(next)
    case Call(setsSigtrapHandler, _, next) => setsSigtrapHandler || Switches(next)
    case WithMem(_, _, _, body, next) => Switches(body) || Switches(next)
    case WithRemote(_, _, _, next) => Switches(next)
  }

  /**
   * Where a program runs: the mapped bytes, the remote's path and stack pointer, the tracee's, and the blocks
   * reserved so far.
   */
  datatype Ctx = Ctx(keys: set<int>, singlestep: bool, memParams: bool, sp: int, taskSp: int, blocks: seq<Block>)

  /** Mapped bytes once the scratch page is there. */
  function KeysAfter(keys: set<int>, f: Fix): set<int> {
    if f.Scratch? then keys + Write(map[], f.page, ZeroPage()).Keys else keys
  }

  /** The scratch page does not meet what was mapped before. */
  ghost predicate ScratchIsNew(keys: set<int>, f: Fix) {
    f.Scratch? ==> forall k <- keys :: !InScratch(f.page, k)
  }

  ghost function BlocksAfter(blocks: seq<Block>, b: Block, contents: Option<seq<byte>>, fails: bool): seq<Block> {
    if Usable(contents, fails) then blocks + [b] else blocks
  }

  /** Where the body of a block or of a nested remote runs. */
  ghost function BodyCtx(c: Ctx, len: nat, contents: Option<seq<byte>>, fails: bool): Ctx {
    var b := Block(c.sp - len, len);
    c.(sp := b.start, taskSp := b.start, blocks := BlocksAfter(c.blocks, b, contents, fails))
  }

  ghost function RemoteCtx(c: Ctx, singlestep: bool, stack: Stack): Ctx {
    var f := FixOf(stack, c.taskSp);
    Ctx(KeysAfter(c.keys, f), singlestep, stack.memParams, SpAfter(f, c.taskSp), c.taskSp, c.blocks)
  }

  /**
   * Writes stay in reserved blocks. Blocks are mapped, unless their contents fail to be written, and clear of the
   * syscall sites, unless their remote does not switch paths during their life. A scratch page is where nothing was.
   */
  ghost predicate Fits(env: Env, c: Ctx, p: Program)
    decreases p
  {
    match p
    case Done => true
    case Poke(addr, bytes, next) => WriteReserved(c.blocks, addr, |bytes|) && Fits(env, c, next)
    case Call(setsSigtrapHandler, result, next) =>
      && WritesReserved(c.blocks, result.writes)
      && Fits(env, c.(singlestep := c.singlestep && !setsSigtrapHandler, taskSp := c.sp), next)
    case WithMem(len, contents, fails, body, next) =>
      var b := Block(c.sp - len, len);
      && c.memParams && len <= c.sp && (contents.Some? ==> |contents.value| == len)
      && (Usable(contents, fails) ==>
            RangeIn(c.keys, b.start, b.len) && (ClearOfSites(env, b) || !(c.singlestep && Switches(body))))
      && Fits(env, BodyCtx(c, len, contents, fails), body)
      && Fits(env, c.(singlestep := c.singlestep && !Switches(body), taskSp := c.sp), next)
    case WithRemote(singlestep, stack, body, next) =>
      ScratchIsNew(c.keys, FixOf(stack, c.taskSp)) && Fits(env, RemoteCtx(c, singlestep, stack), body) &&
        Fits(env, c, next)
  }

  ghost predicate RemoteOk(env: Env, r: Remote) {
    r.initialRegs.ip == SiteOf(env, r.singlestep) && (r.replaced == [] || |r.replaced| == |env.insn|)
  }

  ghost predicate SitesMapped(env: Env, keys: set<int>) {
    RangeIn(keys, env.untracedSite, |env.insn|) && RangeIn(keys, env.tracedSite, |env.insn|)
  }

  // ----- Memory that agrees outside the reserved blocks

  ghost predicate Agree(m: Memory, m': Memory, blocks: seq<Block>) {
    m.Keys == m'.Keys && forall k <- m :: !Reserved(blocks, k) ==> m'[k] == m[k]
  }

  lemma WriteAgrees(m: Memory, m': Memory, blocks: seq<Block>, a: int, s: seq<byte>)
    requires Agree(m, m', blocks) && RangeIn(m.Keys, a, |s|)
    ensures Agree(Write(m, a, s), Write(m', a, s), blocks)
  {
    WriteInPlace(m, a, s);
    WriteInPlace(m', a, s);
  }

  lemma ReservedIsMapped(keys: set<int>, blocks: seq<Block>, a: int, n: nat)
    requires BlocksMapped(keys, blocks) && WriteReserved(blocks, a, n)
    ensures RangeIn(keys, a, n)
  {
    forall k | a <= k < a + n
      ensures k in keys
    {
      assert Reserved(blocks, k);
      var i :| 0 <= i < |blocks| && InBlock(blocks[i], k);
      assert RangeIn(keys, blocks[i].start, blocks[i].len);
    }
  }

  lemma BlockWriteAgrees(m: Memory, blocks: seq<Block>, a: int, s: seq<byte>)
    requires BlocksMapped(m.Keys, blocks) && WriteReserved(blocks, a, |s|)
    ensures Agree(m, Write(m, a, s), blocks)
  {
    ReservedIsMapped(m.Keys, blocks, a, |s|);
    WriteInPlace(m, a, s);
  }

  lemma UndoneAgrees(env: Env, m: Memory, m': Memory, r: Remote, blocks: seq<Block>)
    requires RemoteOk(env, r) && SitesMapped(env, m.Keys) && Agree(m, m', blocks)
    ensures Agree(Undone(m, r), Undone(m', r), blocks)
  {
    if r.replaced != [] {
      WriteAgrees(m, m', blocks, r.initialRegs.ip, r.replaced);
    }
  }

  lemma AgreeTrans(m: Memory, m': Memory, m'': Memory, blocks: seq<Block>)
    requires Agree(m, m', blocks) && Agree(m', m'', blocks)
    ensures Agree(m, m'', blocks)
  {
  }

  lemma {:induction false} WriteAllAgrees(m: Memory, blocks: seq<Block>, writes: seq<(int, seq<byte>)>)
    requires BlocksMapped(m.Keys, blocks) && WritesReserved(blocks, writes)
    ensures Agree(m, WriteAll(m, writes), blocks)
    decreases |writes|
  {
    if writes != [] {
      var m' := Write(m, writes[0].0, writes[0].1);
      BlockWriteAgrees(m, blocks, writes[0].0, writes[0].1);
      WriteAllAgrees(m', blocks, writes[1..]);
      AgreeTrans(m, m', WriteAll(m', writes[1..]), blocks);
    }
  }

  // ----- Each step can be undone

  lemma UndoneKeys(env: Env, mem: Memory, r: Remote)
    requires RemoteOk(env, r) && SitesMapped(env, mem.Keys)
    ensures Undone(mem, r).Keys == mem.Keys
  {
    if r.replaced != [] {
      WriteInPlace(mem, r.initialRegs.ip, r.replaced);
    }
  }

  /** Switching paths does not change what undoing gives. */
  lemma SetupUndone(env: Env, s: State, singlestep: bool)
    requires RemoteOk(env, s.r) && SitesMapped(env, s.t.mem.Keys)
    ensures
      var s' := AfterSetup(env, s, singlestep);
      RemoteOk(env, s'.r) && Undone(s'.t.mem, s'.r) == Undone(s.t.mem, s.r) && s'.t.mem.Keys == s.t.mem.Keys
  {
    UndoneKeys(env, s.t.mem, s.r);
    WriteBack(Undone(s.t.mem, s.r), SiteOf(env, singlestep), env.insn);
  }

  /** What a remote keeps as long as it lives. */
  ghost predicate SameRemote(r: Remote, r': Remote) {
    && r'.initialIp == r.initialIp && r'.initialSp == r.initialSp && r'.status == r.status && r'.scratch == r.scratch
    && r'.memParams == r.memParams && r'.initialRegs.sp == r.initialRegs.sp &&
       r'.initialRegs.others == r.initialRegs.others
  }

  /** From `s` to `s'` the remote kept all but its path, and what undoing gives changed in reserved blocks only. */
  ghost predicate Restorable(env: Env, s: State, s': State, blocks: seq<Block>) {
    && RemoteOk(env, s'.r) && SameRemote(s.r, s'.r)
    && s'.t.mem.Keys == s.t.mem.Keys
    && Agree(Undone(s.t.mem, s.r), Undone(s'.t.mem, s'.r), blocks)
  }

  lemma RestorableTrans(env: Env, s: State, s': State, s'': State, blocks: seq<Block>)
    requires Restorable(env, s, s', blocks) && Restorable(env, s', s'', blocks)
    ensures Restorable(env, s, s'', blocks)
  {
    AgreeTrans(Undone(s.t.mem, s.r), Undone(s'.t.mem, s'.r), Undone(s''.t.mem, s''.r), blocks);
  }

  /** The path is given up by a switch, and otherwise kept. */
  ghost predicate PathAfter(r: Remote, r': Remote, switches: bool) {
    && r'.singlestep == (r.singlestep && !switches)
    && (!(r.singlestep && switches) ==> r'.replaced == r.replaced && r'.initialRegs.ip == r.initialRegs.ip)
  }

  /** The remote's site and the reserved blocks, when the memory they need is there. */
  ghost predicate Ready(env: Env, s: State, blocks: seq<Block>) {
    RemoteOk(env, s.r) && SitesMapped(env, s.t.mem.Keys) && BlocksMapped(s.t.mem.Keys, blocks)
  }

  lemma MemoryRestorable(env: Env, s: State, t: Tracee, blocks: seq<Block>)
    requires Ready(env, s, blocks) && Agree(s.t.mem, t.mem, blocks)
    ensures Restorable(env, s, s.(t := t), blocks)
  {
    UndoneAgrees(env, s.t.mem, t.mem, s.r, blocks);
  }

  lemma SetupRestorable(env: Env, s: State, singlestep: bool, blocks: seq<Block>)
    requires Ready(env, s, blocks)
    ensures Restorable(env, s, AfterSetup(env, s, singlestep), blocks)
  {
    SetupUndone(env, s, singlestep);
  }

  lemma CallRestorable(env: Env, s: State, setsSigtrapHandler: bool, result: Result, blocks: seq<Block>)
    requires Ready(env, s, blocks) && WritesReserved(blocks, result.writes)
    ensures
      var s' := DoSyscall(env, s, setsSigtrapHandler, result);
      Restorable(env, s, s', blocks) && PathAfter(s.r, s'.r, setsSigtrapHandler)
  {
    var s1 := if setsSigtrapHandler && s.r.singlestep then AfterSetup(env, s, false) else s;
    SetupRestorable(env, s, false, blocks);
    var s2 := DoSyscall(env, s, setsSigtrapHandler, result);
    WriteAllAgrees(s1.t.mem, blocks, result.writes);
    MemoryRestorable(env, s1, s2.t, blocks);
    if setsSigtrapHandler && s.r.singlestep {
      RestorableTrans(env, s, s1, s2, blocks);
    }
  }

  // ----- Temporary memory is put back

  lemma SiteOutsideBlock(env: Env, mem: Memory, r: Remote, b: Block, k: int)
    requires RemoteOk(env, r) && SitesMapped(env, mem.Keys) && ClearOfSites(env, b) && InBlock(b, k) && k in mem
    ensures Undone(mem, r).Keys == mem.Keys && Undone(mem, r)[k] == mem[k]
  {
    if r.replaced != [] {
      WriteInPlace(mem, r.initialRegs.ip, r.replaced);
    }
  }

  lemma NewBlockReserved(blocks: seq<Block>, b: Block)
    ensures WriteReserved(blocks + [b], b.start, b.len)
  {
    var blocks' := blocks + [b];
    forall k | b.start <= k < b.start + b.len
      ensures Reserved(blocks', k)
    {
      assert InBlock(blocks'[|blocks|], k);
    }
  }

  lemma ReserveRestorable(env: Env, s: State, len: nat, contents: Option<seq<byte>>, fails: bool, blocks: seq<Block>)
    requires Ready(env, s, blocks) && (contents.Some? ==> |contents.value| == len)
    requires Usable(contents, fails) ==> RangeIn(s.t.mem.Keys, s.r.initialRegs.sp - len, len)
    ensures
      var s1 := Reserve(s, len, contents, fails).0;
      var blocks' := BlocksAfter(blocks, Block(s.r.initialRegs.sp - len, len), contents, fails);
      && Ready(env, s1, blocks') && s1.t.mem.Keys == s.t.mem.Keys
      && Agree(Undone(s.t.mem, s.r), Undone(s1.t.mem, s1.r), blocks')
  {
    var b := Block(s.r.initialRegs.sp - len, len);
    var blocks' := BlocksAfter(blocks, b, contents, fails);
    var s1 := Reserve(s, len, contents, fails).0;
    if contents.Some? && !fails {
      NewBlockReserved(blocks, b);
      BlockWriteAgrees(s.t.mem, blocks', b.start, contents.value);
    }
    UndoneAgrees(env, s.t.mem, s1.t.mem, s.r, blocks');
  }

  lemma NotReserved(blocks: seq<Block>, b: Block, k: int)
    requires !Reserved(blocks, k) && !InBlock(b, k)
    ensures !Reserved(blocks + [b], k)
  {
  }

  ghost predicate SamePath(r: Remote, r': Remote) {
    r'.replaced == r.replaced && r'.initialRegs.ip == r.initialRegs.ip
  }

  /** Inside the block, the saved bytes are back; the site is elsewhere or has not changed in between. */
  lemma ReleasedInside(env: Env, m0: Memory, r0: Remote, m3: Memory, r2: Remote, b: Block, data: seq<byte>, k: int)
    requires RemoteOk(env, r0) && RemoteOk(env, r2) && m3.Keys == m0.Keys && k in m0 && InBlock(b, k)
    requires SitesMapped(env, m0.Keys) && (ClearOfSites(env, b) || SamePath(r0, r2))
    requires data == Read(m0, b.start, b.len) && m3[k] == data[k - b.start]
    ensures Undone(m3, r2).Keys == m0.Keys && Undone(m0, r0).Keys == m0.Keys && Undone(m3, r2)[k] == Undone(m0, r0)[k]
  {
    if ClearOfSites(env, b) {
      SiteOutsideBlock(env, m0, r0, b, k);
      SiteOutsideBlock(env, m3, r2, b, k);
    } else {
      assert Undone(m3, r2) == Undone(m3, r0);
      UndoneElsewhere(env, m0, m3, r0, k);
    }
  }

  lemma UndoneElsewhere(env: Env, m: Memory, m': Memory, r: Remote, k: int)
    requires RemoteOk(env, r) && SitesMapped(env, m.Keys) && m'.Keys == m.Keys && k in m && m'[k] == m[k]
    ensures Undone(m, r).Keys == m.Keys && Undone(m', r).Keys == m.Keys && Undone(m', r)[k] == Undone(m, r)[k]
  {
    if r.replaced != [] {
      WriteInPlace(m, r.initialRegs.ip, r.replaced);
      WriteInPlace(m', r.initialRegs.ip, r.replaced);
    }
  }

  /** Outside the block undoing gives what it gave before; inside, what was saved. */
  lemma ReleasedByte(env: Env, m0: Memory, r0: Remote, s2: State, blocks: seq<Block>, b: Block, data: seq<byte>, k: int)
    requires RemoteOk(env, r0) && RemoteOk(env, s2.r) && s2.t.mem.Keys == m0.Keys && k in m0 && !Reserved(blocks, k)
    requires SitesMapped(env, m0.Keys) && RangeIn(m0.Keys, b.start, b.len) &&
             (ClearOfSites(env, b) || SamePath(r0, s2.r))
    requires data == Read(m0, b.start, b.len) && Agree(Undone(m0, r0), Undone(s2.t.mem, s2.r), blocks + [b])
    ensures
      var m3 := Write(s2.t.mem, b.start, data);
      && m3.Keys == m0.Keys && Undone(m3, s2.r).Keys == m0.Keys && Undone(m0, r0).Keys == m0.Keys
      && Undone(m3, s2.r)[k] == Undone(m0, r0)[k]
  {
    var m2 := s2.t.mem;
    var m3 := Write(m2, b.start, data);
    WriteInPlace(m2, b.start, data);
    if InBlock(b, k) {
      ReleasedInside(env, m0, r0, m3, s2.r, b, data, k);
    } else {
      UndoneKeys(env, m0, r0);
      NotReserved(blocks, b, k);
      UndoneElsewhere(env, m2, m3, s2.r, k);
    }
  }

  lemma ReleasedAgrees(env: Env, m0: Memory, r0: Remote, s2: State, blocks: seq<Block>, b: Block, data: seq<byte>)
    requires RemoteOk(env, r0) && RemoteOk(env, s2.r) && s2.t.mem.Keys == m0.Keys
    requires SitesMapped(env, m0.Keys) && RangeIn(m0.Keys, b.start, b.len) &&
             (ClearOfSites(env, b) || SamePath(r0, s2.r))
    requires data == Read(m0, b.start, b.len) && Agree(Undone(m0, r0), Undone(s2.t.mem, s2.r), blocks + [b])
    ensures Write(s2.t.mem, b.start, data).Keys == m0.Keys
    ensures Agree(Undone(m0, r0), Undone(Write(s2.t.mem, b.start, data), s2.r), blocks)
  {
    var m3 := Write(s2.t.mem, b.start, data);
    WriteInPlace(s2.t.mem, b.start, data);
    UndoneKeys(env, m0, r0);
    UndoneKeys(env, m3, s2.r);
    forall k | k in m0 && !Reserved(blocks, k)
      ensures Undone(m3, s2.r)[k] == Undone(m0, r0)[k]
    {
      ReleasedByte(env, m0, r0, s2, blocks, b, data, k);
    }
  }

  lemma UndoneIgnoresSp(mem: Memory, r: Remote, sp: int)
    ensures Undone(mem, r.(initialRegs := r.initialRegs.(sp := sp))) == Undone(mem, r)
  {
  }

  lemma MemRestorable(env: Env, s: State, len: nat, contents: Option<seq<byte>>, fails: bool, s2: State,
                      blocks: seq<Block>)
    requires Ready(env, s, blocks) && (contents.Some? ==> |contents.value| == len)
    requires
      var b := Block(s.r.initialRegs.sp - len, len);
      && (Usable(contents, fails) ==>
            RangeIn(s.t.mem.Keys, b.start, len) && (ClearOfSites(env, b) || SamePath(s.r, s2.r)))
      && Restorable(env, Reserve(s, len, contents, fails).0, s2, BlocksAfter(blocks, b, contents, fails))
    ensures
      var saved := Reserve(s, len, contents, fails).1;
      SpAgrees(s2, saved) && Restorable(env, s, Release(s2, saved), blocks)
  {
    var (s1, saved) := Reserve(s, len, contents, fails);
    var b := Block(s.r.initialRegs.sp - len, len);
    ReserveRestorable(env, s, len, contents, fails, blocks);
    AgreeTrans(Undone(s.t.mem, s.r), Undone(s1.t.mem, s1.r), Undone(s2.t.mem, s2.r),
      BlocksAfter(blocks, b, contents, fails));
    var mem := Release(s2, saved).t.mem;
    UndoneIgnoresSp(mem, s2.r, s2.r.initialRegs.sp + |saved.data|);
    if Usable(contents, fails) {
      ReleasedAgrees(env, s.t.mem, s.r, s2, blocks, b, saved.data);
    }
  }

  // ----- A nested remote is undone

  /** A new remote has replaced nothing yet, wherever the instruction pointer is. */
  lemma PlainSetup(env: Env, s: State, singlestep: bool)
    requires s.r.replaced == [] && SitesMapped(env, s.t.mem.Keys)
    ensures
      var s' := AfterSetup(env, s, singlestep);
      RemoteOk(env, s'.r) && Undone(s'.t.mem, s'.r) == s.t.mem && s'.t.mem.Keys == s.t.mem.Keys
  {
    WriteBack(s.t.mem, SiteOf(env, singlestep), env.insn);
  }

  lemma WithScratchKeys(mem: Memory, f: Fix)
    ensures WithScratch(mem, f).Keys == KeysAfter(mem.Keys, f)
  {
    if f.Scratch? {
      WriteAt(mem, f.page, ZeroPage());
      WriteAt(map[], f.page, ZeroPage());
      var m, page: Memory := Write(mem, f.page, ZeroPage()), Write(map[], f.page, ZeroPage());
      assert forall k :: k in m.Keys <==> k in mem.Keys || k in page.Keys;
    }
  }

  lemma WritesCommute(m: Memory, a: int, x: seq<byte>, b: int, y: seq<byte>)
    requires Apart(a, |x|, b, |y|)
    ensures Write(Write(m, a, x), b, y) == Write(Write(m, b, y), a, x)
  {
    var m1, m2 := Write(Write(m, a, x), b, y), Write(Write(m, b, y), a, x);
    WriteAt(m, a, x);
    WriteAt(Write(m, a, x), b, y);
    WriteAt(m, b, y);
    WriteAt(Write(m, b, y), a, x);
    assert forall k :: k in m1.Keys <==> k in m2.Keys;
    assert m1.Keys == m2.Keys;
    assert forall k <- m1 :: m1[k] == m2[k];
  }

  /** Undoing the path and mapping the scratch page do not meet. */
  lemma UndoneWithScratch(env: Env, mem: Memory, r: Remote, f: Fix)
    requires RemoteOk(env, r) && SitesMapped(env, mem.Keys) && ScratchIsNew(mem.Keys, f)
    ensures Undone(WithScratch(mem, f), r) == WithScratch(Undone(mem, r), f)
  {
    if f.Scratch? && r.replaced != [] {
      var site := r.initialRegs.ip;
      var k := if f.page <= site then site else f.page;
      assert site <= k < site + |r.replaced| ==> k in mem.Keys;
      assert k in mem.Keys ==> !InScratch(f.page, k);
      WritesCommute(mem, f.page, ZeroPage(), site, r.replaced);
    }
  }

  lemma PrepareUndone(env: Env, t: Tracee, singlestep: bool, stack: Stack)
    requires SitesMapped(env, t.mem.Keys) && ScratchIsNew(t.mem.Keys, FixOf(stack, t.regs.sp))
    ensures
      var s, f := Prepare(env, t, singlestep, stack), FixOf(stack, t.regs.sp);
      && RemoteOk(env, s.r) && s.t.mem.Keys == KeysAfter(t.mem.Keys, f)
      && Undone(s.t.mem, s.r) == WithScratch(t.mem, f)
      && s.r.initialIp == t.regs.ip && s.r.initialSp == t.regs.sp && s.r.initialRegs.others == t.regs.others
      && s.r.status == t.status && s.r.scratch == (if f.Scratch? then Some(f.page) else None)
      && s.t.regs == t.regs && s.r.initialRegs.sp == SpAfter(f, t.regs.sp)
      && s.r.singlestep == singlestep && s.r.memParams == stack.memParams
  {
    var f := FixOf(stack, t.regs.sp);
    var s0 := State(t, Remote(t.regs, t.regs.ip, t.regs.sp, [], t.status, None, false, stack.memParams));
    PlainSetup(env, s0, singlestep);
    var s1 := AfterSetup(env, s0, singlestep);
    var s := Prepare(env, t, singlestep, stack);
    UndoneWithScratch(env, s1.t.mem, s1.r, f);
    WithScratchKeys(s1.t.mem, f);
    assert Undone(s.t.mem, s.r) == Undone(s.t.mem, s1.r);
  }

  lemma SitesStayMapped(env: Env, keys: set<int>, f: Fix)
    requires SitesMapped(env, keys)
    ensures SitesMapped(env, KeysAfter(keys, f)) && keys <= KeysAfter(keys, f)
  {
  }

  lemma WithoutScratchAgrees(m: Memory, m': Memory, f: Fix, blocks: seq<Block>)
    requires ScratchIsNew(m.Keys, f) && Agree(WithScratch(m, f), m', blocks)
    ensures Agree(m, WithoutScratch(m', if f.Scratch? then Some(f.page) else None), blocks)
  {
    if f.Scratch? {
      var m1, m2 := Write(m, f.page, ZeroPage()), WithoutScratch(m', Some(f.page));
      WriteAt(m, f.page, ZeroPage());
      forall k
        ensures k in m2.Keys <==> k in m.Keys
      {
        assert k in m1.Keys <==> k in m1;
        assert k in m.Keys ==> !InScratch(f.page, k);
      }
      assert m2.Keys == m.Keys;
    }
  }

  lemma UndoneWithoutScratch(env: Env, mem: Memory, r: Remote, scratch: Option<int>)
    requires RemoteOk(env, r) && SitesMapped(env, WithoutScratch(mem, scratch).Keys)
    ensures Undone(WithoutScratch(mem, scratch), r) == WithoutScratch(Undone(mem, r), scratch)
  {
    if r.replaced != [] && scratch.Some? {
      var site, m := r.initialRegs.ip, WithoutScratch(mem, scratch);
      WriteAt(mem, site, r.replaced);
      WriteAt(m, site, r.replaced);
      assert forall k :: site <= k < site + |r.replaced| ==> k in m.Keys;
      var m1, m2 := Write(m, site, r.replaced), WithoutScratch(Write(mem, site, r.replaced), scratch);
      assert forall k :: k in m1.Keys <==> k in m2.Keys;
      assert m1.Keys == m2.Keys;
      assert forall k <- m1 :: m1[k] == m2[k];
    }
  }

  lemma WithoutScratchKeys(keys: set<int>, mem: Memory, f: Fix)
    requires ScratchIsNew(keys, f) && mem.Keys == KeysAfter(keys, f)
    ensures WithoutScratch(mem, if f.Scratch? then Some(f.page) else None).Keys == keys
  {
    if f.Scratch? {
      WriteAt(map[], f.page, ZeroPage());
    }
  }

  /** Restoring after anything restorable gives the registers and the status back, and all memory outside the blocks. */
  lemma RestoredTracee(env: Env, t: Tracee, singlestep: bool, stack: Stack, s2: State, blocks: seq<Block>)
    requires SitesMapped(env, t.mem.Keys) && ScratchIsNew(t.mem.Keys, FixOf(stack, t.regs.sp))
    requires Restorable(env, Prepare(env, t, singlestep, stack), s2, blocks)
    ensures Restored(s2).regs == t.regs && Restored(s2).status == t.status && Agree(t.mem, Restored(s2).mem, blocks)
  {
    var f := FixOf(stack, t.regs.sp);
    PrepareUndone(env, t, singlestep, stack);
    WithoutScratchKeys(t.mem.Keys, s2.t.mem, f);
    UndoneWithoutScratch(env, s2.t.mem, s2.r, s2.r.scratch);
    WithoutScratchAgrees(t.mem, Undone(s2.t.mem, s2.r), f, blocks);
  }

  // ----- Whole programs

  ghost predicate At(env: Env, c: Ctx, s: State) {
    && c.keys == s.t.mem.Keys && c.singlestep == s.r.singlestep && c.memParams == s.r.memParams
    && c.sp == s.r.initialRegs.sp && c.taskSp == s.t.regs.sp && Ready(env, s, c.blocks)
  }

  /** What running a program leaves. */
  ghost predicate Leaves(env: Env, c: Ctx, s: State, p: Program) {
    var s' := Exec(env, s, p);
    Restorable(env, s, s', c.blocks) && PathAfter(s.r, s'.r, Switches(p))
  }

  lemma ThenLeaves(env: Env, c: Ctx, s: State, s1: State, p: Program, next: Program, switches: bool)
    requires Exec(env, s, p) == Exec(env, s1, next) && Switches(p) == (switches || Switches(next))
    requires Restorable(env, s, s1, c.blocks) && PathAfter(s.r, s1.r, switches) && Leaves(env, c, s1, next)
    ensures Leaves(env, c, s, p)
  {
    RestorableTrans(env, s, s1, Exec(env, s, p), c.blocks);
  }

  lemma ReserveAt(env: Env, c: Ctx, s: State, p: Program)
    requires At(env, c, s) && p.WithMem? && Fits(env, c, p)
    ensures
      var s1 := Reserve(s, p.len, p.contents, p.fails).0;
      At(env, BodyCtx(c, p.len, p.contents, p.fails), s1) && Fits(env, BodyCtx(c, p.len, p.contents, p.fails), p.body)
  {
    ReserveRestorable(env, s, p.len, p.contents, p.fails, c.blocks);
  }

  lemma ReleaseAt(env: Env, c: Ctx, s: State, p: Program)
    requires At(env, c, s) && p.WithMem? && Fits(env, c, p)
    requires Leaves(env, BodyCtx(c, p.len, p.contents, p.fails), Reserve(s, p.len, p.contents, p.fails).0, p.body)
    ensures
      var (s1, saved) := Reserve(s, p.len, p.contents, p.fails);
      var s2 := Exec(env, s1, p.body);
      && SpAgrees(s2, saved) && Restorable(env, s, Release(s2, saved), c.blocks)
      && PathAfter(s.r, Release(s2, saved).r, Switches(p.body))
      && At(env, c.(singlestep := c.singlestep && !Switches(p.body), taskSp := c.sp), Release(s2, saved))
  {
    var (s1, saved) := Reserve(s, p.len, p.contents, p.fails);
    MemRestorable(env, s, p.len, p.contents, p.fails, Exec(env, s1, p.body), c.blocks);
  }

  lemma PrepareAt(env: Env, c: Ctx, s: State, p: Program)
    requires At(env, c, s) && p.WithRemote? && Fits(env, c, p)
    ensures
      var q := Prepare(env, s.t, p.singlestep, p.stack);
      At(env, RemoteCtx(c, p.singlestep, p.stack), q) && Fits(env, RemoteCtx(c, p.singlestep, p.stack), p.body)
  {
    PrepareUndone(env, s.t, p.singlestep, p.stack);
    SitesStayMapped(env, s.t.mem.Keys, FixOf(p.stack, c.taskSp));
  }

  lemma RestoreAt(env: Env, c: Ctx, s: State, p: Program)
    requires At(env, c, s) && p.WithRemote? && Fits(env, c, p)
    requires Leaves(env, RemoteCtx(c, p.singlestep, p.stack), Prepare(env, s.t, p.singlestep, p.stack), p.body)
    ensures
      var t := Restored(Exec(env, Prepare(env, s.t, p.singlestep, p.stack), p.body));
      Restorable(env, s, s.(t := t), c.blocks) && At(env, c, s.(t := t))
  {
    var q := Exec(env, Prepare(env, s.t, p.singlestep, p.stack), p.body);
    RestoredTracee(env, s.t, p.singlestep, p.stack, q, c.blocks);
    MemoryRestorable(env, s, Restored(q), c.blocks);
  }

  lemma {:induction false} ExecRestorable(env: Env, c: Ctx, s: State, p: Program)
    requires At(env, c, s) && Fits(env, c, p)
    ensures Leaves(env, c, s, p)
    decreases p, 1
  {
    match p {
      case Done =>
      case Poke(addr, bytes, next) =>
        var t1 := s.t.(mem := Write(s.t.mem, addr, bytes));
        BlockWriteAgrees(s.t.mem, c.blocks, addr, bytes);
        MemoryRestorable(env, s, t1, c.blocks);
        ExecRestorable(env, c, s.(t := t1), next);
        ThenLeaves(env, c, s, s.(t := t1), p, next, false);
      case Call(setsSigtrapHandler, result, next) =>
        var s1 := DoSyscall(env, s, setsSigtrapHandler, result);
        CallRestorable(env, s, setsSigtrapHandler, result, c.blocks);
        ExecRestorable(env, c.(singlestep := c.singlestep && !setsSigtrapHandler, taskSp := c.sp), s1, next);
        ThenLeaves(env, c, s, s1, p, next, setsSigtrapHandler);
      case WithMem(_, _, _, _, _) => ExecMemRestorable(env, c, s, p);
      case WithRemote(_, _, _, _) => ExecRemoteRestorable(env, c, s, p);
    }
  }

  lemma {:induction false} ExecMemRestorable(env: Env, c: Ctx, s: State, p: Program)
    requires p.WithMem? && At(env, c, s) && Fits(env, c, p)
    ensures Leaves(env, c, s, p)
    decreases p, 0
  {
    var (s1, saved) := Reserve(s, p.len, p.contents, p.fails);
    ReserveAt(env, c, s, p);
    ExecRestorable(env, BodyCtx(c, p.len, p.contents, p.fails), s1, p.body);
    ReleaseAt(env, c, s, p);
    var s2 := Release(Exec(env, s1, p.body), saved);
    ExecRestorable(env, c.(singlestep := c.singlestep && !Switches(p.body), taskSp := c.sp), s2, p.next);
    ThenLeaves(env, c, s, s2, p, p.next, Switches(p.body));
  }

  lemma {:induction false} ExecRemoteRestorable(env: Env, c: Ctx, s: State, p: Program)
    requires p.WithRemote? && At(env, c, s) && Fits(env, c, p)
    ensures Leaves(env, c, s, p)
    decreases p, 0
  {
    var q := Prepare(env, s.t, p.singlestep, p.stack);
    PrepareAt(env, c, s, p);
    ExecRestorable(env, RemoteCtx(c, p.singlestep, p.stack), q, p.body);
    RestoreAt(env, c, s, p);
    var s1 := s.(t := Restored(Exec(env, q, p.body)));
    ExecRestorable(env, c, s1, p.next);
    ThenLeaves(env, c, s, s1, p, p.next, false);
  }

  lemma AgreeEverywhere(m: Memory, m': Memory)
    requires Agree(m, m', [])
    ensures m == m'
  {
    forall k | k in m
      ensures m'[k] == m[k]
    {
      assert !Reserved([], k);
    }
  }

  /** Where a program starts that a remote of its own runs. */
  ghost function StartCtx(t: Tracee, singlestep: bool, stack: Stack): Ctx {
    RemoteCtx(Ctx(t.mem.Keys, false, false, 0, t.regs.sp, []), singlestep, stack)
  }

  /** Preparing a tracee, running any well-nested program and restoring leaves the tracee exactly as it was. */
  lemma RemoteSyscallsRestore(env: Env, t: Tracee, singlestep: bool, stack: Stack, p: Program)
    requires SitesMapped(env, t.mem.Keys) && ScratchIsNew(t.mem.Keys, FixOf(stack, t.regs.sp))
    requires Fits(env, StartCtx(t, singlestep, stack), p)
    ensures Restored(Exec(env, Prepare(env, t, singlestep, stack), p)) == t
  {
    var s := Prepare(env, t, singlestep, stack);
    PrepareUndone(env, t, singlestep, stack);
    SitesStayMapped(env, t.mem.Keys, FixOf(stack, t.regs.sp));
    ExecRestorable(env, StartCtx(t, singlestep, stack), s, p);
    RestoredTracee(env, t, singlestep, stack, Exec(env, s, p), []);
    AgreeEverywhere(t.mem, Restored(Exec(env, s, p)).mem);
  }

  // ----- A block that is not clear of the sites

  ghost predicate InSite(env: Env, site: int, k: int) {
    site <= k < site + |env.insn|
  }

  /** What the memory holds after the syscall instruction was put at a site. */
  ghost predicate HasInsnAt(env: Env, site: int, m: Memory, m': Memory) {
    m'.Keys == m.Keys && forall k <- m :: m'[k] == if InSite(env, site, k) then env.insn[k - site] else m[k]
  }

  lemma InsnPut(env: Env, m: Memory, site: int)
    requires RangeIn(m.Keys, site, |env.insn|)
    ensures HasInsnAt(env, site, m, if Read(m, site, |env.insn|) == env.insn then m else Write(m, site, env.insn))
  {
    WriteInPlace(m, site, env.insn);
    var bytes := Read(m, site, |env.insn|);
    forall k | k in m && InSite(env, site, k)
      ensures bytes[k - site] == m[k]
    {
      var i := k - site;
      assert bytes[i] == m[site + i];
    }
  }

  lemma SetupMemory(env: Env, s: State, singlestep: bool)
    requires RangeIn(Undone(s.t.mem, s.r).Keys, SiteOf(env, singlestep), |env.insn|)
    ensures
      var m, site, s' := Undone(s.t.mem, s.r), SiteOf(env, singlestep), AfterSetup(env, s, singlestep);
      && HasInsnAt(env, site, m, s'.t.mem)
      && s'.r.replaced == (if Read(m, site, |env.insn|) == env.insn then [] else Read(m, site, |env.insn|))
  {
    InsnPut(env, Undone(s.t.mem, s.r), SiteOf(env, singlestep));
  }

  /** The bytes at `a` are those of `x`, the others those of `m`. */
  ghost predicate Overwritten(m: Memory, m': Memory, a: int, x: seq<byte>) {
    m'.Keys == m.Keys && forall k <- m :: m'[k] == if a <= k < a + |x| then x[k - a] else m[k]
  }

  lemma UndoneMemory(mem: Memory, r: Remote)
    requires RangeIn(mem.Keys, r.initialRegs.ip, |r.replaced|)
    ensures Overwritten(mem, Undone(mem, r), r.initialRegs.ip, r.replaced)
  {
    if r.replaced != [] {
      WriteInPlace(mem, r.initialRegs.ip, r.replaced);
    }
  }

  /** One block, and a path switch during its life. */
  function SwitchInBlock(len: nat, contents: Option<seq<byte>>, result: Result): Program {
    WithMem(len, contents, false, Call(true, result, Done), Done)
  }

  /** The memories such a program goes through, from that of the tracee to the restored one. */
  datatype Trail = Trail(prepared: Memory, reserved: Memory, undone: Memory, switched: Memory, called: Memory,
    released: Memory)

  ghost function TrailOf(env: Env, s: State, len: nat, contents: Option<seq<byte>>, result: Result): Trail {
    var (s1, b) := Reserve(s, len, contents, false);
    var s2 := AfterSetup(env, s1, false);
    var s3 := DoSyscall(env, s1, true, result);
    Trail(s.t.mem, s1.t.mem, Undone(s1.t.mem, s1.r), s2.t.mem, s3.t.mem, Release(s3, b).t.mem)
  }

  /** Each memory of the trail from the one before; `m` is the tracee's and `last` the restored one. */
  ghost predicate Follows(env: Env, m: Memory, tr: Trail, b: Block, contents: Option<seq<byte>>, last: Memory) {
    var bytes := Read(m, env.untracedSite, |env.insn|);
    var bytes' := Read(tr.undone, env.tracedSite, |env.insn|);
    && HasInsnAt(env, env.untracedSite, m, tr.prepared)
    && Overwritten(tr.prepared, tr.reserved, b.start, if contents.None? then [] else contents.value)
    && Overwritten(tr.reserved, tr.undone, env.untracedSite, if bytes == env.insn then [] else bytes)
    && HasInsnAt(env, env.tracedSite, tr.undone, tr.switched)
    && Agree(tr.switched, tr.called, [b])
    && Overwritten(tr.called, tr.released, b.start, Read(tr.prepared, b.start, b.len))
    && Overwritten(tr.released, last, env.tracedSite, if bytes' == env.insn then [] else bytes')
  }

  ghost function BlockOf(stack: Stack, sp: int, len: nat): Block {
    Block(SpAfter(FixOf(stack, sp), sp) - len, len)
  }

  /** The remote is on the singlestep path and remembers what `m` held there. */
  ghost predicate OnUntraced(env: Env, m: Memory, s: State) {
    var bytes := Read(m, env.untracedSite, |env.insn|);
    && HasInsnAt(env, env.untracedSite, m, s.t.mem)
    && s.r.initialRegs.ip == env.untracedSite && s.r.singlestep && s.r.scratch.None?
    && s.r.replaced == if bytes == env.insn then [] else bytes
  }

  lemma PreparedOnUntraced(env: Env, t: Tracee, stack: Stack)
    requires SitesMapped(env, t.mem.Keys) && !FixOf(stack, t.regs.sp).Scratch?
    ensures OnUntraced(env, t.mem, Prepare(env, t, true, stack))
  {
    var r := Remote(t.regs, t.regs.ip, t.regs.sp, [], t.status, None, false, stack.memParams);
    SetupMemory(env, State(t, r), true);
  }

  ghost predicate ReservesFor(s: State, s1: State, saved: Saved, b: Block, contents: Option<seq<byte>>) {
    && Overwritten(s.t.mem, s1.t.mem, b.start, if contents.None? then [] else contents.value)
    && saved.addr == Some(b.start) && saved.data == Read(s.t.mem, b.start, b.len)
    && s1.r == s.r.(initialRegs := s.r.initialRegs.(sp := b.start))
  }

  lemma TrailReserved(s: State, s1: State, saved: Saved, b: Block, contents: Option<seq<byte>>)
    requires b.start == s.r.initialRegs.sp - b.len && RangeIn(s.t.mem.Keys, b.start, b.len)
    requires (contents.Some? ==> |contents.value| == b.len) && (s1, saved) == Reserve(s, b.len, contents, false)
    ensures ReservesFor(s, s1, saved, b, contents)
  {
    if contents.Some? {
      WriteInPlace(s.t.mem, b.start, contents.value);
    }
  }

  ghost predicate SwitchesTo(env: Env, s: State, m: Memory, s2: State, s3: State, b: Block) {
    var bytes := Read(m, env.tracedSite, |env.insn|);
    && Overwritten(s.t.mem, m, s.r.initialRegs.ip, s.r.replaced)
    && HasInsnAt(env, env.tracedSite, m, s2.t.mem)
    && Agree(s2.t.mem, s3.t.mem, [b])
    && s3.r.initialRegs.ip == env.tracedSite && s3.r.scratch == s.r.scratch
    && s3.r.replaced == if bytes == env.insn then [] else bytes
  }

  lemma TrailSwitched(env: Env, s: State, b: Block, result: Result)
    requires s.r.singlestep && RangeIn(s.t.mem.Keys, b.start, b.len) && WritesReserved([b], result.writes)
    requires RemoteOk(env, s.r) && SitesMapped(env, s.t.mem.Keys)
    ensures SwitchesTo(env, s, Undone(s.t.mem, s.r), AfterSetup(env, s, false), DoSyscall(env, s, true, result), b)
  {
    UndoneMemory(s.t.mem, s.r);
    SetupMemory(env, s, false);
    WriteAllAgrees(AfterSetup(env, s, false).t.mem, [b], result.writes);
  }

  ghost predicate Releases(s: State, s': State, saved: Saved, last: Memory) {
    && saved.addr.Some? && Overwritten(s.t.mem, s'.t.mem, saved.addr.value, saved.data)
    && Overwritten(s'.t.mem, last, s.r.initialRegs.ip, s.r.replaced)
  }

  lemma TrailReleased(s: State, s': State, saved: Saved)
    requires saved.addr.Some? && RangeIn(s.t.mem.Keys, saved.addr.value, |saved.data|) && s' == Release(s, saved)
    requires RangeIn(s.t.mem.Keys, s.r.initialRegs.ip, |s.r.replaced|) && s.r.scratch.None?
    ensures Releases(s, s', saved, Restored(s').mem)
  {
    WriteInPlace(s.t.mem, saved.addr.value, saved.data);
    UndoneMemory(s'.t.mem, s'.r);
  }

  lemma TrailFollows(env: Env, m: Memory, s: State, b: Block, contents: Option<seq<byte>>, result: Result)
    requires SitesMapped(env, m.Keys) && OnUntraced(env, m, s) && b.start == s.r.initialRegs.sp - b.len
    requires RangeIn(m.Keys, b.start, b.len) && WritesReserved([b], result.writes)
    requires contents.Some? ==> |contents.value| == b.len
    ensures
      var (s1, saved) := Reserve(s, b.len, contents, false);
      Follows(env, m, TrailOf(env, s, b.len, contents, result), b, contents,
              Restored(Release(DoSyscall(env, s1, true, result), saved)).mem)
  {
    var (s1, saved) := Reserve(s, b.len, contents, false);
    TrailReserved(s, s1, saved, b, contents);
    SwitchedTrail(env, m, s, s1, saved, b, contents, result);
  }

  lemma SwitchedTrail(env: Env, m: Memory, s: State, s1: State, saved: Saved, b: Block, contents: Option<seq<byte>>,
                      result: Result)
    requires SitesMapped(env, m.Keys) && OnUntraced(env, m, s) && ReservesFor(s, s1, saved, b, contents)
    requires RangeIn(m.Keys, b.start, b.len) && WritesReserved([b], result.writes)
    ensures
      var s3 := DoSyscall(env, s1, true, result);
      var s4 := Release(s3, saved);
      Follows(env, m, Trail(s.t.mem, s1.t.mem, Undone(s1.t.mem, s1.r), AfterSetup(env, s1, false).t.mem, s3.t.mem,
        s4.t.mem),
              b, contents, Restored(s4).mem)
  {
    TrailSwitched(env, s1, b, result);
    ReleasedTrail(env, m, s, s1, Undone(s1.t.mem, s1.r), AfterSetup(env, s1, false), DoSyscall(env, s1, true, result),
      saved, b, contents);
  }

  lemma ReleasedTrail(env: Env, m: Memory, s: State, s1: State, undone: Memory, s2: State, s3: State, saved: Saved,
                      b: Block,
                      contents: Option<seq<byte>>)
    requires SitesMapped(env, m.Keys) && OnUntraced(env, m, s) && ReservesFor(s, s1, saved, b, contents)
    requires RangeIn(m.Keys, b.start, b.len) && SwitchesTo(env, s1, undone, s2, s3, b)
    ensures
      var s4 := Release(s3, saved);
      Follows(env, m, Trail(s.t.mem, s1.t.mem, undone, s2.t.mem, s3.t.mem, s4.t.mem), b, contents, Restored(s4).mem)
  {
    TrailReleased(s3, Release(s3, saved), saved);
  }

  lemma SwitchInBlockEnds(env: Env, s: State, len: nat, contents: Option<seq<byte>>, result: Result)
    ensures
      var (s1, saved) := Reserve(s, len, contents, false);
      Exec(env, s, SwitchInBlock(len, contents, result)) == Release(DoSyscall(env, s1, true, result), saved)
  {
    var (s1, saved) := Reserve(s, len, contents, false);
    var s2 := DoSyscall(env, s1, true, result);
    assert Exec(env, s2, Done) == s2;
    assert Exec(env, s1, Call(true, result, Done)) == s2;
    assert Exec(env, Release(s2, saved), Done) == Release(s2, saved);
  }

  /** The bytes at the traced site when the switch gets there are the syscall instruction already. */
  ghost predicate TracedHasInsn(env: Env, m: Memory, b: Block, contents: seq<byte>)
    requires |contents| == b.len && RangeIn(m.Keys, env.tracedSite, |env.insn|)
  {
    forall k :: InSite(env, env.tracedSite, k) ==>
      (if InBlock(b, k) then contents[k - b.start] else m[k]) == env.insn[k - env.tracedSite]
  }

  /**
   * Where the block meets the singlestep site, that site already held the instruction; and where contents given for
   * the block meet the traced site, they were there already or made it hold the instruction.
   */
  ghost predicate Harmless(env: Env, m: Memory, b: Block, contents: Option<seq<byte>>)
    requires SitesMapped(env, m.Keys) && RangeIn(m.Keys, b.start, b.len) &&
             (contents.Some? ==> |contents.value| == b.len)
  {
    && (forall k <- m :: InBlock(b, k) && InSite(env, env.untracedSite, k) ==> m[k] == env.insn[k - env.untracedSite])
    && (contents.None? || TracedHasInsn(env, m, b, contents.value) ||
        forall k <- m :: InBlock(b, k) && InSite(env, env.tracedSite, k) ==> m[k] == contents.value[k - b.start])
  }

  lemma TrailUndone(env: Env, m: Memory, tr: Trail, b: Block, contents: Option<seq<byte>>, last: Memory, k: int)
    requires Follows(env, m, tr, b, contents, last) && k in m && (contents.Some? ==> |contents.value| == b.len)
    requires Apart(env.untracedSite, |env.insn|, env.tracedSite, |env.insn|)
    ensures k in tr.undone && (!InBlock(b, k) ==> tr.undone[k] == m[k])
    ensures InBlock(b, k) && InSite(env, env.tracedSite, k) ==>
              tr.undone[k] == if contents.None? then m[k] else contents.value[k - b.start]
  {
    UndoneAt(env, m, tr.prepared, tr.reserved, tr.undone, b, contents, k);
  }

  lemma UndoneAt(env: Env, m: Memory, prepared: Memory, reserved: Memory, undone: Memory, b: Block,
                 contents: Option<seq<byte>>, k: int)
    requires k in m && (contents.Some? ==> |contents.value| == b.len)
    requires Apart(env.untracedSite, |env.insn|, env.tracedSite, |env.insn|)
    requires HasInsnAt(env, env.untracedSite, m, prepared)
    requires Overwritten(prepared, reserved, b.start, if contents.None? then [] else contents.value)
    requires
      var bytes := Read(m, env.untracedSite, |env.insn|);
      Overwritten(reserved, undone, env.untracedSite, if bytes == env.insn then [] else bytes)
    ensures k in undone && (!InBlock(b, k) ==> undone[k] == m[k])
    ensures InBlock(b, k) && InSite(env, env.tracedSite, k) ==>
              undone[k] == if contents.None? then m[k] else contents.value[k - b.start]
  {
    if InSite(env, env.untracedSite, k) {
      ReadAt(m, env.untracedSite, |env.insn|, k - env.untracedSite);
    }
  }

  lemma ReadIs(m: Memory, a: int, x: seq<byte>)
    requires RangeIn(m.Keys, a, |x|)
    ensures Read(m, a, |x|) == x <==> HasBytes(m, a, x)
  {
    var bytes := Read(m, a, |x|);
    assert forall i :: 0 <= i < |x| ==> (HasByte(m, a + i, x[i]) <==> bytes[i] == x[i]);
  }

  lemma TrailTraced(env: Env, m: Memory, tr: Trail, b: Block, contents: Option<seq<byte>>, last: Memory)
    requires Follows(env, m, tr, b, contents, last) && SitesMapped(env, m.Keys) && contents.Some? &&
             |contents.value| == b.len
    requires Apart(env.untracedSite, |env.insn|, env.tracedSite, |env.insn|)
    ensures Read(tr.undone, env.tracedSite, |env.insn|) == env.insn <==> TracedHasInsn(env, m, b, contents.value)
  {
    var site := env.tracedSite;
    assert tr.undone.Keys == m.Keys;
    forall k | InSite(env, site, k)
      ensures k in m && tr.undone[k] == if InBlock(b, k) then contents.value[k - b.start] else m[k]
    {
      assert k in m.Keys;
      TrailUndone(env, m, tr, b, contents, last, k);
    }
    TracedIff(env, m, tr.undone, b, contents.value);
  }

  /** The bytes at the traced site are those given for the block, and elsewhere those of `m`. */
  ghost predicate TracedBytes(env: Env, m: Memory, undone: Memory, b: Block, contents: seq<byte>) {
    && RangeIn(m.Keys, env.tracedSite, |env.insn|) && undone.Keys == m.Keys && |contents| == b.len
    && forall k :: InSite(env, env.tracedSite, k) ==>
                     undone[k] == if InBlock(b, k) then contents[k - b.start] else m[k]
  }

  lemma TracedThere(env: Env, m: Memory, undone: Memory, b: Block, contents: seq<byte>)
    requires TracedBytes(env, m, undone, b, contents) && HasBytes(undone, env.tracedSite, env.insn)
    ensures TracedHasInsn(env, m, b, contents)
  {
    forall k | InSite(env, env.tracedSite, k)
      ensures undone[k] == env.insn[k - env.tracedSite]
    {
      var i := k - env.tracedSite;
      assert HasByte(undone, env.tracedSite + i, env.insn[i]);
    }
  }

  lemma TracedBack(env: Env, m: Memory, undone: Memory, b: Block, contents: seq<byte>)
    requires TracedBytes(env, m, undone, b, contents) && TracedHasInsn(env, m, b, contents)
    ensures HasBytes(undone, env.tracedSite, env.insn)
  {
    forall i | 0 <= i < |env.insn|
      ensures HasByte(undone, env.tracedSite + i, env.insn[i])
    {
      assert InSite(env, env.tracedSite, env.tracedSite + i);
    }
  }

  lemma TracedIff(env: Env, m: Memory, undone: Memory, b: Block, contents: seq<byte>)
    requires TracedBytes(env, m, undone, b, contents)
    ensures Read(undone, env.tracedSite, |env.insn|) == env.insn <==> TracedHasInsn(env, m, b, contents)
  {
    ReadIs(undone, env.tracedSite, env.insn);
    if HasBytes(undone, env.tracedSite, env.insn) {
      TracedThere(env, m, undone, b, contents);
    }
    if TracedHasInsn(env, m, b, contents) {
      TracedBack(env, m, undone, b, contents);
    }
  }

  lemma TrailLast(env: Env, m: Memory, tr: Trail, b: Block, contents: Option<seq<byte>>, last: Memory, k: int)
    requires Follows(env, m, tr, b, contents, last) && k in m && (contents.Some? ==> |contents.value| == b.len)
    requires Apart(env.untracedSite, |env.insn|, env.tracedSite, |env.insn|)
    ensures k in last
    ensures last[k] ==
            if !InBlock(b, k) then m[k]
            else if InSite(env, env.untracedSite, k) then env.insn[k - env.untracedSite]
            else if InSite(env, env.tracedSite, k) && contents.Some? &&
              Read(tr.undone, env.tracedSite, |env.insn|) != env.insn
            then contents.value[k - b.start]
            else m[k]
  {
    TrailUndone(env, m, tr, b, contents, last, k);
    RestoredAt(env, tr.undone, tr.switched, tr.released, last, k);
    if InBlock(b, k) {
      PutBackInBlock(env, m, tr.prepared, tr.called, tr.released, b, k);
    } else {
      assert !Reserved([b], k);
    }
  }

  /** Restoring gives the traced site what it held before the switch, and keeps the rest. */
  lemma RestoredAt(env: Env, undone: Memory, switched: Memory, released: Memory, last: Memory, k: int)
    requires k in undone && released.Keys == undone.Keys && HasInsnAt(env, env.tracedSite, undone, switched)
    requires
      var bytes := Read(undone, env.tracedSite, |env.insn|);
      Overwritten(released, last, env.tracedSite, if bytes == env.insn then [] else bytes)
    ensures k in last && k in switched && k in released
    ensures
      if InSite(env, env.tracedSite, k) && Read(undone, env.tracedSite, |env.insn|) != env.insn
      then last[k] == undone[k]
      else last[k] == released[k] && switched[k] == undone[k]
  {
    if InSite(env, env.tracedSite, k) {
      ReadAt(undone, env.tracedSite, |env.insn|, k - env.tracedSite);
    }
  }

  /** Releasing the block puts back what it held when it was reserved. */
  lemma PutBackInBlock(env: Env, m: Memory, prepared: Memory, called: Memory, released: Memory, b: Block, k: int)
    requires k in m && InBlock(b, k) && called.Keys == m.Keys && HasInsnAt(env, env.untracedSite, m, prepared)
    requires Overwritten(called, released, b.start, Read(prepared, b.start, b.len))
    ensures k in released
    ensures released[k] == if InSite(env, env.untracedSite, k) then env.insn[k - env.untracedSite] else m[k]
  {
    ReadAt(prepared, b.start, b.len, k - b.start);
  }

  /** The byte a switch during the life of a block leaves at `k`. */
  ghost function ByteLeft(env: Env, m: Memory, b: Block, contents: Option<seq<byte>>, k: int): byte
    requires SitesMapped(env, m.Keys) && k in m && (contents.Some? ==> |contents.value| == b.len)
  {
    if !InBlock(b, k) then m[k]
    else if InSite(env, env.untracedSite, k) then env.insn[k - env.untracedSite]
    else if InSite(env, env.tracedSite, k) && contents.Some? && !TracedHasInsn(env, m, b, contents.value)
    then contents.value[k - b.start]
    else m[k]
  }

  lemma TrailLeaves(env: Env, m: Memory, tr: Trail, b: Block, contents: Option<seq<byte>>, last: Memory)
    requires Follows(env, m, tr, b, contents, last) && SitesMapped(env, m.Keys)
    requires contents.Some? ==> |contents.value| == b.len
    requires Apart(env.untracedSite, |env.insn|, env.tracedSite, |env.insn|)
    ensures last.Keys == m.Keys
    ensures forall k <- m :: last[k] == ByteLeft(env, m, b, contents, k)
  {
    if contents.Some? {
      TrailTraced(env, m, tr, b, contents, last);
    }
    forall k | k in m
      ensures k in last && last[k] == ByteLeft(env, m, b, contents, k)
    {
      TrailByte(env, m, tr, b, contents, last, k);
    }
  }

  lemma TrailByte(env: Env, m: Memory, tr: Trail, b: Block, contents: Option<seq<byte>>, last: Memory, k: int)
    requires Follows(env, m, tr, b, contents, last) && SitesMapped(env, m.Keys) && k in m
    requires contents.Some? ==> |contents.value| == b.len
    requires Apart(env.untracedSite, |env.insn|, env.tracedSite, |env.insn|)
    requires contents.Some? ==>
               (Read(tr.undone, env.tracedSite, |env.insn|) == env.insn <==> TracedHasInsn(env, m, b, contents.value))
    ensures k in last && last[k] == ByteLeft(env, m, b, contents, k)
  {
    TrailLast(env, m, tr, b, contents, last, k);
  }

  lemma HarmlessIff(env: Env, m: Memory, b: Block, contents: Option<seq<byte>>, last: Memory)
    requires SitesMapped(env, m.Keys) && RangeIn(m.Keys, b.start, b.len) &&
             (contents.Some? ==> |contents.value| == b.len)
    requires Apart(env.untracedSite, |env.insn|, env.tracedSite, |env.insn|)
    requires last.Keys == m.Keys && forall k <- m :: last[k] == ByteLeft(env, m, b, contents, k)
    ensures last == m <==> Harmless(env, m, b, contents)
  {
    if last == m {
      forall k | k in m && InBlock(b, k)
        ensures InSite(env, env.untracedSite, k) ==> m[k] == env.insn[k - env.untracedSite]
        ensures InSite(env, env.tracedSite, k) && contents.Some? && !TracedHasInsn(env, m, b, contents.value) ==>
                  m[k] == contents.value[k - b.start]
      {
        assert last[k] == ByteLeft(env, m, b, contents, k);
      }
    }
    if Harmless(env, m, b, contents) {
      forall k | k in m
        ensures last[k] == m[k]
      {
        assert last[k] == ByteLeft(env, m, b, contents, k);
      }
    }
  }

  /** A switch during the life of a block restores the tracee if and only if the block is harmless. */
  lemma SwitchInBlockRestoresIff(env: Env, t: Tracee, stack: Stack, len: nat, contents: Option<seq<byte>>,
                                 result: Result)
    requires SitesMapped(env, t.mem.Keys) && Apart(env.untracedSite, |env.insn|, env.tracedSite, |env.insn|)
    requires !FixOf(stack, t.regs.sp).Scratch? && (contents.Some? ==> |contents.value| == len)
    requires RangeIn(t.mem.Keys, BlockOf(stack, t.regs.sp, len).start, len)
    requires WritesReserved([BlockOf(stack, t.regs.sp, len)], result.writes)
    ensures Restored(Exec(env, Prepare(env, t, true, stack), SwitchInBlock(len, contents, result))) == t <==>
            Harmless(env, t.mem, BlockOf(stack, t.regs.sp, len), contents)
  {
    var b := BlockOf(stack, t.regs.sp, len);
    var s := Prepare(env, t, true, stack);
    var (s1, saved) := Reserve(s, len, contents, false);
    var end := Restored(Release(DoSyscall(env, s1, true, result), saved));
    PreparedOnUntraced(env, t, stack);
    TrailFollows(env, t.mem, s, b, contents, result);
    TrailLeaves(env, t.mem, TrailOf(env, s, len, contents, result), b, contents, end.mem);
    HarmlessIff(env, t.mem, b, contents, end.mem);
    SwitchInBlockEnds(env, s, len, contents, result);
    assert end.regs == t.regs && end.status == t.status;
  }

  // The two entry points of the rd page that remote syscalls use, in a tracee that has mapped its own zeroed, private,
  // writable memory over that page and the one below and has its stack there.
  const RD_ENV: Env := Env(0x7000_000F, 0x7000_0000, [0x0F, 0x05])
  const OVER_RD_PAGE: Stack := Stack(true, true, [Area(0x6FFF_F000, 0x7000_1000, true)], 0)

  function ZeroTracee(): Tracee {
    Tracee(Regs(0, 0x7000_0011, []), Write(map[], 0x6FFF_F000, ZeroPage() + ZeroPage()), 0)
  }

  /** A block over a singlestep site that does not hold the instruction leaves the instruction there. */
  lemma BlockOverSiteIsNotRestored(result: Result)
    requires result.writes == []
    ensures SitesMapped(RD_ENV, ZeroTracee().mem.Keys) && FixOf(OVER_RD_PAGE, ZeroTracee().regs.sp) == Keep
    ensures Restored(Exec(RD_ENV, Prepare(RD_ENV, ZeroTracee(), true, OVER_RD_PAGE),
                          SwitchInBlock(2, None, result))) != ZeroTracee()
  {
    var t := ZeroTracee();
    WriteAt(map[], 0x6FFF_F000, ZeroPage() + ZeroPage());
    assert OVER_RD_PAGE.areas[0].usable;
    assert GoodStack(OVER_RD_PAGE.areas, t.regs.sp);
    SwitchInBlockRestoresIff(RD_ENV, t, OVER_RD_PAGE, 2, None, result);
    assert InBlock(BlockOf(OVER_RD_PAGE, t.regs.sp, 2), 0x7000_000F) && t.mem[0x7000_000F] == 0;
  }

  // ----- The objects

  class Task {
    var regs: Regs
    var mem: Memory
    var status: int

    constructor (t: Tracee)
      ensures View() == t
    {
      regs, mem, status := t.regs, t.mem, t.status;
    }

    ghost function View(): Tracee
      reads this
    {
      Tracee(regs, mem, status)
    }
  }

  class AutoRemoteSyscalls {
    const env: Env
    const t: Task
    const enableMemParams: bool
    var initialRegs: Regs
    var initialIp: int
    var initialSp: int
    var replacedBytes: seq<byte>
    var restoreWaitStatus: int
    var scratchMem: Option<int>
    var useSinglestepPath: bool

    ghost function RemoteView(): Remote
      reads this
    {
      Remote(initialRegs, initialIp, initialSp, replacedBytes, restoreWaitStatus, scratchMem, useSinglestepPath,
        enableMemParams)
    }

    ghost function View(): State
      reads this, t
    {
      State(t.View(), RemoteView())
    }

    constructor (env: Env, t: Task, singlestep: bool, stack: Stack)
      modifies t
      ensures this.env == env && this.t == t
      ensures View() == Prepare(env, old(t.View()), singlestep, stack)
    {
      this.env, this.t, enableMemParams := env, t, stack.memParams;
      initialRegs, initialIp, initialSp := t.regs, t.regs.ip, t.regs.sp;
      replacedBytes, restoreWaitStatus, scratchMem, useSinglestepPath := [], t.status, None, false;
      new;
      SetupPath(singlestep);
      if stack.memParams {
        MaybeFixStackPointer(stack);
      }
    }

    method SetupPath(enableSinglestepPath: bool)
      modifies this, t
      ensures View() == AfterSetup(env, old(View()), enableSinglestepPath)
    {
      if replacedBytes != [] {
        t.mem := Write(t.mem, initialRegs.ip, replacedBytes);
      }
      useSinglestepPath := enableSinglestepPath;
      var syscallIp := if useSinglestepPath then env.untracedSite else env.tracedSite;
      initialRegs := initialRegs.(ip := syscallIp);
      replacedBytes := Read(t.mem, initialRegs.ip, |env.insn|);
      if replacedBytes == env.insn {
        replacedBytes := [];
      } else {
        t.mem := Write(t.mem, initialRegs.ip, env.insn);
      }
    }

    method MaybeFixStackPointer(stack: Stack)
      requires stack.memParams
      modifies this, t
      ensures View() == Fixed(old(View()), FixOf(stack, old(t.regs.sp)))
    {
      if !stack.doneInitialExec || GoodStack(stack.areas, t.regs.sp) {
        return;
      }
      var i := 0;
      while i < |stack.areas| && !stack.areas[i].usable
        invariant 0 <= i <= |stack.areas| && FirstUsable(stack.areas) == FirstUsable(stack.areas[i..])
      {
        assert stack.areas[i..][1..] == stack.areas[i + 1..];
        i := i + 1;
      }
      var fixedSp;
      if i < |stack.areas| {
        fixedSp := stack.areas[i].end;
      } else {
        t.mem := Write(t.mem, stack.scratch, ZeroPage());
        fixedSp := stack.scratch + SCRATCH_SIZE;
        scratchMem := Some(stack.scratch);
      }
      initialRegs := initialRegs.(sp := fixedSp);
    }

    /** What the kernel does is given by `result`. */
    method Syscall(setsSigtrapHandler: bool, result: Result)
      modifies this, t
      ensures View() == DoSyscall(env, old(View()), setsSigtrapHandler, result)
    {
      var callregs := initialRegs;
      if setsSigtrapHandler && useSinglestepPath {
        SetupPath(false);
        callregs := callregs.(ip := initialRegs.ip);
      }
      t.regs := callregs;
      t.mem := WriteAll(t.mem, result.writes);
      t.regs := t.regs.(ip := result.ip, others := result.others);
      t.status := result.status;
    }

    /** The task is this remote's own or another one that shares its memory. */
    method RestoreStateTo(task: Task)
      modifies task
      ensures task.View() == Restored(State(old(task.View()), RemoteView()))
    {
      task.mem := WithoutScratch(task.mem, scratchMem);
      if replacedBytes != [] {
        task.mem := Write(task.mem, initialRegs.ip, replacedBytes);
      }
      var regs := initialRegs.(ip := initialIp, sp := initialSp);
      task.regs := regs;
      task.status := restoreWaitStatus;
    }
  }

  class AutoRestoreMem {
    const remote: AutoRemoteSyscalls
    const len: nat
    var addr: Option<int>
    var data: seq<byte>
    var savedSp: int

    ghost function View(): Saved
      reads this
    {
      Saved(addr, data, savedSp)
    }

    /** The source asserts that memory parameters are enabled and that the length is that of the contents. */
    constructor (remote: AutoRemoteSyscalls, contents: Option<seq<byte>>, fails: bool, len: nat)
      requires remote.enableMemParams && (contents.Some? ==> |contents.value| == len)
      modifies remote, remote.t
      ensures this.remote == remote && this.len == len && |data| == len
      ensures (remote.View(), View()) == Reserve(old(remote.View()), len, contents, fails)
    {
      this.remote, this.len := remote, len;
      savedSp := remote.initialRegs.sp;
      addr := Some(remote.initialRegs.sp - len);
      data := Read(remote.t.mem, remote.initialRegs.sp - len, len);
      new;
      remote.initialRegs := remote.initialRegs.(sp := savedSp - len);
      remote.t.regs := remote.initialRegs;
      if contents.Some? {
        if fails {
          addr := None;
        } else {
          remote.t.mem := Write(remote.t.mem, addr.value, contents.value);
        }
      }
    }

    /** The source asserts that the stack pointer is where this block left it. */
    method Drop()
      requires SpAgrees(remote.View(), View()) && |data| == len
      modifies remote, remote.t
      ensures remote.View() == Release(old(remote.View()), View())
    {
      var newSp := remote.initialRegs.sp + len;
      if addr.Some? {
        remote.t.mem := Write(remote.t.mem, addr.value, data);
      }
      remote.initialRegs := remote.initialRegs.(sp := newSp);
      remote.t.regs := remote.initialRegs;
    }
  }

  /** Runs a program with the objects; the assertions of the source hold each time. */
  method Perform(remote: AutoRemoteSyscalls, p: Program, ghost c: Ctx)
    requires At(remote.env, c, remote.View()) && Fits(remote.env, c, p)
    modifies remote, remote.t
    ensures remote.View() == Exec(remote.env, old(remote.View()), p)
    decreases p, 0
  {
    ghost var s, env := remote.View(), remote.env;
    match p {
      case Done =>
      case Poke(addr, bytes, next) =>
        BlockWriteAgrees(remote.t.mem, c.blocks, addr, bytes);
        remote.t.mem := Write(remote.t.mem, addr, bytes);
        Perform(remote, next, c);
      case Call(setsSigtrapHandler, result, next) =>
        CallRestorable(env, s, setsSigtrapHandler, result, c.blocks);
        remote.Syscall(setsSigtrapHandler, result);
        Perform(remote, next, c.(singlestep := c.singlestep && !setsSigtrapHandler, taskSp := c.sp));
      case WithMem(len, contents, fails, body, next) =>
        PerformWithMem(remote, p, c);
        Perform(remote, next, c.(singlestep := c.singlestep && !Switches(body), taskSp := c.sp));
      case WithRemote(singlestep, stack, body, next) =>
        PerformWithRemote(remote, p, c);
        Perform(remote, next, c);
    }
  }

  method PerformWithMem(remote: AutoRemoteSyscalls, p: Program, ghost c: Ctx)
    requires p.WithMem? && At(remote.env, c, remote.View()) && Fits(remote.env, c, p)
    modifies remote, remote.t
    ensures
      var (s1, b) := Reserve(old(remote.View()), p.len, p.contents, p.fails);
      remote.View() == Release(Exec(remote.env, s1, p.body), b)
    ensures At(remote.env, c.(singlestep := c.singlestep && !Switches(p.body), taskSp := c.sp), remote.View())
    decreases p.body, 1
  {
    ghost var s, env, c' := remote.View(), remote.env, BodyCtx(c, p.len, p.contents, p.fails);
    ReserveAt(env, c, s, p);
    ExecRestorable(env, c', Reserve(s, p.len, p.contents, p.fails).0, p.body);
    ReleaseAt(env, c, s, p);
    var mem := new AutoRestoreMem(remote, p.contents, p.fails, p.len);
    Perform(remote, p.body, c');
    mem.Drop();
  }

  method PerformWithRemote(remote: AutoRemoteSyscalls, p: Program, ghost c: Ctx)
    requires p.WithRemote? && At(remote.env, c, remote.View()) && Fits(remote.env, c, p)
    modifies remote, remote.t
    ensures
      var s := old(remote.View());
      remote.View() == s.(t := Restored(Exec(remote.env, Prepare(remote.env, s.t, p.singlestep, p.stack), p.body)))
    ensures At(remote.env, c, remote.View())
    decreases p.body, 1
  {
    ghost var s, env, c' := remote.View(), remote.env, RemoteCtx(c, p.singlestep, p.stack);
    PrepareAt(env, c, s, p);
    ExecRestorable(env, c', Prepare(env, s.t, p.singlestep, p.stack), p.body);
    RestoreAt(env, c, s, p);
    var nested := new AutoRemoteSyscalls(remote.env, remote.t, p.singlestep, p.stack);
    Perform(nested, p.body, c');
    nested.RestoreStateTo(remote.t);
  }

  /** From construction to destruction: the tracee is as it was, whatever the program did. */
  method MakeRemoteSyscalls(env: Env, t: Task, singlestep: bool, stack: Stack, p: Program)
    requires SitesMapped(env, t.mem.Keys) && ScratchIsNew(t.mem.Keys, FixOf(stack, t.regs.sp))
    requires Fits(env, StartCtx(t.View(), singlestep, stack), p)
    modifies t
    ensures t.regs == old(t.regs) && t.mem == old(t.mem) && t.status == old(t.status)
  {
    ghost var c := StartCtx(t.View(), singlestep, stack);
    RemoteSyscallsRestore(env, t.View(), singlestep, stack, p);
    PrepareUndone(env, t.View(), singlestep, stack);
    SitesStayMapped(env, t.mem.Keys, FixOf(stack, t.regs.sp));
    var remote := new AutoRemoteSyscalls(env, t, singlestep, stack);
    Perform(remote, p, c);
    remote.RestoreStateTo(t);
  }
}
