/** The jump at a patched syscall site and the stub it leads to, as bytes and as control flow (`monkey_patcher.rs`). */
module SyscallStubs {
  import opened Words
  import opened Templates
  import opened TraceeMemory
  import opened ExtendedJumps
  import opened StubMachine

  // ----- The templates

  /** Fixed bytes and a field behind them. */
  function Pair(p: seq<byte>, n: nat): seq<Chunk> {
    [Raw(p), Field(n)]
  }

  const JUMP_OPCODE: seq<byte> := [0xe9]

  /** `jmp rel32`, on both architectures. */
  const JUMP: seq<Chunk> := Pair(JUMP_OPCODE, 4)

  const X86_SAVE_SP: seq<byte> := [0x89, 0x25, 0x08, 0x10, 0x00, 0x70]
  const X86_INCREMENT: seq<byte> := [0xFF, 0x05, 0x0c, 0x10, 0x00, 0x70]
  const X86_COMPARE: seq<byte> := [0x83, 0x3c, 0x25, 0x0c, 0x10, 0x00, 0x70, 0x01]
  const X86_DONT_SWITCH: seq<byte> := [0x75, 0x06]
  const X86_LOAD_SP: seq<byte> := [0x8b, 0x25, 0x00, 0x10, 0x00, 0x70]
  const X86_PUSH_SP: seq<byte> := [0xff, 0x35, 0x08, 0x10, 0x00, 0x70]

  const X86_ENTRY: seq<byte> := X86_SAVE_SP + X86_INCREMENT + X86_COMPARE + X86_DONT_SWITCH
  const X86_SWITCH_STACK: seq<byte> := X86_ENTRY + X86_LOAD_SP + X86_PUSH_SP

  const X86_PROLOGUE: seq<byte> := X86_SWITCH_STACK + [0x68]

  const X86_STUB: seq<Chunk> := Pair(X86_PROLOGUE, 4) + Pair(JUMP_OPCODE, 4)

  const X64_SAVE_SP: seq<byte> := [0x48, 0x89, 0x24, 0x25, 0x10, 0x10, 0x00, 0x70]
  const X64_INCREMENT: seq<byte> := [0xFF, 0x04, 0x25, 0x18, 0x10, 0x00, 0x70]
  const X64_COMPARE: seq<byte> := [0x83, 0x3c, 0x25, 0x18, 0x10, 0x00, 0x70, 0x01]
  const X64_DONT_SWITCH: seq<byte> := [0x75, 0x0a]
  const X64_LOAD_SP: seq<byte> := [0x48, 0x8b, 0x24, 0x25, 0x00, 0x10, 0x00, 0x70]
  const X64_SKIP: seq<byte> := [0xeb, 0x07]
  const X64_LOWER_SP: seq<byte> := [0x48, 0x81, 0xec, 0x00, 0x01, 0x00, 0x00]
  const X64_PUSH_SP: seq<byte> := [0xff, 0x34, 0x25, 0x10, 0x10, 0x00, 0x70]
  const X64_PUSH_AX: seq<byte> := [0x50]

  const X64_ENTRY: seq<byte> := X64_SAVE_SP + X64_INCREMENT + X64_COMPARE + X64_DONT_SWITCH
  const X64_SWITCH_STACK: seq<byte> :=
    X64_ENTRY + X64_LOAD_SP + X64_SKIP + X64_LOWER_SP + X64_PUSH_SP + X64_PUSH_AX

  const X64_PROLOGUE: seq<byte> := X64_SWITCH_STACK + [0xc7, 0x04, 0x24]

  const X64_STORE_HIGH: seq<byte> := [0xc7, 0x44, 0x24, 0x04]
  const X64_JUMP_INDIRECT: seq<byte> := [0xff, 0x25, 0x00, 0x00, 0x00, 0x00]

  const X64_STUB: seq<Chunk> := Pair(X64_PROLOGUE, 4) + Pair(X64_STORE_HIGH, 4) + Pair(X64_JUMP_INDIRECT, 8)

  // ----- What the templates encode to

  lemma SnocPair(cs: seq<Chunk>, vals: seq<nat>, p: seq<byte>, n: nat, v: nat)
    requires |vals| == FieldCount(cs)
    ensures Size(cs + Pair(p, n)) == Size(cs) + |p| + n && FieldCount(cs + Pair(p, n)) == |vals + [v]|
    ensures Encode(cs + Pair(p, n), vals + [v]) == Encode(cs, vals) + (p + ToLittleEndian(v, n))
  {
    SnocRaw(cs, p);
    SnocField(cs + [Raw(p)], n, vals, v);
    assert cs + [Raw(p)] + [Field(n)] == cs + Pair(p, n);
  }

  lemma OnePair(p: seq<byte>, n: nat, v: nat)
    ensures Size(Pair(p, n)) == |p| + n && FieldCount(Pair(p, n)) == 1
    ensures Encode(Pair(p, n), [v]) == p + ToLittleEndian(v, n)
  {
    SnocPair([], [], p, n, v);
    assert [] + Pair(p, n) == Pair(p, n) && [] + [v] == [v];
  }

  // ----- The values the fields get

  function StubSize(arch: Arch): nat {
    if arch.X86? then 44 else 79
  }

  /** An offset that does not fit 32 bits is truncated; the processor wraps around. */
  function StubValues(arch: Arch, stub: int, returnAddr: u64, target: u64): seq<nat> {
    match arch
    case X86 => [returnAddr % TWO_32] + [(target - (stub + 44)) % TWO_32]
    case X64 => [returnAddr % TWO_32] + [returnAddr / TWO_32] + [target]
  }

  lemma X86StubShape(ret: nat, rel: nat)
    ensures Size(X86_STUB) == 44 && FieldCount(X86_STUB) == 2
    ensures Encode(X86_STUB, [ret] + [rel]) == (X86_PROLOGUE + ToLittleEndian(ret,
            4)) + (JUMP_OPCODE + ToLittleEndian(rel, 4))
  {
    OnePair(X86_PROLOGUE, 4, ret);
    SnocPair(Pair(X86_PROLOGUE, 4), [ret], JUMP_OPCODE, 4, rel);
  }

  lemma X64StubShape(lo: nat, hi: nat, target: nat)
    ensures Size(X64_STUB) == 79 && FieldCount(X64_STUB) == 3
    ensures Encode(X64_STUB, [lo] + [hi] + [target]) ==
            (X64_PROLOGUE + ToLittleEndian(lo, 4)) + (X64_STORE_HIGH + ToLittleEndian(hi, 4)) +
            (X64_JUMP_INDIRECT + ToLittleEndian(target, 8))
  {
    OnePair(X64_PROLOGUE, 4, lo);
    var cs := Pair(X64_PROLOGUE, 4) + Pair(X64_STORE_HIGH, 4);
    SnocPair(Pair(X64_PROLOGUE, 4), [lo], X64_STORE_HIGH, 4, hi);
    SnocPair(cs, [lo] + [hi], X64_JUMP_INDIRECT, 8, target);
  }

  function StubBytes(arch: Arch, stub: int, returnAddr: u64, target: u64): (s: seq<byte>)
    ensures |s| == StubSize(arch)
  {
    if arch.X86? then
      X86StubShape(0, 0);
      Encode(X86_STUB, StubValues(arch, stub, returnAddr, target))
    else
      X64StubShape(0, 0, 0);
      Encode(X64_STUB, StubValues(arch, stub, returnAddr, target))
  }

  function JumpBytes(site: int, stub: int): (s: seq<byte>)
    ensures |s| == 5
  {
    var rel := (stub - (site + 5)) % TWO_32;
    OnePair(JUMP_OPCODE, 4, rel);
    Encode(JUMP, [rel])
  }

  // ----- The instructions in a stub

  const ALT_STACK: u32 := 0x7000_1000

  /** Where a stub keeps the stack pointer it found. */
  function Scratch(arch: Arch): u32 {
    if arch.X86? then 0x7000_1008 else 0x7000_1010
  }

  /** How many hooks of the thread are on their way. */
  function NestingLevel(arch: Arch): u32 {
    if arch.X86? then 0x7000_100c else 0x7000_1018
  }

  /** A stub: where it is, where its hook returns to, and the hook. */
  datatype Stub = Stub(arch: Arch, start: nat, returnAddr: u64, target: u64)

  /** `at` says which instruction is where. */
  ghost predicate EntryCode(at: (int, Insn) -> bool, arch: Arch, start: int) {
    match arch
    case X86 =>
      && at(start, SaveSp(Scratch(arch))) && at(start + 6, Increment(NestingLevel(arch)))
      && at(start + 12, CompareOne(NestingLevel(arch))) && at(start + 20, JumpIfNot(6))
    case X64 =>
      && at(start, SaveSp(Scratch(arch))) && at(start + 8, Increment(NestingLevel(arch)))
      && at(start + 15, CompareOne(NestingLevel(arch))) && at(start + 23, JumpIfNot(10))
  }

  ghost predicate SwitchCode(at: (int, Insn) -> bool, arch: Arch, start: int) {
    match arch
    case X86 => at(start + 22, LoadSp(ALT_STACK)) && at(start + 28, PushAt(Scratch(arch)))
    case X64 =>
      && at(start + 25, LoadSp(ALT_STACK)) && at(start + 33, JumpShort(7)) && at(start + 35, LowerSp(0x100))
      && at(start + 42, PushAt(Scratch(arch))) && at(start + 49, PushAx)
  }

  ghost predicate CallCode(at: (int, Insn) -> bool, st: Stub) {
    match st.arch
    case X86 => at(st.start + 34, PushImm(Low(st))) && at(st.start + 39, JumpNear(Relative(st)))
    case X64 =>
      && at(st.start + 50, StoreLow(Low(st))) && at(st.start + 57, StoreHigh(High(st)))
      && at(st.start + 65, JumpThrough(st.target))
  }

  function Low(st: Stub): u32 {
    st.returnAddr % TWO_32
  }

  function High(st: Stub): u32 {
    st.returnAddr / TWO_32
  }

  /** An offset that does not fit 32 bits is truncated; the processor wraps around. */
  function Relative(st: Stub): u32 {
    (st.target - (st.start + 44)) % TWO_32
  }

  /** `at` knows every instruction that the bytes of `mem` are. */
  ghost predicate Knows(at: (int, Insn) -> bool, arch: Arch, mem: Memory) {
    forall a, i :: InsnAt(arch, mem, a, i) ==> at(a, i)
  }

  lemma Encoded(p: seq<byte>, v: u32, b: seq<byte>)
    requires |b| == 4 && v == Four(b[0], b[1], b[2], b[3])
    ensures p + ToLittleEndian(v, 4) == p + b
  {
    FromFour(b);
    LittleEndianEncodes(b);
  }

  function Four(b0: int, b1: int, b2: int, b3: int): int {
    b0 + 0x100 * (b1 + 0x100 * (b2 + 0x100 * b3))
  }

  lemma FromFour(b: seq<byte>)
    requires |b| == 4
    ensures FromLittleEndian(b) == Four(b[0], b[1], b[2], b[3])
  {
    assert FromLittleEndian(b[3..]) == b[3] by { assert b[3..][1..] == []; }
    assert FromLittleEndian(b[2..]) == Four(b[2], b[3], 0, 0) by { assert b[2..][1..] == b[3..]; }
    assert b[1..][1..] == b[2..];
  }

  lemma X86EntryEncoded()
    ensures Bytes(X86, SaveSp(Scratch(X86))) == X86_SAVE_SP && Bytes(X86, Increment(NestingLevel(X86))) == X86_INCREMENT
    ensures Bytes(X86, CompareOne(NestingLevel(X86))) == X86_COMPARE && Bytes(X86, JumpIfNot(6)) == X86_DONT_SWITCH
  {
    Encoded([0x89, 0x25], Scratch(X86), [0x08, 0x10, 0x00, 0x70]);
    Encoded([0xFF, 0x05], NestingLevel(X86), [0x0c, 0x10, 0x00, 0x70]);
    Encoded([0x83, 0x3c, 0x25], NestingLevel(X86), [0x0c, 0x10, 0x00, 0x70]);
  }

  lemma X86SwitchEncoded()
    ensures Bytes(X86, LoadSp(ALT_STACK)) == X86_LOAD_SP && Bytes(X86, PushAt(Scratch(X86))) == X86_PUSH_SP
  {
    Encoded([0x8b, 0x25], ALT_STACK, [0x00, 0x10, 0x00, 0x70]);
    Encoded([0xff, 0x35], Scratch(X86), [0x08, 0x10, 0x00, 0x70]);
  }

  lemma X86EntryDecodes(at: (int, Insn) -> bool, mem: Memory, start: int)
    requires Knows(at, X86, mem) && HasBytes(mem, start, X86_ENTRY)
    ensures EntryCode(at, X86, start)
  {
    X86EntryEncoded();
    HasConcat(mem, start, X86_SAVE_SP + X86_INCREMENT + X86_COMPARE, X86_DONT_SWITCH);
    HasConcat(mem, start, X86_SAVE_SP + X86_INCREMENT, X86_COMPARE);
    HasConcat(mem, start, X86_SAVE_SP, X86_INCREMENT);
  }

  lemma X86SwitchDecodes(at: (int, Insn) -> bool, mem: Memory, start: int)
    requires Knows(at, X86, mem) && HasBytes(mem, start, X86_SWITCH_STACK)
    ensures EntryCode(at, X86, start) && SwitchCode(at, X86, start)
  {
    X86SwitchEncoded();
    HasConcat(mem, start, X86_ENTRY + X86_LOAD_SP, X86_PUSH_SP);
    HasConcat(mem, start, X86_ENTRY, X86_LOAD_SP);
    X86EntryDecodes(at, mem, start);
  }

  lemma X64EntryEncoded()
    ensures Bytes(X64, SaveSp(Scratch(X64))) == X64_SAVE_SP && Bytes(X64, Increment(NestingLevel(X64))) == X64_INCREMENT
    ensures Bytes(X64, CompareOne(NestingLevel(X64))) == X64_COMPARE && Bytes(X64, JumpIfNot(10)) == X64_DONT_SWITCH
  {
    Encoded([0x48, 0x89, 0x24, 0x25], Scratch(X64), [0x10, 0x10, 0x00, 0x70]);
    Encoded([0xFF, 0x04, 0x25], NestingLevel(X64), [0x18, 0x10, 0x00, 0x70]);
    Encoded([0x83, 0x3c, 0x25], NestingLevel(X64), [0x18, 0x10, 0x00, 0x70]);
  }

  lemma X64SwitchEncoded()
    ensures Bytes(X64, LoadSp(ALT_STACK)) == X64_LOAD_SP && Bytes(X64, JumpShort(7)) == X64_SKIP
    ensures Bytes(X64, LowerSp(0x100)) == X64_LOWER_SP && Bytes(X64, PushAt(Scratch(X64))) == X64_PUSH_SP
  {
    Encoded([0x48, 0x8b, 0x24, 0x25], ALT_STACK, [0x00, 0x10, 0x00, 0x70]);
    Encoded([0x48, 0x81, 0xec], 0x100, [0x00, 0x01, 0x00, 0x00]);
    Encoded([0xff, 0x34, 0x25], Scratch(X64), [0x10, 0x10, 0x00, 0x70]);
  }

  lemma X64EntryDecodes(at: (int, Insn) -> bool, mem: Memory, start: int)
    requires Knows(at, X64, mem) && HasBytes(mem, start, X64_ENTRY)
    ensures EntryCode(at, X64, start)
  {
    X64EntryEncoded();
    HasConcat(mem, start, X64_SAVE_SP + X64_INCREMENT + X64_COMPARE, X64_DONT_SWITCH);
    HasConcat(mem, start, X64_SAVE_SP + X64_INCREMENT, X64_COMPARE);
    HasConcat(mem, start, X64_SAVE_SP, X64_INCREMENT);
  }

  lemma X64SwitchDecodes(at: (int, Insn) -> bool, mem: Memory, start: int)
    requires Knows(at, X64, mem) && HasBytes(mem, start, X64_SWITCH_STACK)
    ensures EntryCode(at, X64, start) && SwitchCode(at, X64, start)
  {
    X64SwitchEncoded();
    HasConcat(mem, start, X64_ENTRY + X64_LOAD_SP + X64_SKIP + X64_LOWER_SP + X64_PUSH_SP, X64_PUSH_AX);
    HasConcat(mem, start, X64_ENTRY + X64_LOAD_SP + X64_SKIP + X64_LOWER_SP, X64_PUSH_SP);
    HasConcat(mem, start, X64_ENTRY + X64_LOAD_SP + X64_SKIP, X64_LOWER_SP);
    HasConcat(mem, start, X64_ENTRY + X64_LOAD_SP, X64_SKIP);
    HasConcat(mem, start, X64_ENTRY, X64_LOAD_SP);
    X64EntryDecodes(at, mem, start);
  }

  /** Splits off the operand of an instruction whose opcode ends the bytes before it. */
  lemma HasOperand(mem: Memory, a: int, before: seq<byte>, opcode: seq<byte>, operand: seq<byte>)
    requires HasBytes(mem, a, (before + opcode) + operand)
    ensures HasBytes(mem, a, before) && HasBytes(mem, a + |before|, opcode + operand)
  {
    assert (before + opcode) + operand == before + (opcode + operand);
    HasConcat(mem, a, before, opcode + operand);
  }

  lemma X86CallDecodes(at: (int, Insn) -> bool, mem: Memory, st: Stub, switch: seq<byte>)
    requires Knows(at, X86, mem) && st.arch.X86? && |switch| == 34
    requires HasBytes(mem, st.start, ((switch + [0x68]) + ToLittleEndian(Low(st), 4)) +
                                     (JUMP_OPCODE + ToLittleEndian(Relative(st), 4)))
    ensures HasBytes(mem, st.start, switch) && CallCode(at, st)
  {
    HasConcat(mem, st.start, (switch + [0x68]) + ToLittleEndian(Low(st), 4),
              JUMP_OPCODE + ToLittleEndian(Relative(st), 4));
    HasOperand(mem, st.start, switch, [0x68], ToLittleEndian(Low(st), 4));
  }

  lemma X64Parts(mem: Memory, a: int, switch: seq<byte>, lo: seq<byte>, hi: seq<byte>, jump: seq<byte>)
    requires HasBytes(mem, a, ((switch + [0xc7, 0x04, 0x24]) + lo) + hi + jump)
    ensures HasBytes(mem, a, switch) && HasBytes(mem, a + |switch|, [0xc7, 0x04, 0x24] + lo)
    ensures HasBytes(mem, a + |switch| + 3 + |lo|, hi) && HasBytes(mem, a + |switch| + 3 + |lo| + |hi|, jump)
  {
    var storeLow := (switch + [0xc7, 0x04, 0x24]) + lo;
    HasConcat(mem, a, storeLow + hi, jump);
    HasConcat(mem, a, storeLow, hi);
    HasOperand(mem, a, switch, [0xc7, 0x04, 0x24], lo);
  }

  lemma X64CallDecodes(at: (int, Insn) -> bool, mem: Memory, st: Stub, switch: seq<byte>)
    requires Knows(at, X64, mem) && st.arch.X64? && |switch| == 50
    requires HasBytes(mem, st.start, ((switch + [0xc7, 0x04, 0x24]) + ToLittleEndian(Low(st), 4)) +
                                     (X64_STORE_HIGH + ToLittleEndian(High(st), 4)) +
                                     (X64_JUMP_INDIRECT + ToLittleEndian(st.target, 8)))
    ensures HasBytes(mem, st.start, switch) && CallCode(at, st)
  {
    X64Parts(mem, st.start, switch, ToLittleEndian(Low(st), 4), X64_STORE_HIGH + ToLittleEndian(High(st), 4),
             X64_JUMP_INDIRECT + ToLittleEndian(st.target, 8));
  }

  ghost predicate StubCode(at: (int, Insn) -> bool, st: Stub) {
    EntryCode(at, st.arch, st.start) && SwitchCode(at, st.arch, st.start) && CallCode(at, st)
  }

  lemma StubDecodes(at: (int, Insn) -> bool, mem: Memory, st: Stub)
    requires Knows(at, st.arch, mem) && HasStub(mem, st)
    ensures StubCode(at, st)
  {
    if st.arch.X86? {
      X86HasCode(mem, st);
      X86Decodes(at, mem, st, X86Code(st));
    } else {
      X64HasCode(mem, st);
      X64Decodes(at, mem, st, X64Code(st));
    }
  }

  lemma X86HasCode(mem: Memory, st: Stub)
    requires HasStub(mem, st) && st.arch.X86?
    ensures HasBytes(mem, st.start, X86Code(st))
  {
    X86StubIs(st);
  }

  lemma X64HasCode(mem: Memory, st: Stub)
    requires HasStub(mem, st) && st.arch.X64?
    ensures HasBytes(mem, st.start, X64Code(st))
  {
    X64StubIs(st);
  }

  function X86Code(st: Stub): seq<byte> {
    ((X86_SWITCH_STACK + [0x68]) + ToLittleEndian(Low(st), 4)) + (JUMP_OPCODE + ToLittleEndian(Relative(st), 4))
  }

  function X64Code(st: Stub): seq<byte> {
    ((X64_SWITCH_STACK + [0xc7, 0x04, 0x24]) + ToLittleEndian(Low(st), 4)) +
    (X64_STORE_HIGH + ToLittleEndian(High(st), 4)) + (X64_JUMP_INDIRECT + ToLittleEndian(st.target, 8))
  }

  lemma X86StubIs(st: Stub)
    ensures StubBytes(X86, st.start, st.returnAddr, st.target) == X86Code(st)
  {
    X86StubShape(Low(st), Relative(st));
  }

  lemma X64StubIs(st: Stub)
    ensures StubBytes(X64, st.start, st.returnAddr, st.target) == X64Code(st)
  {
    X64StubShape(Low(st), High(st), st.target);
  }

  lemma X86Decodes(at: (int, Insn) -> bool, mem: Memory, st: Stub, code: seq<byte>)
    requires Knows(at, X86, mem) && st.arch.X86? && code == X86Code(st) && HasBytes(mem, st.start, code)
    ensures StubCode(at, st)
  {
    X86CallDecodes(at, mem, st, X86_SWITCH_STACK);
    X86SwitchDecodes(at, mem, st.start);
  }

  lemma X64Decodes(at: (int, Insn) -> bool, mem: Memory, st: Stub, code: seq<byte>)
    requires Knows(at, X64, mem) && st.arch.X64? && code == X64Code(st) && HasBytes(mem, st.start, code)
    ensures StubCode(at, st)
  {
    X64CallDecodes(at, mem, st, X64_SWITCH_STACK);
    X64SwitchDecodes(at, mem, st.start);
  }

  ghost predicate HasStub(mem: Memory, st: Stub) {
    HasBytes(mem, st.start, StubBytes(st.arch, st.start, st.returnAddr, st.target))
  }
}
