/** The kernel's classic-BPF machine as seccomp runs it, and the filter builder of `seccomp_bpf.rs`. */
module Bpf {
  import opened Words

  const SECCOMP_RET_ALLOW: u32 := 0x7fff_0000
  const SECCOMP_RET_TRACE: u32 := 0x7ff0_0000
  const SECCOMP_RET_DATA: u32 := 0xffff

  datatype SockFilter = SockFilter(code: u16, jt: byte, jf: byte, k: u32)

  /** What the kernel tells a filter about one system call. */
  datatype SeccompData = SeccompData(nr: u32, arch: u32, instructionPointer: u64, args: seq<u64>)

  /** Accumulator, index register and scratch memory of the machine. */
  datatype Regs = Regs(a: u32, x: u32, m: map<u32, u32>)

  const INITIAL_REGS := Regs(0, 0, map[])

  datatype Effect =
    | Next(regs: Regs, skip: nat)
    | Return(result: u32)
    | Rejected

  /** `BPF_CLASS(code)`, that is `code & 7`. */
  function BpfClass(code: u16): nat {
    code % 8
  }

  /** `BPF_RVAL(code)`, that is `code & 0x18`. */
  function BpfRval(code: u16): nat {
    code / 8 % 4 * 8
  }

  const BPF_RET: nat := 0x06
  const BPF_K: nat := 0x00

  function Word(v: u64, offset: nat): u32 {
    if offset % 8 == 0 then v % TWO_32 else v / TWO_32
  }

  /** The aligned 32-bit little-endian word of `struct seccomp_data` at byte `offset`. */
  function LoadWord(d: SeccompData, offset: u32): Option<u32> {
    if offset % 4 != 0 then None
    else if offset == 0 then Some(d.nr)
    else if offset == 4 then Some(d.arch)
    else if offset < 16 then Some(Word(d.instructionPointer, offset))
    else if (offset - 16) / 8 < 6 && (offset - 16) / 8 < |d.args| then
      Some(Word(d.args[(offset - 16) / 8], offset))
    else None
  }

  function Shift(a: u32, n: nat): u32
    decreases n
  {
    if n == 0 then a else Shift(a * 2 % TWO_32, n - 1)
  }

  function ShiftRight(a: u32, n: nat): u32
    decreases n
  {
    if n == 0 then a else ShiftRight(a / 2, n - 1)
  }

  function Product(a: u32, b: u32): u32 {
    var p: int := a * b;
    p % TWO_32
  }

  function Quotient(a: u32, b: u32): u32
    requires b != 0
  {
    DivBelow(a, b);
    a / b
  }

  /** ALU operation `op` (the high nibble of the code); `None` where the kernel ends the filter. */
  function Alu(op: nat, a: u32, b: u32): Option<u32> {
    match op
    case 0 => Some((a + b) % TWO_32)
    case 1 => Some((a - b) % TWO_32)
    case 2 => Some(Product(a, b))
    case 3 => if b == 0 then None else Some(Quotient(a, b))
    case 4 => Some(Bitwise32(Or, a, b))
    case 5 => Some(Bitwise32(And, a, b))
    case 6 => Some(Shift(a, b % 32))
    case 7 => Some(ShiftRight(a, b % 32))
    case 8 => Some((TWO_32 - a) % TWO_32)
    case 10 => Some(Bitwise32(Xor, a, b))
    case _ => None
  }

  function Jump(op: nat, a: u32, b: u32): Option<bool> {
    match op
    case 1 => Some(a == b)
    case 2 => Some(a > b)
    case 3 => Some(a >= b)
    case 4 => Some(Bitwise32(And, a, b) != 0)
    case _ => None
  }

  function Load(i: SockFilter, r: Regs, d: SeccompData): Option<u32> {
    match i.code / 8
    case 0 => Some(i.k)                                             // IMM
    case 4 => LoadWord(d, i.k)                                      // W | ABS
    case 12 => if i.k in r.m then Some(r.m[i.k]) else None          // MEM
    case 16 => Some(64)                                             // W | LEN
    case _ => None
  }

  /** One instruction, decoded by class as the kernel does; codes seccomp refuses are `Rejected`. */
  function Exec(i: SockFilter, r: Regs, d: SeccompData): Effect {
    var op := i.code / 16;
    var operand := if i.code / 8 % 2 == 1 then r.x else i.k;
    match BpfClass(i.code)
    case 0 =>
      var v := Load(i, r, d);
      if v.Some? then Next(r.(a := v.value), 0) else Rejected
    case 1 =>
      var v := if i.code / 8 == 4 then None else Load(i, r, d);
      if v.Some? then Next(r.(x := v.value), 0) else Rejected
    case 2 => if i.code == 2 && i.k < 16 then Next(r.(m := r.m[i.k := r.a]), 0) else Rejected
    case 3 => if i.code == 3 && i.k < 16 then Next(r.(m := r.m[i.k := r.x]), 0) else Rejected
    case 4 =>
      var v := Alu(op, r.a, operand);
      if v.Some? then Next(r.(a := v.value), 0)
      else if op == 3 && i.code / 8 % 2 == 1 then Return(0)         // DIV by a zero X
      else Rejected
    case 5 =>
      if i.code == 5 then Next(r, i.k)                              // JA
      else
        var taken := Jump(op, r.a, operand);
        if taken.Some? then Next(r, if taken.value then i.jt else i.jf) else Rejected
    case 6 =>
      if BpfRval(i.code) == BPF_K then Return(i.k)
      else if BpfRval(i.code) == 0x10 then Return(r.a)
      else Rejected
    case _ =>
      if i.code == 0x07 then Next(r.(x := r.a), 0)                  // TAX
      else if i.code == 0x87 then Next(r.(a := r.x), 0)             // TXA
      else Rejected
  }

  /** Runs `prog` from `pc`; `None` when the run leaves the program or hits a refused instruction. */
  function Run(prog: seq<SockFilter>, pc: nat, r: Regs, d: SeccompData): Option<u32>
    decreases |prog| - pc
  {
    if pc >= |prog| then None
    else match Exec(prog[pc], r, d)
      case Next(r', skip) => Run(prog, pc + 1 + skip, r', d)
      case Return(v) => Some(v)
      case Rejected => None
  }

  /** Jumps are relative and forward, so code runs the same at the end of a longer program. */
  lemma {:induction false} RunAfterPrefix(pre: seq<SockFilter>, prog: seq<SockFilter>, pc: nat, r: Regs, d: SeccompData)
    ensures Run(pre + prog, |pre| + pc, r, d) == Run(prog, pc, r, d)
    decreases |prog| - pc
  {
    if pc < |prog| {
      match Exec(prog[pc], r, d)
      case Next(r', skip) => RunAfterPrefix(pre, prog, pc + 1 + skip, r', d);
      case Return(_) =>
      case Rejected =>
    }
  }

  // ----- Which programs never read the accumulator they start with

  predicate ReadsAccumulator(i: SockFilter) {
    match BpfClass(i.code)
    case 2 => true
    case 4 => true
    case 5 => i.code != 5
    case 6 => BpfRval(i.code) == 0x10
    case 7 => i.code == 0x07
    case _ => false
  }

  predicate OverwritesAccumulator(i: SockFilter) {
    BpfClass(i.code) == 0 || i.code == 0x87
  }

  /** Some control path from `pc` reads the accumulator before loading it. */
  predicate MayReadStaleAccumulator(prog: seq<SockFilter>, pc: nat)
    decreases |prog| - pc
  {
    pc < |prog| &&
    (ReadsAccumulator(prog[pc]) ||
     (!OverwritesAccumulator(prog[pc]) &&
      MayReadStaleAccumulator(prog, pc + 1 + if prog[pc].code == 5 then prog[pc].k else 0)))
  }

  lemma {:induction false} InitialAccumulatorIrrelevant(prog: seq<SockFilter>, pc: nat, r: Regs, a: u32, d: SeccompData)
    requires !MayReadStaleAccumulator(prog, pc)
    ensures Run(prog, pc, r.(a := a), d) == Run(prog, pc, r, d)
    decreases |prog| - pc
  {
    if pc < |prog| {
      var i := prog[pc];
      if !OverwritesAccumulator(i) {
        match Exec(i, r, d)
        case Next(r', skip) =>
          assert Exec(i, r.(a := a), d) == Next(r'.(a := a), skip);
          InitialAccumulatorIrrelevant(prog, pc + 1 + skip, r', a, d);
        case Return(_) =>
        case Rejected =>
      }
    }
  }

  // ----- The filter builder

  function BpfStmt(code: u16, k: u32): SockFilter {
    SockFilter(code, 0, 0, k)
  }

  function BpfJump(code: u16, k: u32, jt: byte, jf: byte): SockFilter {
    SockFilter(code, jt, jf, k)
  }

  const INSTRUCTION_POINTER_OFFSET: u32 := 8

  /** The program `allow_syscalls_from_callsite` appends for each of `ips`. */
  function AllowList(ips: seq<u32>): seq<SockFilter> {
    if ips == [] then []
    else AllowList(ips[..|ips| - 1]) +
         [BpfStmt(0x20, INSTRUCTION_POINTER_OFFSET), BpfJump(0x15, ips[|ips| - 1], 0, 1),
           BpfStmt(0x06, SECCOMP_RET_ALLOW)]
  }

  function LowIp(d: SeccompData): u32 {
    d.instructionPointer % TWO_32
  }

  /** The accumulator left by a fall-through of the allow list. */
  function AfterAllowList(ips: seq<u32>, r: Regs, d: SeccompData): Regs {
    if ips == [] then r else r.(a := LowIp(d))
  }

  /** A listed call site is allowed at once; any other falls through with only the accumulator changed. */
  lemma {:induction false} AllowListMeaning(ips: seq<u32>, rest: seq<SockFilter>, r: Regs, d: SeccompData)
    ensures LowIp(d) in ips ==> Run(AllowList(ips) + rest, 0, r, d) == Some(SECCOMP_RET_ALLOW)
    ensures LowIp(d) !in ips ==> Run(AllowList(ips) + rest, 0, r, d) == Run(rest, 0, AfterAllowList(ips, r, d), d)
  {
    if ips == [] {
      assert AllowList(ips) + rest == rest;
    } else {
      var n := |ips| - 1;
      var init, ip := ips[..n], ips[n];
      var check := [BpfStmt(0x20, INSTRUCTION_POINTER_OFFSET), BpfJump(0x15, ip, 0, 1),
        BpfStmt(0x06, SECCOMP_RET_ALLOW)];
      assert AllowList(ips) + rest == AllowList(init) + (check + rest);
      AllowListMeaning(init, check + rest, r, d);
      assert ips == init + [ip];
      CallsiteCheck(ip, rest, AfterAllowList(init, r, d), d);
    }
  }

  lemma CallsiteCheck(ip: u32, rest: seq<SockFilter>, r: Regs, d: SeccompData)
    ensures
      var check := [BpfStmt(0x20, INSTRUCTION_POINTER_OFFSET), BpfJump(0x15, ip, 0, 1),
        BpfStmt(0x06, SECCOMP_RET_ALLOW)];
      Run(check + rest, 0, r, d) ==
      if LowIp(d) == ip then Some(SECCOMP_RET_ALLOW) else Run(rest, 0, r.(a := LowIp(d)), d)
  {
    var check := [BpfStmt(0x20, INSTRUCTION_POINTER_OFFSET), BpfJump(0x15, ip, 0, 1), BpfStmt(0x06, SECCOMP_RET_ALLOW)];
    var r1 := r.(a := LowIp(d));
    assert Exec(check[0], r, d) == Next(r1, 0);
    assert Exec(check[1], r1, d) == Next(r1, if LowIp(d) == ip then 0 else 1);
    assert Exec(check[2], r1, d) == Return(SECCOMP_RET_ALLOW);
    var prog := check + rest;
    assert prog[0] == check[0] && prog[1] == check[1] && prog[2] == check[2];
    assert Run(prog, 0, r, d) == Run(prog, 1, r1, d);
    if LowIp(d) == ip {
      assert Run(prog, 1, r1, d) == Run(prog, 2, r1, d);
    } else {
      assert Run(prog, 1, r1, d) == Run(prog, 3, r1, d);
      RunAfterPrefix(check, rest, 0, r1, d);
    }
  }

  class SeccompFilter {
    var filters: seq<SockFilter>

    constructor ()
      ensures filters == []
    {
      filters := [];
    }

    method Allow()
      modifies this
      ensures filters == old(filters) + [BpfStmt(0x06, SECCOMP_RET_ALLOW)]
    {
      filters := filters + [BpfStmt(0x06, SECCOMP_RET_ALLOW)];
    }

    /** The source unwraps the conversion of `ip` to 32 bits, so it demands an address that fits. */
    method AllowSyscallsFromCallsite(ip: u64, ghost ips: seq<u32>)
      requires ip < TWO_32
      requires filters == AllowList(ips)
      modifies this
      ensures filters == AllowList(ips + [ip])
    {
      assert (ips + [ip])[..|ips|] == ips;
      filters := filters + [BpfStmt(0x20, INSTRUCTION_POINTER_OFFSET)];
      filters := filters + [BpfJump(0x15, ip, 0, 1)];
      Allow();
    }
  }
}
