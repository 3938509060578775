/** The instructions that the stubs are made of, as bytes and as steps of a processor. */
module StubMachine {
  import opened Words
  import opened TraceeMemory

  function WordSize(arch: Arch): nat {
    if arch.X86? then 4 else 8
  }

  /** Memory operands are absolute addresses. */
  datatype Insn =
    | SaveSp(a: u32)                       // mov %sp,(a)
    | Increment(a: u32)                    // incl (a)
    | CompareOne(a: u32)                   // cmpl $1,(a)
    | JumpIfNot(rel8: byte)                // jne
    | LoadSp(a: u32)                       // mov (a),%sp
    | JumpShort(rel8: byte)                // jmp rel8
    | LowerSp(n: u32)                      // sub $n,%rsp
    | PushAt(a: u32)                       // push (a)
    | PushAx                               // push %rax
    | PushImm(v: u32)                      // push $v
    | StoreLow(v: u32)                     // movl $v,(%rsp)
    | StoreHigh(v: u32)                    // movl $v,4(%rsp)
    | JumpNear(rel32: u32)                 // jmp rel32
    | JumpThrough(target: u64)             // jmp *0(%rip), and the address behind it

  function Bytes(arch: Arch, i: Insn): seq<byte> {
    match i
    case SaveSp(a) => (if arch.X86? then [0x89, 0x25] else [0x48, 0x89, 0x24, 0x25]) + ToLittleEndian(a, 4)
    case Increment(a) => (if arch.X86? then [0xFF, 0x05] else [0xFF, 0x04, 0x25]) + ToLittleEndian(a, 4)
    case CompareOne(a) => [0x83, 0x3c, 0x25] + ToLittleEndian(a, 4) + [0x01]
    case JumpIfNot(rel8) => [0x75, rel8]
    case LoadSp(a) => (if arch.X86? then [0x8b, 0x25] else [0x48, 0x8b, 0x24, 0x25]) + ToLittleEndian(a, 4)
    case JumpShort(rel8) => [0xeb, rel8]
    case LowerSp(n) => [0x48, 0x81, 0xec] + ToLittleEndian(n, 4)
    case PushAt(a) => (if arch.X86? then [0xff, 0x35] else [0xff, 0x34, 0x25]) + ToLittleEndian(a, 4)
    case PushAx => [0x50]
    case PushImm(v) => [0x68] + ToLittleEndian(v, 4)
    case StoreLow(v) => [0xc7, 0x04, 0x24] + ToLittleEndian(v, 4)
    case StoreHigh(v) => [0xc7, 0x44, 0x24, 0x04] + ToLittleEndian(v, 4)
    case JumpNear(rel32) => [0xe9] + ToLittleEndian(rel32, 4)
    case JumpThrough(target) => [0xff, 0x25, 0x00, 0x00, 0x00, 0x00] + ToLittleEndian(target, 8)
  }

  // ----- Numbers in memory

  function Load(mem: Memory, a: int, n: nat): (v: nat)
    ensures v < Pow256(n)
  {
    FromLittleEndian(Read(mem, a, n))
  }

  function Store(mem: Memory, a: int, n: nat, v: nat): Memory {
    Write(mem, a, ToLittleEndian(v, n))
  }

  lemma Pow256Values()
    ensures Pow256(4) == TWO_32 && Pow256(8) == TWO_64
  {
    assert Pow256(4) == 256 * Pow256(3) && Pow256(3) == 256 * Pow256(2) && Pow256(2) == 256 * Pow256(1);
    assert Pow256(8) == 256 * Pow256(7) && Pow256(7) == 256 * Pow256(6) && Pow256(6) == 256 * Pow256(5);
  }

  lemma LoadOf(mem: Memory, a: int, n: nat, v: nat)
    requires HasBytes(mem, a, ToLittleEndian(v, n)) && v < Pow256(n)
    ensures Load(mem, a, n) == v
  {
    var s := ToLittleEndian(v, n);
    assert forall i :: 0 <= i < n ==> HasByte(mem, a + i, s[i]);
    assert Read(mem, a, n) == s;
    LittleEndianDecodes(v, n);
  }

  lemma LoadStored(mem: Memory, a: int, n: nat, v: nat)
    requires v < Pow256(n)
    ensures Load(Store(mem, a, n, v), a, n) == v
  {
    WriteChangesRange(mem, a, ToLittleEndian(v, n));
    LoadOf(Store(mem, a, n, v), a, n, v);
  }

  lemma LoadElsewhere(mem: Memory, a: int, n: nat, v: nat, b: int, k: nat)
    requires Apart(a, n, b, k)
    ensures Load(Store(mem, a, n, v), b, k) == Load(mem, b, k)
  {
    WriteAt(mem, a, ToLittleEndian(v, n));
    assert Read(Store(mem, a, n, v), b, k) == Read(mem, b, k);
  }

  lemma StoreFrame(mem: Memory, a: int, n: nat, v: nat, k: int)
    requires k in mem && !(a <= k < a + n)
    ensures k in Store(mem, a, n, v) && Store(mem, a, n, v)[k] == mem[k]
  {
    WriteAt(mem, a, ToLittleEndian(v, n));
  }

  lemma {:induction false} FromConcat(x: seq<byte>, y: seq<byte>)
    ensures FromLittleEndian(x + y) == FromLittleEndian(x) + Pow256(|x|) * FromLittleEndian(y)
  {
    if x == [] {
      assert x + y == y;
    } else {
      FromConcat(x[1..], y);
      assert (x + y)[1..] == x[1..] + y;
      MulAssociates(Pow256(|x| - 1), FromLittleEndian(y));
    }
  }

  lemma MulAssociates(p: nat, v: nat)
    ensures 256 * (p * v) == (256 * p) * v
  {
  }

  lemma LoadHalves(mem: Memory, a: int)
    ensures Load(mem, a, 8) == Load(mem, a, 4) + Pow256(4) * Load(mem, a + 4, 4)
  {
    assert Read(mem, a, 8) == Read(mem, a, 4) + Read(mem, a + 4, 4);
    FromConcat(Read(mem, a, 4), Read(mem, a + 4, 4));
  }

  // ----- Steps

  datatype Machine = Machine(ip: int, sp: nat, ax: u64, zf: bool, mem: Memory)

  function SignExtend8(v: byte): int {
    if v < 0x80 then v else v - 0x100
  }

  function SignExtend32(v: nat): int {
    if v < 0x8000_0000 then v else v - TWO_32
  }

  function NextIp(arch: Arch, m: Machine, i: Insn): int {
    var ip := m.ip + |Bytes(arch, i)|;
    match i
    case JumpIfNot(rel8) => if m.zf then ip else ip + SignExtend8(rel8)
    case JumpShort(rel8) => ip + SignExtend8(rel8)
    case JumpNear(rel32) => (ip + SignExtend32(rel32)) % Width(arch)
    case JumpThrough(target) => target
    case _ => ip
  }

  function NextSp(arch: Arch, m: Machine, i: Insn): nat {
    match i
    case LoadSp(a) => Load(m.mem, a, WordSize(arch))
    case LowerSp(n) => (m.sp - n) % Width(arch)
    case PushAt(_) => (m.sp - WordSize(arch)) % Width(arch)
    case PushAx => (m.sp - WordSize(arch)) % Width(arch)
    case PushImm(_) => (m.sp - WordSize(arch)) % Width(arch)
    case _ => m.sp
  }

  function NextZf(arch: Arch, m: Machine, i: Insn): bool {
    match i
    case Increment(a) => (Load(m.mem, a, 4) + 1) % TWO_32 == 0
    case CompareOne(a) => Load(m.mem, a, 4) == 1
    case LowerSp(n) => (m.sp - n) % Width(arch) == 0
    case _ => m.zf
  }

  datatype Change = Change(addr: int, size: nat, value: nat)

  /** What an instruction writes; nothing if the size is zero. */
  function Written(arch: Arch, m: Machine, i: Insn): Change {
    match i
    case SaveSp(a) => Change(a, WordSize(arch), m.sp)
    case Increment(a) => Change(a, 4, (Load(m.mem, a, 4) + 1) % TWO_32)
    case PushAt(a) => Change(NextSp(arch, m, i), WordSize(arch), Load(m.mem, a, WordSize(arch)))
    case PushAx => Change(NextSp(arch, m, i), WordSize(arch), m.ax)
    case PushImm(v) => Change(NextSp(arch, m, i), WordSize(arch), v)
    case StoreLow(v) => Change(m.sp, 4, v)
    case StoreHigh(v) => Change(m.sp + 4, 4, v)
    case _ => Change(0, 0, 0)
  }

  function Effect(arch: Arch, m: Machine, i: Insn): Machine {
    var w := Written(arch, m, i);
    Machine(NextIp(arch, m, i), NextSp(arch, m, i), m.ax, NextZf(arch, m, i),
            if w.size == 0 then m.mem else Store(m.mem, w.addr, w.size, w.value))
  }

  lemma PushAtEffect(arch: Arch, m: Machine, a: u32, v: nat)
    requires WordSize(arch) <= m.sp < Width(arch) && v == Load(m.mem, a, WordSize(arch))
    ensures Effect(arch, m, PushAt(a)) ==
            Machine(m.ip + (if arch.X86? then 6 else 7), m.sp - WordSize(arch), m.ax, m.zf,
                    Store(m.mem, m.sp - WordSize(arch), WordSize(arch), v))
  {
    assert (m.sp - WordSize(arch)) % Width(arch) == m.sp - WordSize(arch);
  }

  ghost predicate InsnAt(arch: Arch, mem: Memory, a: int, i: Insn) {
    HasBytes(mem, a, Bytes(arch, i))
  }

  /** One step of the processor, by the instruction at the instruction pointer. */
  ghost predicate Executes(arch: Arch, m: Machine, i: Insn, m': Machine) {
    InsnAt(arch, m.mem, m.ip, i) && m' == Effect(arch, m, i)
  }

  type Step = (Machine, Insn, Machine) -> bool

  ghost function Processor(arch: Arch): Step {
    (m, i, m') => Executes(arch, m, i, m')
  }

  /** `n` steps from `m` to `m'`. */
  ghost predicate Run(step: Step, m: Machine, n: nat, m': Machine) {
    if n == 0 then m' == m else exists s, i :: Run(step, m, n - 1, s) && step(s, i, m')
  }

  lemma OneMore(step: Step, m: Machine, n: nat, s: Machine, i: Insn, s': Machine)
    requires Run(step, m, n, s) && step(s, i, s')
    ensures Run(step, m, n + 1, s')
  {
  }

  lemma {:induction false} OneBefore(step: Step, m: Machine, i: Insn, m1: Machine, n: nat, m': Machine)
    requires step(m, i, m1) && Run(step, m1, n, m')
    ensures Run(step, m, n + 1, m')
    decreases n
  {
    if n == 0 {
      assert Run(step, m, 0, m);
    } else {
      var s, j :| Run(step, m1, n - 1, s) && step(s, j, m');
      OneBefore(step, m, i, m1, n - 1, s);
    }
  }

  /** Steps that keep an invariant, and are steps of the other kind under it. */
  lemma {:induction false} RunRefines(step: Step, step': Step,
                                      inv: Machine -> bool, m: Machine, n: nat, m': Machine)
    requires Run(step, m, n, m') && inv(m)
    requires forall s, i, s' :: step(s, i, s') && inv(s) ==> step'(s, i, s') && inv(s')
    ensures Run(step', m, n, m') && inv(m')
    decreases n
  {
    if n > 0 {
      var s, i :| Run(step, m, n - 1, s) && step(s, i, m');
      RunRefines(step, step', inv, m, n - 1, s);
    }
  }

  // ----- The processor has no choice

  /** The instruction forms, told apart by their first two bytes. */
  function Form(b0: byte, b1: byte): nat {
    if b0 == 0x89 || (b0 == 0x48 && b1 == 0x89) then 0
    else if b0 == 0xFF && (b1 == 0x05 || b1 == 0x04) then 1
    else if b0 == 0x83 then 2
    else if b0 == 0x75 then 3
    else if b0 == 0x8b || (b0 == 0x48 && b1 == 0x8b) then 4
    else if b0 == 0xeb then 5
    else if b0 == 0x48 then 6
    else if b0 == 0xFF && (b1 == 0x35 || b1 == 0x34) then 7
    else if b0 == 0x50 then 8
    else if b0 == 0x68 then 9
    else if b0 == 0xc7 && b1 == 0x04 then 10
    else if b0 == 0xc7 then 11
    else if b0 == 0xe9 then 12
    else 13
  }

  function FormOf(i: Insn): nat {
    match i
    case SaveSp(_) => 0
    case Increment(_) => 1
    case CompareOne(_) => 2
    case JumpIfNot(_) => 3
    case LoadSp(_) => 4
    case JumpShort(_) => 5
    case LowerSp(_) => 6
    case PushAt(_) => 7
    case PushAx => 8
    case PushImm(_) => 9
    case StoreLow(_) => 10
    case StoreHigh(_) => 11
    case JumpNear(_) => 12
    case JumpThrough(_) => 13
  }

  function ByteAt(mem: Memory, a: int): byte {
    if a in mem then mem[a] else 0
  }

  lemma FormRead(arch: Arch, i: Insn, b1: byte)
    ensures var s := Bytes(arch, i); |s| > 0 && Form(s[0], if |s| > 1 then s[1] else b1) == FormOf(i)
  {
  }

  lemma FormAt(arch: Arch, mem: Memory, a: int, i: Insn)
    requires InsnAt(arch, mem, a, i)
    ensures Form(ByteAt(mem, a), ByteAt(mem, a + 1)) == FormOf(i)
  {
    var s := Bytes(arch, i);
    FormRead(arch, i, ByteAt(mem, a + 1));
    assert HasByte(mem, a + 0, s[0]);
    assert |s| > 1 ==> HasByte(mem, a + 1, s[1]);
  }

  lemma SameBytesAt(mem: Memory, a: int, s: seq<byte>, t: seq<byte>)
    requires HasBytes(mem, a, s) && HasBytes(mem, a, t) && |s| == |t|
    ensures s == t
  {
    forall k | 0 <= k < |s|
      ensures s[k] == t[k]
    {
      assert HasByte(mem, a + k, s[k]) && HasByte(mem, a + k, t[k]);
    }
  }

  function OperandOf(i: Insn): nat {
    match i
    case JumpIfNot(rel8) => rel8
    case JumpShort(rel8) => rel8
    case LowerSp(n) => n
    case PushAx => 0
    case PushImm(v) => v
    case StoreLow(v) => v
    case StoreHigh(v) => v
    case JumpNear(rel32) => rel32
    case JumpThrough(target) => target
    case _ => i.a
  }

  function OperandSize(i: Insn): nat {
    if i.PushAx? then 0 else if i.JumpIfNot? || i.JumpShort? then 1 else if i.JumpThrough? then 8 else 4
  }

  lemma OperandFits(i: Insn)
    ensures OperandOf(i) < Pow256(OperandSize(i))
  {
    Pow256Values();
    assert Pow256(1) == 256;
  }

  /** What stands behind the operand: a comparison ends with the number it compares to. */
  function Rest(i: Insn): seq<byte> {
    if i.CompareOne? then [0x01] else []
  }

  function OpcodeSize(arch: Arch, i: Insn): nat {
    |Bytes(arch, i)| - OperandSize(i) - |Rest(i)|
  }

  lemma OneByte(b: byte)
    ensures ToLittleEndian(b, 1) == [b]
  {
    assert ToLittleEndian(b, 1) == [b % 256] + ToLittleEndian(b / 256, 0);
  }

  lemma OperandPlace(arch: Arch, i: Insn)
    ensures Bytes(arch, i) ==
            Bytes(arch, i)[..OpcodeSize(arch, i)] + ToLittleEndian(OperandOf(i), OperandSize(i)) + Rest(i)
  {
    if i.JumpIfNot? || i.JumpShort? {
      OneByte(i.rel8);
    }
  }

  lemma SameOperand(s: seq<byte>, p: seq<byte>, q: seq<byte>, v: nat, w: nat, n: nat, rest: seq<byte>)
    requires s == p + ToLittleEndian(v, n) + rest == q + ToLittleEndian(w, n) + rest && |p| == |q|
    requires v < Pow256(n) && w < Pow256(n)
    ensures v == w
  {
    assert s[|p|..|p| + n] == ToLittleEndian(v, n) == ToLittleEndian(w, n);
    LittleEndianDecodes(v, n);
    LittleEndianDecodes(w, n);
  }

  lemma SameFormSameShape(arch: Arch, i: Insn, j: Insn)
    requires FormOf(i) == FormOf(j)
    ensures |Bytes(arch, i)| == |Bytes(arch, j)| && OperandSize(i) == OperandSize(j) && Rest(i) == Rest(j)
    ensures OperandOf(i) == OperandOf(j) ==> i == j
  {
  }

  /** The bytes at an address are those of one instruction only. */
  lemma InsnUnique(arch: Arch, mem: Memory, a: int, i: Insn, j: Insn)
    requires InsnAt(arch, mem, a, i) && InsnAt(arch, mem, a, j)
    ensures i == j
  {
    var s, t := Bytes(arch, i), Bytes(arch, j);
    FormAt(arch, mem, a, i);
    FormAt(arch, mem, a, j);
    SameFormSameShape(arch, i, j);
    SameBytesAt(mem, a, s, t);
    OperandPlace(arch, i);
    OperandPlace(arch, j);
    OperandFits(i);
    OperandFits(j);
    SameOperand(s, s[..OpcodeSize(arch, i)], t[..OpcodeSize(arch, j)], OperandOf(i), OperandOf(j), OperandSize(i),
                Rest(i));
  }

  ghost predicate Deterministic(step: Step) {
    forall s, i, s', j, s'' :: step(s, i, s') && step(s, j, s'') ==> s' == s''
  }

  lemma ProcessorIsDeterministic(arch: Arch)
    ensures Deterministic(Processor(arch))
  {
    forall s, i, s', j, s'' | Executes(arch, s, i, s') && Executes(arch, s, j, s'')
      ensures s' == s''
    {
      InsnUnique(arch, s.mem, s.ip, i, j);
    }
  }

  lemma {:induction false} RunUnique(step: Step, m: Machine, n: nat, m1: Machine, m2: Machine)
    requires Deterministic(step) && Run(step, m, n, m1) && Run(step, m, n, m2)
    ensures m1 == m2
    decreases n
  {
    if n > 0 {
      var s, i :| Run(step, m, n - 1, s) && step(s, i, m1);
      var t, j :| Run(step, m, n - 1, t) && step(t, j, m2);
      RunUnique(step, m, n - 1, s, t);
    }
  }

  /** `n` steps lead from `m` to `m'`, and nowhere else. */
  ghost predicate Leads(step: Step, m: Machine, n: nat, m': Machine) {
    Run(step, m, n, m') && forall m1 :: Run(step, m, n, m1) ==> m1 == m'
  }

  lemma RunLeads(step: Step, m: Machine, n: nat, m': Machine)
    requires Deterministic(step) && Run(step, m, n, m')
    ensures Leads(step, m, n, m')
  {
    forall m1 | Run(step, m, n, m1)
      ensures m1 == m'
    {
      RunUnique(step, m, n, m1, m');
    }
  }

  /** Some number of steps leads to such a machine, and nowhere else. */
  ghost predicate Arrives(step: Step, m: Machine, at: Machine -> bool) {
    exists n: nat, m' :: Leads(step, m, n, m') && at(m')
  }

  lemma RunArrives(step: Step, m: Machine, n: nat, m': Machine, at: Machine -> bool)
    requires Deterministic(step) && Run(step, m, n, m') && at(m')
    ensures Arrives(step, m, at)
  {
    RunLeads(step, m, n, m');
  }

  lemma ArrivesFromBefore(step: Step, m: Machine, i: Insn, m1: Machine, at1: Machine -> bool, at: Machine -> bool)
    requires Deterministic(step) && step(m, i, m1) && Arrives(step, m1, at1) && forall x :: at1(x) ==> at(x)
    ensures Arrives(step, m, at)
  {
    var n: nat, m' :| Leads(step, m1, n, m') && at1(m');
    OneBefore(step, m, i, m1, n, m');
    RunArrives(step, m, n + 1, m', at);
  }

  lemma EffectElsewhere(arch: Arch, m: Machine, i: Insn, b: int, t: seq<byte>)
    requires HasBytes(m.mem, b, t) && Apart(Written(arch, m, i).addr, Written(arch, m, i).size, b, |t|)
    ensures HasBytes(Effect(arch, m, i).mem, b, t)
  {
    var w := Written(arch, m, i);
    WriteElsewhere(m.mem, w.addr, ToLittleEndian(w.value, w.size), b, t);
  }
}
