/** The GDB agent-expression bytecode machine (`gdb_expression.rs`). */
module GdbExpression {
  import opened Words
  import opened Int64

  const OP_ADD: byte := 0x02
  const OP_SUB: byte := 0x03
  const OP_MUL: byte := 0x04
  const OP_DIV_SIGNED: byte := 0x05
  const OP_DIV_UNSIGNED: byte := 0x06
  const OP_REM_SIGNED: byte := 0x07
  const OP_REM_UNSIGNED: byte := 0x08
  const OP_LSH: byte := 0x09
  const OP_RSH_SIGNED: byte := 0x0a
  const OP_RSH_UNSIGNED: byte := 0x0b
  const OP_LOG_NOT: byte := 0x0e
  const OP_BIT_AND: byte := 0x0f
  const OP_BIT_OR: byte := 0x10
  const OP_BIT_XOR: byte := 0x11
  const OP_BIT_NOT: byte := 0x12
  const OP_EQUAL: byte := 0x13
  const OP_LESS_SIGNED: byte := 0x14
  const OP_LESS_UNSIGNED: byte := 0x15
  const OP_EXT: byte := 0x16
  const OP_REF8: byte := 0x17
  const OP_REF64: byte := 0x1a
  const OP_IF_GOTO: byte := 0x20
  const OP_GOTO: byte := 0x21
  const OP_CONST8: byte := 0x22
  const OP_CONST64: byte := 0x25
  const OP_REG: byte := 0x26
  const OP_END: byte := 0x27
  const OP_DUP: byte := 0x28
  const OP_POP: byte := 0x29
  const OP_ZERO_EXT: byte := 0x2a
  const OP_SWAP: byte := 0x2b
  const OP_PICK: byte := 0x32
  const OP_ROT: byte := 0x33

  const STEP_BUDGET: nat := 10000

  /** The tracee as expressions see it: readable memory, and the registers gdb can name. */
  datatype Env = Env(mem: map<int, byte>, regs: map<u16, RegisterValue>)

  datatype RegisterValue = RegisterValue(defined: bool, size: nat, value: u64)

  datatype Verdict =
    | Value(v: i64)
    | Failure
    | Panicked   // the remainder overflow that Rust turns into a panic

  // ----- Meaning of the operators

  predicate IsBinary(op: byte) {
    OP_ADD <= op <= OP_RSH_UNSIGNED || OP_BIT_AND <= op <= OP_BIT_XOR || OP_EQUAL <= op <= OP_LESS_UNSIGNED
  }

  function Truth(b: bool): i64 {
    if b then 1 else 0
  }

  predicate Divides(op: byte) {
    OP_DIV_SIGNED <= op <= OP_REM_UNSIGNED
  }

  function Binary(op: byte, a: i64, b: i64): Verdict
    requires IsBinary(op)
  {
    if Divides(op) && b == 0 then Failure
    else if op == OP_REM_SIGNED && a == MIN && b == -1 then Panicked
    else Value(BinaryValue(op, a, b))
  }

  function BinaryValue(op: byte, a: i64, b: i64): i64
    requires IsBinary(op) && (Divides(op) ==> b != 0) && !(op == OP_REM_SIGNED && a == MIN && b == -1)
  {
    if op == OP_ADD then Signed(a + b)
    else if op == OP_SUB then Signed(a - b)
    else if op == OP_MUL then Signed(a * b)
    else if op == OP_DIV_SIGNED then DivSigned(a, b)
    else if op == OP_DIV_UNSIGNED then Signed(Unsigned(a) / Unsigned(b))
    else if op == OP_REM_SIGNED then RemSigned(a, b)
    else if op == OP_REM_UNSIGNED then Signed(Unsigned(a) % Unsigned(b))
    else if op == OP_LSH then ShiftLeft(a, ShiftCount(b))
    else if op == OP_RSH_SIGNED then ShiftRightSigned(a, ShiftCount(b))
    else if op == OP_RSH_UNSIGNED then ShiftRightUnsigned(a, ShiftCount(b))
    else if op == OP_BIT_AND then Bits(And, a, b)
    else if op == OP_BIT_OR then Bits(Or, a, b)
    else if op == OP_BIT_XOR then Bits(Xor, a, b)
    else if op == OP_EQUAL then Truth(a == b)
    else if op == OP_LESS_SIGNED then Truth(a < b)
    else Truth(Unsigned(a) < Unsigned(b))
  }

  /** The `n` little-endian bytes at `addr`, if all of them can be read. */
  function Load(mem: map<int, byte>, addr: int, n: nat): Option<nat>
    decreases n
  {
    if n == 0 then Some(0)
    else if addr !in mem then None
    else
      var rest := Load(mem, addr + 1, n - 1);
      if rest.None? then None else Some(mem[addr] + 256 * rest.value)
  }

  /** The low bytes of a register, as many as it has. */
  function RegisterNumber(env: Env, r: u16): Option<i64> {
    if r in env.regs && env.regs[r].defined && env.regs[r].size in {1, 2, 4, 8}
    then Some(Signed(env.regs[r].value % Pow256(env.regs[r].size)))
    else None
  }

  // ----- What a step means, without error flags or sentinel values

  datatype Config = Config(stack: seq<i64>, pc: nat)

  datatype Effect = Next(c: Config) | Halt | Fail | Panic

  function Top(stack: seq<i64>, i: nat): i64
    requires i < |stack|
  {
    stack[|stack| - 1 - i]
  }

  /** Replaces the top `n` values by `vs`. */
  function Replace(stack: seq<i64>, n: nat, vs: seq<i64>): seq<i64>
    requires n <= |stack|
  {
    stack[..|stack| - n] + vs
  }

  /** The big-endian operand of `n` bytes after the opcode. */
  function Operand(code: seq<byte>, pc: nat, n: nat): Option<nat> {
    if pc + 1 + n <= |code| then Some(FromBigEndian(code[pc + 1..pc + 1 + n])) else None
  }

  function OperandWidth(op: byte): nat {
    match op - OP_CONST8
    case 0 => 1
    case 1 => 2
    case 2 => 4
    case _ => 8
  }

  function RefWidth(op: byte): nat {
    match op - OP_REF8
    case 0 => 1
    case 1 => 2
    case 2 => 4
    case _ => 8
  }

  function BinaryStep(op: byte, c: Config): Effect
    requires IsBinary(op)
  {
    if |c.stack| < 2 then Fail
    else
      match Binary(op, Top(c.stack, 1), Top(c.stack, 0))
      case Value(v) => Next(Config(Replace(c.stack, 2, [v]), c.pc + 1))
      case Failure => Fail
      case Panicked => Panic
  }

  /** OP_ext and OP_zero_ext; a width of 64 bits or more changes nothing. */
  function ExtensionStep(code: seq<byte>, op: byte, c: Config): Effect {
    var n := Operand(code, c.pc, 1);
    if n.None? || (op == OP_EXT && n.value == 0) then Fail
    else if n.value >= 64 then Next(Config(c.stack, c.pc + 2))
    else if c.stack == [] then Fail
    else
      var a := Top(c.stack, 0);
      Next(Config(Replace(c.stack, 1, [if op == OP_EXT then SignExtend(a, n.value) else LowBits(a, n.value)]),
        c.pc + 2))
  }

  function StackStep(code: seq<byte>, op: byte, c: Config): Effect {
    var s, pc := c.stack, c.pc + 1;
    if op == OP_SWAP then
      if |s| < 2 then Fail else Next(Config(Replace(s, 2, [Top(s, 0), Top(s, 1)]), pc))
    else if op == OP_ROT then
      if |s| < 3 then Fail else Next(Config(Replace(s, 3, [Top(s, 0), Top(s, 1), Top(s, 2)]), pc))
    else if op == OP_PICK then
      var n := Operand(code, c.pc, 1);
      if n.None? || n.value >= |s| then Fail else Next(Config(s + [Top(s, n.value)], pc + 1))
    else if s == [] then Fail
    else if op == OP_DUP then Next(Config(s + [Top(s, 0)], pc))
    else if op == OP_POP then Next(Config(Replace(s, 1, []), pc))
    else Fail
  }

  function UnaryStep(env: Env, op: byte, c: Config): Effect {
    var s, pc := c.stack, c.pc + 1;
    if s == [] then Fail
    else if op == OP_LOG_NOT then Next(Config(Replace(s, 1, [Truth(Top(s, 0) == 0)]), pc))
    else if op == OP_BIT_NOT then Next(Config(Replace(s, 1, [BitNot(Top(s, 0))]), pc))
    else if OP_REF8 <= op <= OP_REF64 then
      var v := Load(env.mem, Unsigned(Top(s, 0)), RefWidth(op));
      if v.None? then Fail else Next(Config(Replace(s, 1, [Signed(v.value)]), pc))
    else Fail
  }

  function ControlStep(code: seq<byte>, env: Env, op: byte, c: Config): Effect {
    if OP_CONST8 <= op <= OP_CONST64 then
      var v := Operand(code, c.pc, OperandWidth(op));
      if v.None? then Fail else Next(Config(c.stack + [Signed(v.value)], c.pc + 1 + OperandWidth(op)))
    else
      var n := Operand(code, c.pc, 2);
      if n.None? then Fail
      else if op == OP_GOTO then Next(Config(c.stack, n.value))
      else if op == OP_IF_GOTO then
        if c.stack == [] then Fail
        else Next(Config(Replace(c.stack, 1, []), if Top(c.stack, 0) != 0 then n.value else c.pc + 3))
      else
        var v := if n.value < 0x1_0000 then RegisterNumber(env, n.value) else None;
        if op != OP_REG || v.None? then Fail else Next(Config(c.stack + [v.value], c.pc + 3))
  }

  function StepOf(code: seq<byte>, env: Env, c: Config): Effect {
    if c.pc >= |code| then Fail
    else
      var op := code[c.pc];
      if op == OP_END then Halt
      else if IsBinary(op) then BinaryStep(op, c)
      else if op == OP_EXT || op == OP_ZERO_EXT then ExtensionStep(code, op, c)
      else if OP_IF_GOTO <= op <= OP_REG then ControlStep(code, env, op, c)
      else if op < OP_IF_GOTO then UnaryStep(env, op, c)
      else StackStep(code, op, c)
  }

  // ----- Runs

  /** A run of any step function, within a budget. */
  function RunWith(step: Config -> Effect, c: Config, budget: nat): Verdict
    decreases budget, c
  {
    if budget == 0 then Failure
    else
      match step(c)
      case Next(c') => RunWith(step, c', budget - 1)
      case Halt => if c.stack == [] then Failure else Value(Top(c.stack, 0))
      case Fail => Failure
      case Panic => Panicked
  }

  function StepsOf(code: seq<byte>, env: Env): Config -> Effect {
    c => StepOf(code, env, c)
  }

  function RunFor(code: seq<byte>, env: Env, c: Config, budget: nat): Verdict {
    RunWith(StepsOf(code, env), c, budget)
  }

  const START := Config([], 0)

  /** The configuration after `n` steps, if none of them ends or fails. */
  function After(step: Config -> Effect, c: Config, n: nat): Option<Config>
    decreases n, c
  {
    if n == 0 then Some(c)
    else
      match step(c)
      case Next(c') => After(step, c', n - 1)
      case _ => None
  }

  /** After `n` faultless steps the machine stands at OP_end with `v` on top of the stack. */
  predicate EndsWith(step: Config -> Effect, c: Config, n: nat, v: i64) {
    var last := After(step, c, n);
    last.Some? && step(last.value).Halt? && last.value.stack != [] && Top(last.value.stack, 0) == v
  }

  /** A run succeeds with `v` exactly when within the budget it ends faultlessly with `v` on top. */
  lemma {:induction false} RunSucceedsIff(step: Config -> Effect, c: Config, budget: nat, v: i64)
    ensures RunWith(step, c, budget) == Value(v) <==> exists n: nat :: n < budget && EndsWith(step, c, n, v)
    decreases budget
  {
    if budget > 0 {
      match step(c)
      case Next(c') =>
        RunSucceedsIff(step, c', budget - 1, v);
        if RunWith(step, c, budget) == Value(v) {
          var n: nat :| n < budget - 1 && EndsWith(step, c', n, v);
          assert EndsWith(step, c, n + 1, v);
        }
        if n: nat :| n < budget && EndsWith(step, c, n, v) {
          assert n > 0;
          assert EndsWith(step, c', n - 1, v);
        }
      case Halt =>
        if RunWith(step, c, budget) == Value(v) {
          assert EndsWith(step, c, 0, v);
        }
      case _ =>
    }
  }

  /** A larger budget never changes a success. */
  lemma {:induction false} BudgetMonotone(step: Config -> Effect, c: Config, budget: nat, more: nat)
    requires budget <= more && RunWith(step, c, budget).Value?
    ensures RunWith(step, c, more) == RunWith(step, c, budget)
    decreases budget
  {
    if step(c).Next? {
      BudgetMonotone(step, step(c).c, budget - 1, more - 1);
    }
  }

  // ----- The machine with its error flag

  class ExpressionState {
    const bytecode: seq<byte>
    var stack: seq<i64>
    var pc: nat
    var error: bool
    var end: bool
    var panicked: bool

    constructor (bytecode: seq<byte>)
      ensures this.bytecode == bytecode && Here() == START && !error && !end && !panicked
    {
      this.bytecode := bytecode;
      stack, pc, error, end, panicked := [], 0, false, false, false;
    }

    ghost function Here(): Config
      reads this
    {
      Config(stack, pc)
    }

    /** An underflow sets the error flag and yields a sentinel. */
    method Pop() returns (v: i64)
      modifies `stack, `error
      ensures old(stack) == [] ==> v == -1 && stack == [] && error
      ensures old(stack) != [] ==> v == Top(old(stack), 0) && stack == Replace(old(stack), 1, []) && error == old(error)
    {
      if stack == [] {
        error := true;
        return -1;
      }
      v := stack[|stack| - 1];
      stack := stack[..|stack| - 1];
    }

    method PopAB() returns (a: i64, b: i64)
      modifies `stack, `error
      ensures |old(stack)| < 2 ==> error && a == -1
      ensures |old(stack)| >= 2 ==>
                a == Top(old(stack), 1) && b == Top(old(stack), 0) && stack == Replace(old(stack), 2, []) &&
                  error == old(error)
    {
      b := Pop();
      a := Pop();
    }

    method Push(v: i64)
      modifies `stack
      ensures stack == old(stack) + [v]
    {
      stack := stack + [v];
    }

    /** A zero divisor or width sets the error flag and is replaced by 1. */
    method Nonzero(v: i64) returns (r: i64)
      modifies `error
      ensures r == (if v == 0 then 1 else v) && error == (old(error) || v == 0)
    {
      if v == 0 {
        error := true;
        return 1;
      }
      return v;
    }

    /** Fetches a big-endian operand of `n` bytes; an overrun sets the error flag and yields all ones. */
    method Fetch(n: nat) returns (v: nat)
      modifies `pc, `error
      ensures pc == old(pc) + if old(pc) + n <= |bytecode| then n else 0
      ensures error == (old(error) || old(pc) + n > |bytecode|)
      ensures v == if old(pc) + n <= |bytecode| then FromBigEndian(bytecode[old(pc)..old(pc) + n]) else Pow256(n) - 1
    {
      if pc + n > |bytecode| {
        error := true;
        return Pow256(n) - 1;
      }
      v := 0;
      for i := 0 to n
        invariant v == FromBigEndian(bytecode[pc..pc + i])
      {
        ghost var part := bytecode[pc..pc + i + 1];
        assert part[..i] == bytecode[pc..pc + i] && part[i] == bytecode[pc + i];
        v := v * 256 + bytecode[pc + i];
      }
      pc := pc + n;
    }

    method Pick(offset: nat)
      modifies `stack, `error
      ensures offset >= |old(stack)| ==> error && stack == old(stack)
      ensures offset < |old(stack)| ==> stack == old(stack) + [Top(old(stack), offset)] && error == old(error)
    {
      if offset >= |stack| {
        error := true;
        return;
      }
      Push(stack[|stack| - 1 - offset]);
    }

    /** Pops an address and pushes what is there; an address that cannot be read sets the error flag. */
    method LoadFrom(env: Env, n: nat)
      modifies `stack, `error
      ensures
        var s := old(stack);
        if old(error) || s == [] || Load(env.mem, Unsigned(Top(s, 0)), n).None? then error
        else stack == Replace(s, 1, [Signed(Load(env.mem, Unsigned(Top(s, 0)), n).value)]) && !error
    {
      var addr := Pop();
      if error {
        return;
      }
      var v := Load(env.mem, Unsigned(addr), n);
      if v.None? {
        error := true;
        return;
      }
      Push(Signed(v.value));
    }

    /** The state a step from `c` with effect `e` leaves. */
    ghost predicate Shows(e: Effect, c: Config)
      reads this
    {
      match e
      case Next(c') => !error && !end && !panicked && Here() == c'
      case Halt => !error && end && !panicked && stack == c.stack
      case Fail => error && !end && !panicked
      case Panic => panicked && !end
    }

    method StepBinary(op: byte, ghost c: Config)
      requires IsBinary(op) && stack == c.stack && pc == c.pc + 1 && !error && !end && !panicked
      modifies `stack, `error, `panicked
      ensures Shows(BinaryStep(op, c), c)
    {
      var a, b := PopAB();
      var d := b;
      if Divides(op) {
        d := Nonzero(b);
      }
      if op == OP_REM_SIGNED && a == MIN && d == -1 {
        panicked := true;
        return;
      }
      Push(BinaryValue(op, a, d));
    }

    method StepExtension(op: byte, ghost c: Config)
      requires op == OP_EXT || op == OP_ZERO_EXT
      requires stack == c.stack && pc == c.pc + 1 && !error && !end && !panicked
      modifies `stack, `error, `pc
      ensures Shows(ExtensionStep(bytecode, op, c), c)
    {
      var n := Fetch(1);
      assert Pow256(1) == 256;
      if op == OP_EXT {
        n := Nonzero(n);
      }
      if n >= 64 {
        return;
      }
      var a := Pop();
      var v := Extension(op, a, n);
      Push(v);
    }

    static method Extension(op: byte, a: i64, n: nat) returns (v: i64)
      requires n < 64 && (op == OP_EXT ==> n > 0)
      ensures v == if op == OP_EXT then SignExtend(a, n) else LowBits(a, n)
    {
      if op == OP_EXT {
        ExtendMeaning(a, n);
        v := Extend(a, n);
      } else {
        ZeroExtendMeaning(a, n);
        v := ZeroExtend(a, n);
      }
    }

    method Swap(ghost c: Config)
      requires stack == c.stack && pc == c.pc + 1 && !error && !end && !panicked
      modifies `stack, `error
      ensures Shows(StackStep(bytecode, OP_SWAP, c), c)
    {
      var a, b := PopAB();
      Push(b);
      Push(a);
    }

    method Rotate(ghost c: Config)
      requires stack == c.stack && pc == c.pc + 1 && !error && !end && !panicked
      modifies `stack, `error
      ensures Shows(StackStep(bytecode, OP_ROT, c), c)
    {
      var z := Pop();
      var y := Pop();
      var x := Pop();
      assert |c.stack| >= 3 ==> stack == c.stack[..|c.stack| - 3];
      Push(z);
      Push(y);
      Push(x);
    }

    method StepStack(op: byte, ghost c: Config)
      requires stack == c.stack && pc == c.pc + 1 && !error && !end && !panicked
      modifies `stack, `error, `pc
      ensures Shows(StackStep(bytecode, op, c), c)
    {
      if op == OP_SWAP {
        Swap(c);
      } else if op == OP_ROT {
        Rotate(c);
      } else if op == OP_PICK {
        var offset := Fetch(1);
        Pick(offset);
      } else if op == OP_DUP {
        Pick(0);
      } else if op == OP_POP {
        var _ := Pop();
      } else {
        error := true;
      }
    }

    method StepUnary(env: Env, op: byte, ghost c: Config)
      requires stack == c.stack && pc == c.pc + 1 && !error && !end && !panicked
      modifies `stack, `error
      ensures Shows(UnaryStep(env, op, c), c)
    {
      if op == OP_LOG_NOT {
        var a := Pop();
        Push(if a == 0 then 1 else 0);
      } else if op == OP_BIT_NOT {
        var a := Pop();
        Push(BitNot(a));
      } else if OP_REF8 <= op <= OP_REF64 {
        LoadFrom(env, RefWidth(op));
      } else {
        error := true;
      }
    }

    method StepControl(env: Env, op: byte, ghost c: Config)
      requires OP_IF_GOTO <= op <= OP_REG
      requires stack == c.stack && pc == c.pc + 1 && !error && !end && !panicked
      modifies `stack, `error, `pc
      ensures Shows(ControlStep(bytecode, env, op, c), c)
    {
      if OP_CONST8 <= op <= OP_CONST64 {
        var v := Fetch(OperandWidth(op));
        Push(Signed(v));
      } else if op == OP_IF_GOTO {
        var offset := Fetch(2);
        var a := Pop();
        if a != 0 {
          pc := offset;
        }
      } else if op == OP_GOTO {
        var offset := Fetch(2);
        pc := offset;
      } else {
        var r := Fetch(2);
        assert Pow256(2) == 0x1_0000;
        var v := RegisterNumber(env, r);
        if v.None? {
          error := true;
          return;
        }
        Push(v.value);
      }
    }

    /** One step of the machine does what its meaning says; faults show in the error flag and nowhere else. */
    method Step(env: Env)
      requires !error && !end && !panicked
      modifies this
      ensures Shows(StepOf(bytecode, env, old(Here())), old(Here()))
    {
      ghost var c := Here();
      var op := Fetch(1);
      if error {
        return;
      }
      assert bytecode[c.pc..c.pc + 1] == [bytecode[c.pc]];
      assert FromBigEndian([bytecode[c.pc]]) == bytecode[c.pc];
      if op == OP_END {
        end := true;
      } else if IsBinary(op) {
        StepBinary(op, c);
      } else if op == OP_EXT || op == OP_ZERO_EXT {
        StepExtension(op, c);
      } else if OP_IF_GOTO <= op <= OP_REG {
        StepControl(env, op, c);
      } else if op < OP_IF_GOTO {
        StepUnary(env, op, c);
      } else {
        StepStack(op, c);
      }
    }

    /** The verdict of a run that has come this far and has `left` steps left. */
    ghost function Foreseen(env: Env, left: nat): Verdict
      reads this
    {
      if panicked then Panicked
      else if error then Failure
      else if end then if stack == [] then Failure else Value(Top(stack, 0))
      else RunFor(bytecode, env, Here(), left)
    }

    method Advance(env: Env, ghost left: nat)
      requires !error && !end && !panicked && left > 0
      modifies this
      ensures Foreseen(env, left - 1) == old(Foreseen(env, left))
      ensures panicked || error ==> !end
    {
      Step(env);
    }
  }

  /** Less than the budget of faultless steps lead to OP_end with `v` on top of the stack. */
  ghost predicate Succeeds(code: seq<byte>, env: Env, v: i64) {
    exists n: nat :: n < STEP_BUDGET && EndsWith(StepsOf(code, env), START, n, v)
  }

  /** The first verdict that is no value decides; otherwise the values must agree. */
  function Agreed(vs: seq<Verdict>): Verdict {
    if vs == [] then Failure
    else if |vs| == 1 then vs[0]
    else
      var before, last := Agreed(vs[..|vs| - 1]), vs[|vs| - 1];
      if !before.Value? then before
      else if last.Value? && last != before then Failure
      else last
  }

  lemma {:induction false} AgreedIff(vs: seq<Verdict>, v: i64)
    ensures Agreed(vs) == Value(v) <==> vs != [] && forall i :: 0 <= i < |vs| ==> vs[i] == Value(v)
  {
    if |vs| > 1 {
      var init := vs[..|vs| - 1];
      AgreedIff(init, v);
      assert forall i :: 0 <= i < |init| ==> vs[i] == init[i];
    }
  }

  lemma {:induction false} AgreedFails(vs: seq<Verdict>, j: nat)
    requires 0 < j <= |vs| && !Agreed(vs[..j]).Value?
    ensures Agreed(vs) == Agreed(vs[..j])
  {
    if j < |vs| {
      var init := vs[..|vs| - 1];
      assert init[..j] == vs[..j];
      AgreedFails(init, j);
    } else {
      assert vs[..j] == vs;
    }
  }

  function Verdicts(variants: seq<seq<byte>>, env: Env): (vs: seq<Verdict>)
    ensures |vs| == |variants|
    ensures forall i :: 0 <= i < |vs| ==> vs[i] == RunFor(variants[i], env, START, STEP_BUDGET)
  {
    seq(|variants|, i requires 0 <= i < |variants| => RunFor(variants[i], env, START, STEP_BUDGET))
  }

  /** An expression evaluates to `v` exactly when it has variants and every one of them succeeds with `v`. */
  lemma EvaluationSucceedsIff(variants: seq<seq<byte>>, env: Env, v: i64)
    ensures Agreed(Verdicts(variants, env)) == Value(v) <==>
            variants != [] && forall i :: 0 <= i < |variants| ==> Succeeds(variants[i], env, v)
  {
    var vs := Verdicts(variants, env);
    AgreedIff(vs, v);
    forall i | 0 <= i < |variants|
      ensures vs[i] == Value(v) <==> Succeeds(variants[i], env, v)
    {
      RunSucceedsIff(StepsOf(variants[i], env), START, STEP_BUDGET, v);
    }
  }

  method RunVariant(code: seq<byte>, env: Env) returns (r: Verdict)
    ensures r == RunFor(code, env, START, STEP_BUDGET)
  {
    var state := new ExpressionState(code);
    var steps := 0;
    ghost var verdict := RunFor(code, env, START, STEP_BUDGET);
    while !state.end
      invariant fresh(state) && state.bytecode == code
      invariant 0 <= steps <= STEP_BUDGET && state.Foreseen(env, STEP_BUDGET - steps) == verdict
      invariant state.panicked || state.error ==> !state.end
      decreases STEP_BUDGET - steps, !state.panicked
    {
      if state.panicked {
        return Panicked;
      }
      if steps >= STEP_BUDGET || state.error {
        return Failure;
      }
      state.Advance(env, STEP_BUDGET - steps);
      steps := steps + 1;
    }
    var v := state.Pop();
    if state.error {
      return Failure;
    }
    return Value(v);
  }

  /** The evaluator: every variant of the expression must succeed with the same value. */
  method Evaluate(variants: seq<seq<byte>>, env: Env) returns (r: Verdict)
    ensures r == Agreed(Verdicts(variants, env))
    ensures forall v: i64 :: r == Value(v) <==>
              variants != [] && forall i :: 0 <= i < |variants| ==> Succeeds(variants[i], env, v)
  {
    ghost var vs := Verdicts(variants, env);
    forall v: i64
      ensures Agreed(vs) == Value(v) <==> variants != [] && forall i :: 0 <= i < |variants| ==>
              Succeeds(variants[i], env, v)
    {
      EvaluationSucceedsIff(variants, env, v);
    }
    r := AgreeOn(variants, env, vs);
  }

  lemma AgreedSoFar(vs: seq<Verdict>, j: nat)
    requires j < |vs|
    ensures Agreed(vs[..j + 1]) ==
            if j == 0 then vs[0]
            else
              var before := Agreed(vs[..j]);
              if !before.Value? then before else if vs[j].Value? && vs[j] != before then Failure else vs[j]
  {
    assert vs[..j + 1][..j] == vs[..j];
  }

  method NextVerdict(variants: seq<seq<byte>>, env: Env, ghost vs: seq<Verdict>, j: nat) returns (v: Verdict)
    requires vs == Verdicts(variants, env) && j < |variants|
    ensures v == vs[j]
  {
    v := RunVariant(variants[j], env);
  }

  method AgreeOn(variants: seq<seq<byte>>, env: Env, ghost vs: seq<Verdict>) returns (r: Verdict)
    requires vs == Verdicts(variants, env)
    ensures r == Agreed(vs)
  {
    if variants == [] {
      return Failure;
    }
    r := Failure;
    for j := 0 to |variants|
      invariant j > 0 ==> r.Value? && r == Agreed(vs[..j])
    {
      AgreedSoFar(vs, j);
      var v := NextVerdict(variants, env, vs, j);
      if !v.Value? {
        AgreedFails(vs, j + 1);
        return v;
      }
      if j == 0 {
        r := v;
      } else if r != v {
        AgreedFails(vs, j + 1);
        return Failure;
      }
    }
    assert vs[..|variants|] == vs;
  }
}
