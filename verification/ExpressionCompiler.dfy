/**
 * What bytecode means for the expressions it is compiled from: the postfix code gdb emits for an
 * expression tree, run on the machine of `GdbExpression`, yields the value of the tree.
 */
module ExpressionCompiler {
  import opened Words
  import opened Int64
  import opened GdbExpression

  datatype Width = W8 | W16 | W32 | W64

  datatype Constant = C8(v8: byte) | C16(v16: u16) | C32(v32: u32) | C64(v64: u64)

  datatype UnaryOp = LogNot | BitNegate | Ref(width: Width) | Ext(bits: byte) | ZeroExt(bits: byte)

  type BinaryOpcode = op: byte | IsBinary(op) witness OP_ADD

  datatype Expr =
    | Const(k: Constant)
    | Reg(number: u16)
    | Unary(op: UnaryOp, e: Expr)
    | BinaryOp(opcode: BinaryOpcode, l: Expr, r: Expr)
    | Cond(c: Expr, t: Expr, f: Expr)

  function Bytes(w: Width): nat {
    match w
    case W8 => 1
    case W16 => 2
    case W32 => 4
    case W64 => 8
  }

  function WidthOf(k: Constant): Width {
    match k
    case C8(_) => W8
    case C16(_) => W16
    case C32(_) => W32
    case C64(_) => W64
  }

  function ConstantValue(k: Constant): u64 {
    match k
    case C8(v) => v
    case C16(v) => v
    case C32(v) => v
    case C64(v) => v
  }

  function Index(w: Width): nat {
    match w
    case W8 => 0
    case W16 => 1
    case W32 => 2
    case W64 => 3
  }

  lemma ConstantFits(k: Constant)
    ensures ConstantValue(k) < Pow256(Bytes(WidthOf(k)))
  {
    assert Pow256(1) == 256;
    assert Pow256(2) == 256 * Pow256(1);
    assert Pow256(3) == 256 * Pow256(2) && Pow256(4) == 256 * Pow256(3);
    assert Pow256(5) == 256 * Pow256(4) && Pow256(6) == 256 * Pow256(5);
    assert Pow256(7) == 256 * Pow256(6) && Pow256(8) == 256 * Pow256(7);
  }

  // ----- The value of a tree and the steps its code takes

  function UnaryValue(env: Env, op: UnaryOp, a: i64): Verdict {
    match op
    case LogNot => Value(Truth(a == 0))
    case BitNegate => Value(BitNot(a))
    case Ref(w) =>
      var v := Load(env.mem, Unsigned(a), Bytes(w));
      if v.None? then Failure else Value(Signed(v.value))
    case Ext(n) => if n == 0 then Failure else Value(if n < 64 then SignExtend(a, n) else a)
    case ZeroExt(n) => Value(if n < 64 then LowBits(a, n) else a)
  }

  function RegValue(env: Env, r: u16): Verdict {
    var v := RegisterNumber(env, r);
    if v.None? then Failure else Value(v.value)
  }

  /** What the operators of a tree mean; `MeaningOf` gives the one of the machine. */
  datatype Meaning = Meaning(reg: u16 -> Verdict, unary: (UnaryOp, i64) -> Verdict,
    binary: (BinaryOpcode, i64, i64) -> Verdict)

  function MeaningOf(env: Env): Meaning {
    Meaning((r: u16) => RegValue(env, r), (op: UnaryOp, a: i64) => UnaryValue(env, op, a),
            (op: BinaryOpcode, a: i64, b: i64) => Binary(op, a, b))
  }

  /** The verdict on a tree and the steps its code takes up to it. */
  datatype Outcome = Outcome(verdict: Verdict, cost: nat)

  function AfterUnary(x: Outcome, z: Verdict): Outcome {
    if x.verdict.Value? then Outcome(z, x.cost + 1) else x
  }

  function AfterBinary(x: Outcome, y: Outcome, z: Verdict): Outcome {
    if !x.verdict.Value? then x
    else if !y.verdict.Value? then Outcome(y.verdict, x.cost + y.cost)
    else Outcome(z, x.cost + y.cost + 1)
  }

  function AfterJump(a: Outcome, t: Outcome, f: Outcome): Outcome {
    if !a.verdict.Value? then a
    else if a.verdict.v != 0 then Outcome(t.verdict, a.cost + 1 + t.cost)
    else Outcome(f.verdict, a.cost + 1 + f.cost)
  }

  function ThenGoto(f: Outcome): Outcome {
    if f.verdict.Value? then Outcome(f.verdict, f.cost + 1) else f
  }

  function Eval(m: Meaning, e: Expr): Outcome {
    match e
    case Const(k) => Outcome(Value(Signed(ConstantValue(k))), 1)
    case Reg(r) => Outcome(m.reg(r), 1)
    case Unary(op, e1) =>
      var x := Eval(m, e1);
      AfterUnary(x, if x.verdict.Value? then m.unary(op, x.verdict.v) else Failure)
    case BinaryOp(op, l, r) =>
      var x, y := Eval(m, l), Eval(m, r);
      AfterBinary(x, y, if x.verdict.Value? && y.verdict.Value? then m.binary(op, x.verdict.v, y.verdict.v)
        else Failure)
    case Cond(c, t, f) => AfterJump(Eval(m, c), Eval(m, t), ThenGoto(Eval(m, f)))
  }

  // ----- Its code

  function UnaryCode(op: UnaryOp): seq<byte> {
    match op
    case LogNot => [OP_LOG_NOT]
    case BitNegate => [OP_BIT_NOT]
    case Ref(w) => [OP_REF8 + Index(w)]
    case Ext(n) => [OP_EXT, n]
    case ZeroExt(n) => [OP_ZERO_EXT, n]
  }

  function ConstantOpcode(k: Constant): byte {
    OP_CONST8 + Index(WidthOf(k))
  }

  /** The pieces code is made of: an opcode with a big-endian operand, a unary operator, a bare opcode. */
  datatype Part = Operation(op: byte, v: nat, n: nat) | UnaryPart(unary: UnaryOp) | Opcode(op: byte)

  function PartCode(part: Part): seq<byte> {
    match part
    case Operation(op, v, n) => [op] + ToBigEndian(v, n)
    case UnaryPart(op) => UnaryCode(op)
    case Opcode(op) => [op]
  }

  function ConstantPart(k: Constant): Part {
    Operation(ConstantOpcode(k), ConstantValue(k), Bytes(WidthOf(k)))
  }

  predicate PartAt(code: seq<byte>, pos: nat, part: Part) {
    pos + |PartCode(part)| <= |code| && code[pos..pos + |PartCode(part)|] == PartCode(part)
  }

  /** An expression tree with the addresses at which the code of each node starts and ends. */
  datatype Placed = Placed(start: nat, end: nat, node: Node)

  datatype Node =
    | PConst(k: Constant)
    | PReg(number: u16)
    | PUnary(op: UnaryOp, e: Placed)
    | PBinary(opcode: BinaryOpcode, l: Placed, r: Placed)
    | PCond(c: Placed, t: Placed, f: Placed)

  function TreeOf(g: Placed): Expr {
    match g.node
    case PConst(k) => Const(k)
    case PReg(r) => Reg(r)
    case PUnary(op, e) => Unary(op, TreeOf(e))
    case PBinary(op, l, r) => BinaryOp(op, TreeOf(l), TreeOf(r))
    case PCond(c, t, f) => Cond(TreeOf(c), TreeOf(t), TreeOf(f))
  }

  /**
   * The code of `g` stands where its addresses say, in postfix order; `at` tells where parts stand. A
   * conditional is its condition, a jump to the first alternative, the second, and a jump over the first.
   */
  predicate CodeAt(at: (nat, Part) -> bool, g: Placed) {
    match g.node
    case PConst(k) => at(g.start, ConstantPart(k)) && g.end == g.start + 1 + Bytes(WidthOf(k))
    case PReg(r) => at(g.start, Operation(OP_REG, r, 2)) && g.end == g.start + 3
    case PUnary(op, e) =>
      CodeAt(at, e) && e.start == g.start && at(e.end, UnaryPart(op)) && g.end == e.end + |UnaryCode(op)|
    case PBinary(op, l, r) =>
      && CodeAt(at, l) && l.start == g.start
      && CodeAt(at, r) && r.start == l.end
      && at(r.end, Opcode(op)) && g.end == r.end + 1
    case PCond(c, t, f) =>
      && CodeAt(at, c) && c.start == g.start
      && at(c.end, Operation(OP_IF_GOTO, t.start, 2)) && f.start == c.end + 3
      && CodeAt(at, f)
      && at(f.end, Operation(OP_GOTO, t.end, 2)) && t.start == f.end + 3
      && CodeAt(at, t) && t.end == g.end
      && t.start < 0x1_0000 && t.end < 0x1_0000
  }

  /** Code occupies a range that holds the ranges of its parts, and depends on that range only. */
  lemma {:induction false} CodeMoves(at: (nat, Part) -> bool, at': (nat, Part) -> bool, g: Placed)
    requires CodeAt(at, g)
    requires forall p, part :: g.start <= p && p + |PartCode(part)| <= g.end && at(p, part) ==> at'(p, part)
    ensures CodeAt(at', g) && g.start < g.end
    decreases g
  {
    CodeGrows(at, g);
    match g.node
    case PConst(_) =>
    case PReg(_) =>
    case PUnary(_, e) =>
      CodeMoves(at, at', e);
    case PBinary(_, l, r) =>
      CodeGrows(at, l);
      CodeGrows(at, r);
      CodeMoves(at, at', l);
      CodeMoves(at, at', r);
    case PCond(c, t, f) =>
      CodeGrows(at, c);
      CodeGrows(at, t);
      CodeGrows(at, f);
      CodeMoves(at, at', c);
      CodeMoves(at, at', f);
      CodeMoves(at, at', t);
  }

  lemma {:induction false} CodeGrows(at: (nat, Part) -> bool, g: Placed)
    requires CodeAt(at, g)
    ensures g.start < g.end
    decreases g
  {
    match g.node
    case PConst(_) =>
    case PReg(_) =>
    case PUnary(_, e) =>
      CodeGrows(at, e);
    case PBinary(_, l, r) =>
      CodeGrows(at, l);
      CodeGrows(at, r);
    case PCond(c, t, f) =>
      CodeGrows(at, c);
      CodeGrows(at, f);
      CodeGrows(at, t);
  }

  /** Where the parts of `code` stand. */
  function PartsOf(code: seq<byte>): (nat, Part) -> bool {
    (pos: nat, part: Part) => PartAt(code, pos, part)
  }

  // ----- Emitting it

  lemma RangeKept(code: seq<byte>, code': seq<byte>, g: Placed)
    requires CodeAt(PartsOf(code), g) && g.end <= |code| && g.end <= |code'|
    requires forall i :: g.start <= i < g.end ==> code'[i] == code[i]
    ensures CodeAt(PartsOf(code'), g)
  {
    forall p: nat, part: Part | g.start <= p && p + |PartCode(part)| <= g.end && PartsOf(code)(p, part)
      ensures PartsOf(code')(p, part)
    {
      PartKept(code, code', p, part);
    }
    CodeMoves(PartsOf(code), PartsOf(code'), g);
  }

  lemma Appended(code: seq<byte>, part: Part)
    ensures PartsOf(code + PartCode(part))(|code|, part)
  {
    var longer := code + PartCode(part);
    assert longer[|code|..|longer|] == PartCode(part);
  }

  function CodeLength(e: Expr): nat {
    match e
    case Const(k) => 1 + Bytes(WidthOf(k))
    case Reg(_) => 3
    case Unary(op, e1) => CodeLength(e1) + |UnaryCode(op)|
    case BinaryOp(_, l, r) => CodeLength(l) + CodeLength(r) + 1
    case Cond(c, t, f) => CodeLength(c) + 3 + CodeLength(f) + 3 + CodeLength(t)
  }

  /** Appends the code of `e`; forward jumps are emitted with a dummy target and patched. Code below 64K always fits. */
  method Emit(code: seq<byte>, e: Expr) returns (longer: seq<byte>, g: Placed, ok: bool)
    ensures ok ==>
              && code <= longer && TreeOf(g) == e
              && g.start == |code| && g.end == |longer| == |code| + CodeLength(e) && CodeAt(PartsOf(longer), g)
    ensures |code| + CodeLength(e) < 0x1_0000 ==> ok
    decreases e, 3
  {
    longer, g, ok := code, Placed(0, 0, PReg(0)), false;
    match e {
      case Const(k) =>
        longer := code + PartCode(ConstantPart(k));
        Appended(code, ConstantPart(k));
        g, ok := Placed(|code|, |longer|, PConst(k)), true;
      case Reg(r) =>
        longer := code + PartCode(Operation(OP_REG, r, 2));
        Appended(code, Operation(OP_REG, r, 2));
        g, ok := Placed(|code|, |longer|, PReg(r)), true;
      case Unary(_, _) =>
        longer, g, ok := EmitUnary(code, e);
      case BinaryOp(_, _, _) =>
        longer, g, ok := EmitBinary(code, e);
      case Cond(_, _, _) =>
        longer, g, ok := EmitCond(code, e);
    }
  }

  method EmitUnary(code: seq<byte>, e: Expr) returns (longer: seq<byte>, g: Placed, ok: bool)
    requires e.Unary?
    ensures ok ==>
              && code <= longer && TreeOf(g) == e
              && g.start == |code| && g.end == |longer| == |code| + CodeLength(e) && CodeAt(PartsOf(longer), g)
    ensures |code| + CodeLength(e) < 0x1_0000 ==> ok
    decreases e, 2
  {
    var c1, g1, ok1 := Emit(code, e.e);
    longer, g, ok := c1, g1, ok1;
    if ok {
      longer := c1 + PartCode(UnaryPart(e.op));
      Appended(c1, UnaryPart(e.op));
      PrefixKept(c1, longer, g1);
      g := Placed(|code|, |longer|, PUnary(e.op, g1));
    }
  }

  method EmitBinary(code: seq<byte>, e: Expr) returns (longer: seq<byte>, g: Placed, ok: bool)
    requires e.BinaryOp?
    ensures ok ==>
              && code <= longer && TreeOf(g) == e
              && g.start == |code| && g.end == |longer| == |code| + CodeLength(e) && CodeAt(PartsOf(longer), g)
    ensures |code| + CodeLength(e) < 0x1_0000 ==> ok
    decreases e, 2
  {
    var c1, g1, ok1 := Emit(code, e.l);
    longer, g, ok := c1, g1, ok1;
    if ok {
      var c2, g2, ok2 := Emit(c1, e.r);
      ok := ok2;
      if ok {
        longer := c2 + PartCode(Opcode(e.opcode));
        Appended(c2, Opcode(e.opcode));
        PrefixKept(c1, longer, g1);
        PrefixKept(c2, longer, g2);
        g := Placed(|code|, |longer|, PBinary(e.opcode, g1, g2));
      }
    }
  }

  lemma SamePrefix(code: seq<byte>, c: seq<byte>, longer: seq<byte>)
    requires code <= c && |code| <= |longer| && forall i :: 0 <= i < |code| ==> longer[i] == c[i]
    ensures code <= longer
  {
  }

  lemma PrefixKept(code: seq<byte>, longer: seq<byte>, g: Placed)
    requires CodeAt(PartsOf(code), g) && g.end <= |code| && code <= longer
    ensures CodeAt(PartsOf(longer), g)
  {
    RangeKept(code, longer, g);
  }

  /** A jump whose target is not known yet. */
  function Hole(op: byte): (s: seq<byte>)
    ensures |s| == 3
  {
    PartCode(Operation(op, 0, 2))
  }

  /** Two expressions with room for a jump between them. */
  method EmitTwo(code: seq<byte>, x: Expr, op: byte, y: Expr, ghost e: Expr) returns (longer: seq<byte>, gx: Placed,
                 gy: Placed, ok: bool)
    requires e.Cond? && x == e.c && y == e.f
    ensures ok ==>
              && code <= longer && TreeOf(gx) == x && TreeOf(gy) == y
              && CodeAt(PartsOf(longer), gx) && CodeAt(PartsOf(longer), gy)
              && gx.start == |code| && gx.end + 3 == gy.start <= gy.end == |longer|
              && |longer| == |code| + CodeLength(x) + 3 + CodeLength(y)
    ensures |code| + CodeLength(x) + 3 + CodeLength(y) < 0x1_0000 ==> ok
    decreases e, 0
  {
    gy := Placed(0, 0, PReg(0));
    longer, gx, ok := Emit(code, x);
    if ok {
      var c1 := longer;
      longer, gy, ok := Emit(c1 + Hole(op), y);
      if ok {
        PrefixKept(c1, longer, gx);
      }
    }
  }

  /** The condition and the alternatives, with room for the jumps; no jump target may be beyond 16 bits. */
  method EmitParts(code: seq<byte>, c: Expr, t: Expr, f: Expr, ghost e: Expr)
    returns (longer: seq<byte>, gc: Placed, gt: Placed, gf: Placed, ok: bool)
    requires e == Cond(c, t, f)
    ensures ok ==>
              && code <= longer && TreeOf(gc) == c && TreeOf(gt) == t && TreeOf(gf) == f
              && CodeAt(PartsOf(longer), gc) && CodeAt(PartsOf(longer), gt) && CodeAt(PartsOf(longer), gf)
              && gc.start == |code| && gc.end + 3 == gf.start && gf.end + 3 == gt.start && gt.end == |longer| < 0x1_0000
              && |longer| == |code| + CodeLength(e)
    ensures |code| + CodeLength(e) < 0x1_0000 ==> ok
    decreases e, 1
  {
    gt := Placed(0, 0, PReg(0));
    longer, gc, gf, ok := EmitTwo(code, c, OP_IF_GOTO, f, e);
    if ok {
      var c2 := longer;
      longer, gt, ok := Emit(c2 + Hole(OP_GOTO), t);
      if ok {
        PrefixKept(c2, longer, gc);
        PrefixKept(c2, longer, gf);
        ok := |longer| < 0x1_0000;
      }
    }
  }

  method EmitCond(code: seq<byte>, e: Expr) returns (longer: seq<byte>, g: Placed, ok: bool)
    requires e.Cond?
    ensures ok ==>
              && code <= longer && TreeOf(g) == e
              && g.start == |code| && g.end == |longer| == |code| + CodeLength(e) && CodeAt(PartsOf(longer), g)
    ensures |code| + CodeLength(e) < 0x1_0000 ==> ok
    decreases e, 2
  {
    var parts, gc, gt, gf, fits := EmitParts(code, e.c, e.t, e.f, e);
    longer, g, ok := parts, gc, fits;
    if ok {
      longer, g := PatchCond(parts, gc, gt, gf);
      SamePrefix(code, parts, longer);
    }
  }

  method PatchCond(code: seq<byte>, c: Placed, t: Placed, f: Placed) returns (longer: seq<byte>, g: Placed)
    requires CodeAt(PartsOf(code), c) && CodeAt(PartsOf(code), t) && CodeAt(PartsOf(code), f)
    requires c.end + 3 == f.start && f.end + 3 == t.start && t.end == |code| < 0x1_0000
    ensures g == Placed(c.start, |code|, PCond(c, t, f)) && |longer| == |code|
    ensures CodeAt(PartsOf(longer), g)
    ensures forall i :: 0 <= i < c.start && i < |code| ==> longer[i] == code[i]
  {
    CodeGrows(PartsOf(code), c);
    CodeGrows(PartsOf(code), t);
    CodeGrows(PartsOf(code), f);
    var jump, over := Operation(OP_IF_GOTO, t.start, 2), Operation(OP_GOTO, t.end, 2);
    var once := Patch(code, c.end, jump);
    longer := Patch(once, f.end, over);
    PartKept(once, longer, c.end, jump);
    RangeKept(code, longer, c);
    RangeKept(code, longer, f);
    RangeKept(code, longer, t);
    g := Placed(c.start, |code|, PCond(c, t, f));
  }

  lemma PartKept(code: seq<byte>, code': seq<byte>, pos: nat, part: Part)
    requires PartsOf(code)(pos, part) && pos + |PartCode(part)| <= |code'|
    requires forall i :: pos <= i < pos + |PartCode(part)| ==> code'[i] == code[i]
    ensures PartsOf(code')(pos, part)
  {
    var n := |PartCode(part)|;
    assert code'[pos..pos + n] == code[pos..pos + n];
  }

  method Patch(code: seq<byte>, pos: nat, part: Part) returns (patched: seq<byte>)
    requires pos + |PartCode(part)| <= |code|
    ensures |patched| == |code| && PartsOf(patched)(pos, part)
    ensures forall i :: 0 <= i < |code| && !(pos <= i < pos + |PartCode(part)|) ==> patched[i] == code[i]
  {
    var n := |PartCode(part)|;
    patched := code[..pos] + PartCode(part) + code[pos + n..];
    assert patched[pos..pos + n] == PartCode(part);
  }

  // ----- Running with any step function

  /** `step` is the machine's step function and `m` the meaning of its operators. */
  ghost predicate Follows(step: Config -> Effect, m: Meaning, code: seq<byte>, env: Env) {
    && (forall c {:trigger StepOf(code, env, c)} :: step(c) == StepOf(code, env, c))
    && (forall r {:trigger RegValue(env, r)} :: m.reg(r) == RegValue(env, r))
    && (forall op, a {:trigger UnaryValue(env, op, a)} :: m.unary(op, a) == UnaryValue(env, op, a))
    && (forall op: BinaryOpcode, a, b {:trigger Binary(op, a, b)} :: m.binary(op, a, b) == Binary(op, a, b))
  }

  /** The machine at `c` with `b` steps left comes to outcome `o`, at `end` if that is a value. */
  ghost predicate Computes(step: Config -> Effect, c: Config, b: nat, o: Outcome, end: nat) {
    if b < o.cost then RunWith(step, c, b) == Failure
    else match o.verdict
      case Value(v) => RunWith(step, c, b) == RunWith(step, Config(c.stack + [v], end), b - o.cost)
      case _ => RunWith(step, c, b) == o.verdict
  }

  function EffectOf(verdict: Verdict, stack: seq<i64>, pos: nat): Effect {
    match verdict
    case Value(v) => Next(Config(stack + [v], pos))
    case Failure => Fail
    case Panicked => Panic
  }

  lemma OneStep(step: Config -> Effect, stack: seq<i64>, pos: nat, b: nat, z: Verdict, end: nat)
    requires step(Config(stack, pos)) == EffectOf(z, stack, end)
    ensures Computes(step, Config(stack, pos), b, Outcome(z, 1), end)
  {
  }

  /** One value and then a step on it. */
  lemma OneThenStep(step: Config -> Effect, stack: seq<i64>, pos: nat, b: nat, x: Outcome, mid: nat, z: Verdict,
                    end: nat)
    requires Computes(step, Config(stack, pos), b, x, mid)
    requires x.verdict.Value? ==> step(Config(stack + [x.verdict.v], mid)) == EffectOf(z, stack, end)
    ensures Computes(step, Config(stack, pos), b, AfterUnary(x, z), end)
  {
  }

  /** One value after the other and then a step on both. */
  lemma TwoThenStep(step: Config -> Effect, stack: seq<i64>, pos: nat, b: nat, x: Outcome, mid: nat, y: Outcome,
                    mid': nat, z: Verdict)
    requires Computes(step, Config(stack, pos), b, x, mid)
    requires x.verdict.Value? && b >= x.cost ==> Computes(step, Config(stack + [x.verdict.v], mid), b - x.cost, y, mid')
    requires x.verdict.Value? && y.verdict.Value? ==>
               step(Config(stack + [x.verdict.v] + [y.verdict.v], mid')) == EffectOf(z, stack, mid' + 1)
    ensures Computes(step, Config(stack, pos), b, AfterBinary(x, y, z), mid' + 1)
  {
  }

  lemma OneThenGoto(step: Config -> Effect, stack: seq<i64>, pos: nat, b: nat, f: Outcome, gotoAt: nat, end: nat)
    requires Computes(step, Config(stack, pos), b, f, gotoAt)
    requires f.verdict.Value? ==>
             step(Config(stack + [f.verdict.v], gotoAt)) == Next(Config(stack + [f.verdict.v], end))
    ensures Computes(step, Config(stack, pos), b, ThenGoto(f), end)
  {
  }

  /** A condition, the jump on it, and one of two continuations. */
  lemma JumpThenEither(step: Config -> Effect, stack: seq<i64>, pos: nat, b: nat, a: Outcome, jumpAt: nat,
                       thenAt: nat, t: Outcome, f: Outcome, end: nat)
    requires Computes(step, Config(stack, pos), b, a, jumpAt)
    requires a.verdict.Value? ==>
               step(Config(stack + [a.verdict.v], jumpAt)) == Next(Config(stack, if a.verdict.v != 0 then thenAt
                 else jumpAt + 3))
    requires b > a.cost ==> Computes(step, Config(stack, thenAt), b - a.cost - 1, t, end)
    requires b > a.cost ==> Computes(step, Config(stack, jumpAt + 3), b - a.cost - 1, f, end)
    ensures Computes(step, Config(stack, pos), b, AfterJump(a, t, f), end)
  {
  }

  // ----- The steps of the compiled instructions

  ghost predicate Stands(at: (nat, Part) -> bool, code: seq<byte>) {
    forall pos, part {:trigger PartAt(code, pos, part)} :: at(pos, part) == PartAt(code, pos, part)
  }

  lemma OpcodeAndOperand(code: seq<byte>, pos: nat, op: byte, x: seq<byte>, n: nat, v: nat)
    requires |x| == n && pos + 1 + n <= |code| && code[pos..pos + 1 + n] == [op] + x && FromBigEndian(x) == v
    ensures code[pos] == op && Operand(code, pos, n) == Some(v)
  {
    var part := code[pos..pos + 1 + n];
    assert code[pos] == part[0];
    assert code[pos + 1..pos + 1 + n] == part[1..] == x;
  }

  lemma OperandAt(code: seq<byte>, pos: nat, op: byte, v: nat, n: nat)
    requires PartAt(code, pos, Operation(op, v, n)) && v < Pow256(n)
    ensures pos < |code| && code[pos] == op && Operand(code, pos, n) == Some(v)
  {
    BigEndianDecodes(v, n);
    OpcodeAndOperand(code, pos, op, ToBigEndian(v, n), n, v);
  }

  lemma TargetAt(code: seq<byte>, pos: nat, op: byte, target: nat)
    requires target < 0x1_0000 && PartAt(code, pos, Operation(op, target, 2))
    ensures pos < |code| && code[pos] == op && Operand(code, pos, 2) == Some(target)
  {
    assert Pow256(2) == 256 * Pow256(1) == 0x1_0000;
    OperandAt(code, pos, op, target, 2);
  }

  lemma ByteOperandAt(code: seq<byte>, pos: nat, op: byte, v: byte)
    requires pos + 2 <= |code| && code[pos..pos + 2] == [op, v]
    ensures code[pos] == op && Operand(code, pos, 1) == Some(v)
  {
    var x := [v];
    assert [op, v] == [op] + x && x[..0] == [];
    OpcodeAndOperand(code, pos, op, x, 1, v);
  }

  /** What the proofs below know of a machine: its steps, its operators and where code stands. */
  ghost predicate Setting(step: Config -> Effect, m: Meaning, at: (nat, Part) -> bool, code: seq<byte>, env: Env) {
    Follows(step, m, code, env) && Stands(at, code)
  }

  lemma ConstStepAt(step: Config -> Effect, m: Meaning, at: (nat, Part) -> bool, code: seq<byte>, env: Env,
                    k: Constant, pos: nat, stack: seq<i64>)
    requires Setting(step, m, at, code, env) && at(pos, ConstantPart(k))
    ensures step(Config(stack, pos)) == EffectOf(Value(Signed(ConstantValue(k))), stack, pos + 1 + Bytes(WidthOf(k)))
  {
    assert PartAt(code, pos, ConstantPart(k));
    ConstantFits(k);
    OperandAt(code, pos, ConstantOpcode(k), ConstantValue(k), Bytes(WidthOf(k)));
    assert StepOf(code, env, Config(stack, pos)) == ControlStep(code, env, ConstantOpcode(k), Config(stack, pos));
  }

  lemma RegStepAt(step: Config -> Effect, m: Meaning, at: (nat, Part) -> bool, code: seq<byte>, env: Env, r: u16,
                  pos: nat, stack: seq<i64>)
    requires Setting(step, m, at, code, env) && at(pos, Operation(OP_REG, r, 2))
    ensures step(Config(stack, pos)) == EffectOf(m.reg(r), stack, pos + 3)
  {
    assert PartAt(code, pos, Operation(OP_REG, r, 2));
    TargetAt(code, pos, OP_REG, r);
    assert StepOf(code, env, Config(stack, pos)) == EffectOf(RegValue(env, r), stack, pos + 3);
  }

  lemma UnaryStepAt(step: Config -> Effect, m: Meaning, at: (nat, Part) -> bool, code: seq<byte>, env: Env,
                    op: UnaryOp, a: i64, pos: nat, stack: seq<i64>)
    requires Setting(step, m, at, code, env) && at(pos, UnaryPart(op))
    ensures step(Config(stack + [a], pos)) == EffectOf(m.unary(op, a), stack, pos + |UnaryCode(op)|)
  {
    assert PartAt(code, pos, UnaryPart(op));
    var s := stack + [a];
    assert s[..|s| - 1] == stack && Top(s, 0) == a;
    assert code[pos] == code[pos..pos + |UnaryCode(op)|][0] == UnaryCode(op)[0];
    if op.Ext? || op.ZeroExt? {
      ByteOperandAt(code, pos, UnaryCode(op)[0], op.bits);
      assert op.bits >= 64 ==> s == Replace(s, 1, [a]);
    }
    assert StepOf(code, env, Config(s, pos)) == EffectOf(UnaryValue(env, op, a), stack, pos + |UnaryCode(op)|);
  }

  lemma BinaryStepAt(step: Config -> Effect, m: Meaning, at: (nat, Part) -> bool, code: seq<byte>, env: Env,
                     op: BinaryOpcode, x: i64, y: i64, pos: nat, stack: seq<i64>)
    requires Setting(step, m, at, code, env) && at(pos, Opcode(op))
    ensures step(Config(stack + [x] + [y], pos)) == EffectOf(m.binary(op, x, y), stack, pos + 1)
  {
    assert PartAt(code, pos, Opcode(op));
    var s := stack + [x] + [y];
    assert s[..|s| - 2] == stack && Top(s, 0) == y && Top(s, 1) == x;
    assert code[pos..pos + 1][0] == op;
    assert StepOf(code, env, Config(s, pos)) == BinaryStep(op, Config(s, pos));
  }

  lemma GotoStepAt(step: Config -> Effect, m: Meaning, at: (nat, Part) -> bool, code: seq<byte>, env: Env,
                   target: nat, pos: nat, stack: seq<i64>)
    requires Setting(step, m, at, code, env) && at(pos, Operation(OP_GOTO, target, 2)) && target < 0x1_0000
    ensures step(Config(stack, pos)) == Next(Config(stack, target))
  {
    assert PartAt(code, pos, Operation(OP_GOTO, target, 2));
    TargetAt(code, pos, OP_GOTO, target);
    assert StepOf(code, env, Config(stack, pos)) == ControlStep(code, env, OP_GOTO, Config(stack, pos));
  }

  lemma IfGotoStepAt(step: Config -> Effect, m: Meaning, at: (nat, Part) -> bool, code: seq<byte>, env: Env,
                     target: nat, pos: nat, stack: seq<i64>, a: i64)
    requires Setting(step, m, at, code, env) && at(pos, Operation(OP_IF_GOTO, target, 2)) && target < 0x1_0000
    ensures step(Config(stack + [a], pos)) == Next(Config(stack, if a != 0 then target else pos + 3))
  {
    assert PartAt(code, pos, Operation(OP_IF_GOTO, target, 2));
    TargetAt(code, pos, OP_IF_GOTO, target);
    var c := Config(stack + [a], pos);
    assert Top(c.stack, 0) == a && Replace(c.stack, 1, []) == stack;
    assert StepOf(code, env, c) == ControlStep(code, env, OP_IF_GOTO, c);
  }

  // ----- The code of a tree computes its value

  /** Wherever the code stands and whatever is on the stack, it pushes the tree's value or faults as the tree does. */
  lemma {:induction false} CodeComputes(step: Config -> Effect, m: Meaning, at: (nat, Part) -> bool, code: seq<byte>,
                                        env: Env, g: Placed, stack: seq<i64>, b: nat)
    requires Setting(step, m, at, code, env) && CodeAt(at, g)
    ensures Computes(step, Config(stack, g.start), b, Eval(m, TreeOf(g)), g.end)
    decreases g
  {
    match g.node
    case PConst(k) =>
      ConstStepAt(step, m, at, code, env, k, g.start, stack);
      OneStep(step, stack, g.start, b, Value(Signed(ConstantValue(k))), g.end);
    case PReg(r) =>
      RegStepAt(step, m, at, code, env, r, g.start, stack);
      OneStep(step, stack, g.start, b, m.reg(r), g.end);
    case PUnary(op, e) =>
      CodeComputes(step, m, at, code, env, e, stack, b);
      var x := Eval(m, TreeOf(e));
      if x.verdict.Value? {
        UnaryStepAt(step, m, at, code, env, op, x.verdict.v, e.end, stack);
        OneThenStep(step, stack, g.start, b, x, e.end, m.unary(op, x.verdict.v), g.end);
      }
    case PBinary(op, l, r) =>
      BinaryComputes(step, m, at, code, env, g, stack, b);
    case PCond(c, t, f) =>
      CondComputes(step, m, at, code, env, g, stack, b);
  }

  lemma {:induction false} BinaryComputes(step: Config -> Effect, m: Meaning, at: (nat, Part) -> bool,
                                          code: seq<byte>, env: Env, g: Placed, stack: seq<i64>, b: nat)
    requires Setting(step, m, at, code, env) && g.node.PBinary? && CodeAt(at, g)
    ensures Computes(step, Config(stack, g.start), b, Eval(m, TreeOf(g)), g.end)
    decreases g, 0
  {
    var op, l, r := g.node.opcode, g.node.l, g.node.r;
    var x, y := Eval(m, TreeOf(l)), Eval(m, TreeOf(r));
    CodeComputes(step, m, at, code, env, l, stack, b);
    var z := Failure;
    if x.verdict.Value? {
      if b >= x.cost {
        CodeComputes(step, m, at, code, env, r, stack + [x.verdict.v], b - x.cost);
      }
      if y.verdict.Value? {
        BinaryStepAt(step, m, at, code, env, op, x.verdict.v, y.verdict.v, r.end, stack);
        z := m.binary(op, x.verdict.v, y.verdict.v);
      }
    }
    TwoThenStep(step, stack, g.start, b, x, l.end, y, r.end, z);
  }

  lemma {:induction false} CondComputes(step: Config -> Effect, m: Meaning, at: (nat, Part) -> bool, code: seq<byte>,
                                        env: Env, g: Placed, stack: seq<i64>, b: nat)
    requires Setting(step, m, at, code, env) && g.node.PCond? && CodeAt(at, g)
    ensures Computes(step, Config(stack, g.start), b, Eval(m, TreeOf(g)), g.end)
    decreases g, 0
  {
    var c, t, f := g.node.c, g.node.t, g.node.f;
    var x, y, z := Eval(m, TreeOf(c)), Eval(m, TreeOf(t)), Eval(m, TreeOf(f));
    CodeComputes(step, m, at, code, env, c, stack, b);
    if b > x.cost {
      CodeComputes(step, m, at, code, env, t, stack, b - x.cost - 1);
      CodeComputes(step, m, at, code, env, f, stack, b - x.cost - 1);
      if z.verdict.Value? {
        GotoStepAt(step, m, at, code, env, t.end, f.end, stack + [z.verdict.v]);
      }
      OneThenGoto(step, stack, f.start, b - x.cost - 1, z, f.end, t.end);
    }
    if x.verdict.Value? {
      IfGotoStepAt(step, m, at, code, env, t.start, c.end, stack, x.verdict.v);
    }
    JumpThenEither(step, stack, g.start, b, x, c.end, t.start, y, ThenGoto(z), t.end);
  }

  /**
   * Postfix code followed by OP_end evaluates to the value of its tree exactly when its steps and the
   * end fit the budget.
   */
  lemma CompiledExpressionEvaluates(code: seq<byte>, env: Env, g: Placed, budget: nat)
    requires CodeAt(PartsOf(code), g) && g.start == 0 && g.end < |code| && code[g.end] == OP_END
    ensures
      var o := Eval(MeaningOf(env), TreeOf(g));
      RunFor(code, env, START, budget) == if o.cost + (if o.verdict.Value? then 1 else 0) <= budget then o.verdict
        else Failure
  {
    var step, m := StepsOf(code, env), MeaningOf(env);
    CodeComputes(step, m, PartsOf(code), code, env, g, [], budget);
    var v := Eval(m, TreeOf(g)).verdict;
    if v.Value? {
      assert [] + [v.v] == [v.v];
      assert StepOf(code, env, Config([v.v], g.end)) == Halt;
    }
  }

  // ----- Wrapping at every node is wrapping once at the end

  predicate IsRing(e: Expr) {
    match e
    case Const(_) => true
    case BinaryOp(op, l, r) => OP_ADD <= op <= OP_MUL && IsRing(l) && IsRing(r)
    case _ => false
  }

  function RingOp(op: byte, x: int, y: int): int {
    if op == OP_ADD then x + y else if op == OP_SUB then x - y else x * y
  }

  /** The value over the unbounded integers. */
  function Exact(e: Expr): int
    requires IsRing(e)
  {
    match e
    case Const(k) => ConstantValue(k)
    case BinaryOp(op, l, r) => RingOp(op, Exact(l), Exact(r))
  }

  lemma RingOperator(op: byte, x: int, y: int)
    requires OP_ADD <= op <= OP_MUL
    ensures IsBinary(op)
    ensures Binary(op, Signed(x), Signed(y)) == Value(Signed(RingOp(op, x, y)))
  {
    SignedAdd(x, y);
    SignedMul(x, y);
  }

  lemma BinaryEval(m: Meaning, op: BinaryOpcode, l: Expr, r: Expr, a: i64, b: i64, v: i64)
    requires Eval(m, l).verdict == Value(a) && Eval(m, r).verdict == Value(b) && m.binary(op, a, b) == Value(v)
    ensures Eval(m, BinaryOp(op, l, r)).verdict == Value(v)
  {
  }

  /** Sums, differences and products come out as the exact result modulo 2^64. */
  lemma {:induction false} RingValueIsExactModulo(env: Env, e: Expr)
    requires IsRing(e)
    ensures Eval(MeaningOf(env), e).verdict == Value(Signed(Exact(e)))
  {
    if e.BinaryOp? {
      RingValueIsExactModulo(env, e.l);
      RingValueIsExactModulo(env, e.r);
      var x, y := Exact(e.l), Exact(e.r);
      RingOperator(e.opcode, x, y);
      BinaryEval(MeaningOf(env), e.opcode, e.l, e.r, Signed(x), Signed(y), Signed(RingOp(e.opcode, x, y)));
    }
  }
}
