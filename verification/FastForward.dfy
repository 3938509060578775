/** Fast-forwarding a REP string instruction (`fast_forward.rs`). */
module FastForward {
  import opened Words
  import opened StringInsn
  import opened RepLoops

  // ----- The string instructions

  /** Every register except the instruction pointer and the counter. */
  datatype Operands = Operands(si: u64, di: u64, ax: u64, df: bool, zf: bool, cf: bool, rest: seq<u64>)

  datatype Data = Data(ops: Operands, mem: Memory)

  /**
   * A string instruction occupying the bytes from address `at` up to `limit`; `repne` tells a REPNE
   * (F2) from a REPE (F3) prefix. The pointers of a 32-bit tracee have 32 bits.
   */
  datatype RepInsn = RepInsn(arch: Arch, at: u64, limit: u64, op: StringOp, size: nat, repne: bool) {
    predicate Valid() {
      limit != at && size in {1, 2, 4, 8}
    }
  }

  function Wrap64(a: int): u64 {
    a % TWO_64
  }

  function Wrap(arch: Arch, a: int): u64 {
    a % Width(arch)
  }

  function ReadBytes(arch: Arch, mem: Memory, a: int, n: nat): (s: seq<byte>)
    ensures |s| == n
  {
    if n == 0 then []
    else
      var last := Wrap(arch, a + n - 1);
      ReadBytes(arch, mem, a, n - 1) + [if last in mem then mem[last] else 0]
  }

  function WriteBytes(arch: Arch, mem: Memory, a: int, s: seq<byte>): Memory {
    if s == [] then mem
    else WriteBytes(arch, mem, a, s[..|s| - 1])[Wrap(arch, a + |s| - 1) := s[|s| - 1]]
  }

  function Advance(arch: Arch, p: u64, size: nat, df: bool): u64 {
    Wrap(arch, if df then p - size else p + size)
  }

  function Compare(r: Operands, a: seq<byte>, b: seq<byte>): Operands {
    r.(zf := a == b, cf := FromLittleEndian(a) < FromLittleEndian(b))
  }

  /** LODS replaces the low bytes of the accumulator; a 4-byte load clears the rest. */
  function LoadAccumulator(ax: u64, v: seq<byte>): u64 {
    var bytes := ToLittleEndian(ax, 8);
    if |v| == 4 || |v| > 8 then FromLittleEndian(v) % TWO_64
    else FromLittleEndian(v + bytes[|v|..]) % TWO_64
  }

  /** The data part of one iteration. */
  function Body(x: RepInsn, d: Data): Data {
    var r := d.ops;
    var si, di := Advance(x.arch, r.si, x.size, r.df), Advance(x.arch, r.di, x.size, r.df);
    var atSi, atDi := ReadBytes(x.arch, d.mem, r.si, x.size), ReadBytes(x.arch, d.mem, r.di, x.size);
    var acc := if x.size <= 8 then ToLittleEndian(r.ax, 8)[..x.size] else [];
    match x.op
    case Movs => Data(r.(si := si, di := di), WriteBytes(x.arch, d.mem, r.di, atSi))
    case Stos => Data(r.(di := di), WriteBytes(x.arch, d.mem, r.di, acc))
    case Lods => Data(r.(si := si, ax := LoadAccumulator(r.ax, atSi)), d.mem)
    case Cmps => Data(Compare(r, atSi, atDi).(si := si, di := di), d.mem)
    case Scas => Data(Compare(r, acc, atDi).(di := di), d.mem)
  }

  /** REPE stops on a difference and REPNE on a match; the other instructions look at the counter only. */
  predicate FlagExit(x: RepInsn, r: Operands) {
    ComparesFlags(x.op) && r.zf == x.repne
  }

  function LoopOf(x: RepInsn): RepLoop<Data> {
    RepLoop(x.at, x.limit, d => Body(x, d), (d: Data) => FlagExit(x, d.ops))
  }

  predicate UsesSi(op: StringOp) {
    op.Movs? || op.Cmps? || op.Lods?
  }

  predicate UsesDi(op: StringOp) {
    !op.Lods?
  }

  /** What the fast-forward loop relies on: comparing instructions write no memory, and only they exit early. */
  ghost predicate Respects(l: RepLoop<Data>, x: RepInsn) {
    && l.at == x.at
    && l.limit == x.limit
    && (ComparesFlags(x.op) ==> forall d: Data :: l.body(d).mem == d.mem)
    && (!ComparesFlags(x.op) ==> forall d: Data :: !l.exits(d))
  }

  lemma StringLoopRespects(x: RepInsn)
    ensures Respects(LoopOf(x), x)
  {
  }

  lemma {:induction false} ComparesKeepMemory(l: RepLoop<Data>, x: RepInsn, c: Cpu<Data>, n: nat)
    requires Respects(l, x) && ComparesFlags(x.op)
    ensures Steps(l, c, n).data.mem == c.data.mem
  {
    if n > 0 {
      ComparesKeepMemory(l, x, c, n - 1);
    }
  }

  // ----- Bounding the iterations by register states to avoid

  datatype Regs = Regs(ip: u64, cx: u64, ops: Operands)

  function Registers(c: Cpu<Data>): Regs {
    Regs(c.ip, c.cx, c.data.ops)
  }

  /** How many iterations may run, starting with counter `cur`, without entering `state`. */
  function StateLimit(x: RepInsn, state: Regs, cur: u64): Option<nat> {
    if state.ip == x.at then
      if state.cx == 0 || state.cx >= cur then None else Some(cur - state.cx - 1)
    else if state.ip == x.limit then
      if state.cx >= cur then None else Some(cur - state.cx - 1)
    else None
  }

  function MinOpt(n: nat, limit: Option<nat>): nat {
    if limit.Some? && limit.value < n then limit.value else n
  }

  function StateBound(x: RepInsn, states: seq<Regs>, cur: u64): (n: nat)
    requires cur > 0
    ensures n < cur
  {
    if states == [] then cur - 1
    else MinOpt(StateBound(x, states[..|states| - 1], cur), StateLimit(x, states[|states| - 1], cur))
  }

  lemma {:induction false} StateBoundBelow(x: RepInsn, states: seq<Regs>, cur: u64, k: nat)
    requires cur > 0 && k < |states|
    ensures StateLimit(x, states[k], cur).Some? ==> StateBound(x, states, cur) <= StateLimit(x, states[k], cur).value
  {
    if k < |states| - 1 {
      StateBoundBelow(x, states[..|states| - 1], cur, k);
    }
  }

  /** No state passed through within the bound is one of `states`. */
  lemma StatesAvoided(l: RepLoop<Data>, x: RepInsn, c: Cpu<Data>, states: seq<Regs>, i: nat)
    requires Respects(l, x) && c.ip == x.at && c.cx > 0
    requires 0 < i <= StateBound(x, states, c.cx) && Steps(l, c, i).ip == x.at
    ensures Registers(Steps(l, c, i)) !in states
  {
    DoctoredSteps(l, c, c.cx, i);
    var state := Registers(Steps(l, c, i));
    if state in states {
      var k :| 0 <= k < |states| && states[k] == state;
      StateBoundBelow(x, states, c.cx, k);
      assert false;
    }
  }

  // ----- Bounding the iterations by watchpoints

  datatype Watch = Watch(addr: u64, numBytes: nat)

  /** The source's `mem_intersect` on two ranges that are not empty. */
  predicate MemIntersect(a1: int, s1: int, a2: int, s2: int) {
    (if a1 > a2 then a1 else a2) < (if a1 + s1 < a2 + s2 then a1 + s1 else a2 + s2)
  }

  /** The start of the bytes iteration `i` accesses through a pointer that starts at `reg`. */
  function AccessAt(reg: int, size: nat, df: bool, i: nat): int {
    if df then reg - i * size else reg + i * size
  }

  predicate Touches(reg: int, size: nat, df: bool, w: Watch, i: nat) {
    MemIntersect(AccessAt(reg, size, df, i), size, w.addr, w.numBytes)
  }

  /** How many steps of `size` bytes fit into a gap. */
  function StepsIn(gap: nat, size: nat): (n: nat)
    requires size > 0
    ensures n * size <= gap < n * size + size
  {
    gap / size
  }

  /** Iterations that can run before the watchpoint is hit; `None` if it never is. */
  function WatchLimit(reg: u64, size: nat, df: bool, w: Watch): Option<nat>
    requires size > 0
  {
    if w.numBytes == 0 then None
    else if MemIntersect(reg, size, w.addr, w.numBytes) then Some(0)
    else if !df then
      if w.addr < reg then None else Some(StepsIn(w.addr - reg, size))
    else if w.addr > reg then None
    else Some(StepsIn(reg - (w.addr + w.numBytes), size) + 1)
  }

  /** An access `p` bytes away from where the pointer starts. */
  predicate TouchesAt(reg: int, size: nat, df: bool, w: Watch, p: nat) {
    MemIntersect(if df then reg - p else reg + p, size, w.addr, w.numBytes)
  }

  lemma ForwardTouch(reg: int, size: nat, w: Watch, p: nat)
    requires w.numBytes > 0 && p <= w.addr - reg < p + size
    ensures TouchesAt(reg, size, false, w, p)
  {
  }

  lemma ForwardMiss(reg: int, size: nat, w: Watch, p: nat)
    requires reg + p + size <= w.addr || w.addr + w.numBytes <= reg
    ensures !TouchesAt(reg, size, false, w, p)
  {
  }

  lemma BackwardTouch(reg: int, size: nat, w: Watch, p: nat)
    requires w.numBytes > 0 && p <= reg - (w.addr + w.numBytes) < p + size
    ensures TouchesAt(reg, size, true, w, p + size)
  {
  }

  lemma BackwardMiss(reg: int, size: nat, w: Watch, p: nat)
    requires w.addr + w.numBytes <= reg - p || reg + size <= w.addr
    ensures !TouchesAt(reg, size, true, w, p)
  {
  }

  /** The limit is the number of the first iteration that touches a watched byte, in either direction. */
  lemma WatchLimitIsFirstTouch(reg: u64, size: nat, df: bool, w: Watch)
    requires size > 0
    ensures
      match WatchLimit(reg, size, df, w)
      case None => forall i: nat :: !Touches(reg, size, df, w, i)
      case Some(n) => Touches(reg, size, df, w, n) && forall i: nat :: i < n ==> !Touches(reg, size, df, w, i)
  {
    var limit := WatchLimit(reg, size, df, w);
    forall i: nat | limit.None? || i < limit.value
      ensures !Touches(reg, size, df, w, i)
    {
      NotTouchedBefore(reg, size, df, w, i);
    }
    if limit.Some? {
      TouchedAtLimit(reg, size, df, w, limit.value);
    }
  }

  lemma NotTouchedBefore(reg: u64, size: nat, df: bool, w: Watch, i: nat)
    requires size > 0 && (WatchLimit(reg, size, df, w).Some? ==> i < WatchLimit(reg, size, df, w).value)
    ensures !Touches(reg, size, df, w, i)
  {
    if w.numBytes > 0 && !df {
      if w.addr >= reg {
        MulBelow(i, StepsIn(w.addr - reg, size), size);
      }
      ForwardMiss(reg, size, w, i * size);
    } else if w.numBytes > 0 {
      if w.addr <= reg {
        MulMonotone(i, StepsIn(reg - (w.addr + w.numBytes), size), size);
      }
      BackwardMiss(reg, size, w, i * size);
    }
  }

  lemma TouchedAtLimit(reg: u64, size: nat, df: bool, w: Watch, n: nat)
    requires size > 0 && WatchLimit(reg, size, df, w) == Some(n)
    ensures Touches(reg, size, df, w, n)
  {
    if MemIntersect(reg, size, w.addr, w.numBytes) {
      assert AccessAt(reg, size, df, 0) == reg;
    } else if !df {
      ForwardTouch(reg, size, w, n * size);
    } else {
      BackwardTouch(reg, size, w, (n - 1) * size);
      MulNext(n - 1, size);
    }
  }

  lemma MulMonotone(a: nat, b: nat, size: nat)
    requires a <= b
    ensures a * size <= b * size
  {
  }

  lemma MulBelow(a: nat, b: nat, size: nat)
    requires a < b
    ensures a * size + size <= b * size
  {
    MulMonotone(a + 1, b, size);
    MulNext(a, size);
  }

  lemma MulNext(i: int, size: nat)
    ensures (i + 1) * size == i * size + size
  {
  }

  /** The limits of every watchpoint on the pointers the decoder reports. */
  function WatchBound(d: Decoded, r: Operands, watches: seq<Watch>, n: nat): (m: nat)
    requires d.operandSize > 0
    ensures m <= n
  {
    if watches == [] then n
    else
      var w := watches[|watches| - 1];
      var n1 := WatchBound(d, r, watches[..|watches| - 1], n);
      var n2 := if d.usesSi then MinOpt(n1, WatchLimit(r.si, d.operandSize, r.df, w)) else n1;
      MinOpt(n2, WatchLimit(r.di, d.operandSize, r.df, w))
  }

  lemma {:induction false} WatchBoundBelow(d: Decoded, r: Operands, watches: seq<Watch>, n: nat, w: Watch)
    requires d.operandSize > 0 && w in watches
    ensures WatchBound(d, r, watches, n) == MinOpt(WatchBound(d, r, watches, n),
            WatchLimit(r.di, d.operandSize, r.df, w))
    ensures d.usesSi ==>
              WatchBound(d, r, watches, n) == MinOpt(WatchBound(d, r, watches, n),
                WatchLimit(r.si, d.operandSize, r.df, w))
  {
    if w != watches[|watches| - 1] {
      assert w in watches[..|watches| - 1];
      WatchBoundBelow(d, r, watches[..|watches| - 1], n, w);
    }
  }

  lemma {:induction false} WatchBoundOfMin(d: Decoded, r: Operands, watches: seq<Watch>, n: nat, m: nat)
    requires d.operandSize > 0 && m <= WatchBound(d, r, watches, n)
    ensures WatchBound(d, r, watches, m) == m
  {
    if watches != [] {
      WatchBoundOfMin(d, r, watches[..|watches| - 1], n, m);
    }
  }

  function Bound(x: RepInsn, d: Decoded, c: Cpu<Data>, states: seq<Regs>, watches: seq<Watch>): (n: nat)
    requires d.operandSize > 0 && c.cx > 0
    ensures n < c.cx
  {
    WatchBound(d, c.data.ops, watches, StateBound(x, states, c.cx))
  }

  // ----- What fast-forwarding arrives at

  /** What fast-forwarding itself needs the decoder to say about an instruction. */
  predicate Sees(d: Decoded, x: RepInsn) {
    d.operandSize > 0 && d.modifiesFlags == ComparesFlags(x.op)
  }

  /** What the decoder says about an instruction whose operand size it gets right. */
  predicate Describes(d: Decoded, x: RepInsn) {
    && Sees(d, x)
    && d.operandSize == x.size
    && d.usesSi == (x.op.Movs? || x.op.Cmps?)
  }

  /** Element `i` of the compared memory ends the loop; `d` is the data before the first iteration. */
  predicate ElementEnds(x: RepInsn, d: Data, i: nat) {
    var r := d.ops;
    var atSi := ReadBytes(x.arch, d.mem, AccessAt(r.si, x.size, r.df, i), x.size);
    var atDi := ReadBytes(x.arch, d.mem, AccessAt(r.di, x.size, r.df, i), x.size);
    var acc := if x.size <= 8 then ToLittleEndian(r.ax, 8)[..x.size] else [];
    ((if x.op.Cmps? then atSi else acc) == atDi) == x.repne
  }

  lemma {:induction false} ReadWrapped(arch: Arch, mem: Memory, a: int, b: int, n: nat)
    requires Wrap(arch, a) == Wrap(arch, b)
    ensures ReadBytes(arch, mem, a, n) == ReadBytes(arch, mem, b, n)
  {
    if n > 0 {
      ReadWrapped(arch, mem, a, b, n - 1);
      WrapShift(arch, a, b, n - 1);
    }
  }

  lemma WrapShift(arch: Arch, a: int, b: int, k: int)
    requires Wrap(arch, a) == Wrap(arch, b)
    ensures Wrap(arch, a + k) == Wrap(arch, b + k)
  {
    var w := Width(arch);
    ModShift(b + k, w, a / w - b / w);
    assert a + k == b + k + (a / w - b / w) * w;
  }

  /** The data of a comparing loop after `i` iterations: memory and accumulator as before, the pointers moved. */
  ghost predicate MovedTo(x: RepInsn, d: Data, i: nat, d': Data) {
    && d'.mem == d.mem && d'.ops.ax == d.ops.ax && d'.ops.df == d.ops.df
    && Wrap(x.arch, d'.ops.di) == Wrap(x.arch, AccessAt(d.ops.di, x.size, d.ops.df, i))
    && (x.op.Cmps? ==> Wrap(x.arch, d'.ops.si) == Wrap(x.arch, AccessAt(d.ops.si, x.size, d.ops.df, i)))
  }

  lemma WrapTwice(arch: Arch, a: int)
    ensures Wrap(arch, Wrap(arch, a)) == Wrap(arch, a)
  {
  }

  lemma NextAccess(reg: int, size: nat, df: bool, i: nat)
    ensures AccessAt(reg, size, df, i + 1) == AccessAt(reg, size, df, i) + if df then 0 - size else size
  {
    MulNext(i, size);
  }

  lemma AdvanceWrapped(arch: Arch, p: u64, reg: int, size: nat, df: bool, i: nat)
    requires Wrap(arch, p) == Wrap(arch, AccessAt(reg, size, df, i))
    ensures Wrap(arch, Advance(arch, p, size, df)) == Wrap(arch, AccessAt(reg, size, df, i + 1))
  {
    var k := if df then 0 - size else size;
    WrapShift(arch, p, AccessAt(reg, size, df, i), k);
    NextAccess(reg, size, df, i);
    WrapTwice(arch, p + k);
  }

  lemma BodyMoves(x: RepInsn, d: Data, i: nat, d': Data)
    requires ComparesFlags(x.op) && MovedTo(x, d, i, d')
    ensures MovedTo(x, d, i + 1, Body(x, d'))
    ensures FlagExit(x, Body(x, d').ops) <==> ElementEnds(x, d, i)
  {
    var r := d.ops;
    AdvanceWrapped(x.arch, d'.ops.di, r.di, x.size, r.df, i);
    ReadWrapped(x.arch, d.mem, d'.ops.di, AccessAt(r.di, x.size, r.df, i), x.size);
    if x.op.Cmps? {
      AdvanceWrapped(x.arch, d'.ops.si, r.si, x.size, r.df, i);
      ReadWrapped(x.arch, d.mem, d'.ops.si, AccessAt(r.si, x.size, r.df, i), x.size);
    }
  }

  lemma ComparesMoveOn(x: RepInsn, c: Cpu<Data>, i: nat)
    requires ComparesFlags(x.op) && c.ip == x.at && i < c.cx && Steps(LoopOf(x), c, i).ip == x.at
    ensures MovedTo(x, c.data, i, Steps(LoopOf(x), c, i).data) && Steps(LoopOf(x), c, i).cx == c.cx - i
  {
    forall k: nat, d | MovedTo(x, c.data, k, d)
      ensures MovedTo(x, c.data, k + 1, Body(x, d))
    {
      BodyMoves(x, c.data, k, d);
    }
    KeptAlong(LoopOf(x), c, (k: nat, d: Data) => MovedTo(x, c.data, k, d), i);
  }

  lemma ElementDecides(x: RepInsn, c: Cpu<Data>, i: nat)
    requires x.Valid() && ComparesFlags(x.op) && c.ip == x.at && i + 1 < c.cx && Steps(LoopOf(x), c, i).ip == x.at
    ensures Steps(LoopOf(x), c, i + 1).ip == x.at <==> !ElementEnds(x, c.data, i)
  {
    ComparesMoveOn(x, c, i);
    BodyMoves(x, c.data, i, Steps(LoopOf(x), c, i).data);
  }

  function EndsOf(x: RepInsn, d: Data): nat -> bool {
    (i: nat) => ElementEnds(x, d, i)
  }

  lemma ElementsDecide(x: RepInsn, c: Cpu<Data>)
    requires x.Valid() && ComparesFlags(x.op) && c.ip == x.at
    ensures DecidedBy(LoopOf(x), c, EndsOf(x, c.data))
  {
    forall i: nat | i + 1 < c.cx && Steps(LoopOf(x), c, i).ip == x.at
      ensures Steps(LoopOf(x), c, i + 1).ip == x.at <==> !ElementEnds(x, c.data, i)
    {
      ElementDecides(x, c, i);
    }
  }

  /**
   * The flags end the loop on the last permitted iteration just when, in the memory before the call, the last permitted
   * element ends a comparison and no element before it does.
   */
  lemma FlagExitOnLastIff(x: RepInsn, c: Cpu<Data>, n: nat)
    requires x.Valid() && c.ip == x.at && n < c.cx
    ensures FlagExitOnLast(LoopOf(x), c, n) <==>
            && ComparesFlags(x.op) && n > 0 && ElementEnds(x, c.data, n - 1)
            && forall i: nat :: i < n - 1 ==> !ElementEnds(x, c.data, i)
  {
    if ComparesFlags(x.op) {
      ElementsDecide(x, c);
      FlagExitOnLastWhen(LoopOf(x), c, EndsOf(x, c.data), n);
      assert forall i: nat :: EndsOf(x, c.data)(i) <==> ElementEnds(x, c.data, i);
    } else {
      CountedStays(LoopOf(x), c, n);
    }
  }

  /** REPE CMPSB of three bytes whose second pair differs. */
  const TWO_BYTES_EQUAL: Cpu<Data> :=
    Cpu(0, 3, Data(Operands(100, 200, 0, false, false, false, []),
                   map[100 := 7, 101 := 7, 200 := 7, 201 := 8]))

  /** The state reached then is none that single-stepping passes: it repeats an instruction that has ended. */
  lemma FlagExitOnLastHappens()
    ensures
      var x, c := RepInsn(X64, 0, 2, Cmps, 1, false), TWO_BYTES_EQUAL;
      && Bound(x, Decoded(1, 8, 2, true, true), c, [], []) == 2
      && FlagExitOnLast(LoopOf(x), c, 2)
      && Steps(LoopOf(x), c, 2).ip == x.limit
      && FastForwarded(LoopOf(x), c, 2).ip == x.at
  {
    var x, c := RepInsn(X64, 0, 2, Cmps, 1, false), TWO_BYTES_EQUAL;
    var l := LoopOf(x);
    assert ReadBytes(X64, c.data.mem, 100, 1) == [7] && ReadBytes(X64, c.data.mem, 200, 1) == [7];
    assert ReadBytes(X64, c.data.mem, 101, 1) == [7] && ReadBytes(X64, c.data.mem, 201, 1) == [8];
    assert Steps(l, c, 0) == c;
    assert Steps(l, c, 1) == Step(l, c);
    assert Steps(l, c, 1).ip == 0;
    assert Steps(l, c, 2) == Step(l, Steps(l, c, 1));
    assert Steps(l, c, 2).ip == 2;
  }

  // ----- Watchpoints within the bound

  /** The first `n` accesses through a pointer at `reg` stay inside the address space. */
  predicate NoWrap(arch: Arch, reg: u64, size: nat, df: bool, n: nat) {
    && reg + size <= Width(arch)
    && (n > 0 ==> 0 <= AccessAt(reg, size, df, n - 1) && AccessAt(reg, size, df, n - 1) + size <= Width(arch))
  }

  /** The pointers that the instruction uses. */
  predicate PointersInside(x: RepInsn, r: Operands, n: nat) {
    (UsesSi(x.op) ==> NoWrap(x.arch, r.si, x.size, r.df, n)) && (UsesDi(x.op) ==> NoWrap(x.arch, r.di, x.size, r.df, n))
  }

  lemma NoWrapAt(arch: Arch, reg: u64, size: nat, df: bool, n: nat, i: nat)
    requires NoWrap(arch, reg, size, df, n) && i < n
    ensures 0 <= AccessAt(reg, size, df, i) <= AccessAt(reg, size, df, i) + size <= Width(arch)
  {
    MulMonotone(i, n - 1, size);
    Inside(Width(arch), reg, size, df, i * size, (n - 1) * size);
  }

  /** Between its first and its last distance from `reg`, an access stays inside. */
  lemma Inside(width: nat, reg: int, size: nat, df: bool, near: nat, far: nat)
    requires 0 <= reg && reg + size <= width && near <= far
    requires if df then 0 <= reg - far else reg + far + size <= width
    ensures if df then 0 <= reg - near && reg - near + size <= width else reg + near + size <= width
  {
  }

  lemma BodyMovesPointers(x: RepInsn, d: Data)
    ensures Body(x, d).ops.df == d.ops.df
    ensures UsesSi(x.op) ==> Body(x, d).ops.si == Advance(x.arch, d.ops.si, x.size, d.ops.df)
    ensures UsesDi(x.op) ==> Body(x, d).ops.di == Advance(x.arch, d.ops.di, x.size, d.ops.df)
  {
  }

  lemma AdvanceInside(arch: Arch, reg: u64, size: nat, df: bool, n: nat, i: nat, p: u64)
    requires NoWrap(arch, reg, size, df, n) && 0 < i < n && size > 0
    requires p == AccessAt(reg, size, df, i - 1)
    ensures Advance(arch, p, size, df) == AccessAt(reg, size, df, i)
  {
    NoWrapAt(arch, reg, size, df, n, i);
    assert i * size == (i - 1) * size + size;
  }

  lemma {:induction false} PointersAdvance(x: RepInsn, c: Cpu<Data>, n: nat, i: nat)
    requires x.Valid() && c.ip == x.at && n <= c.cx && i < n
    requires Steps(LoopOf(x), c, i).ip == x.at
    requires PointersInside(x, c.data.ops, n)
    ensures
      var r, r' := c.data.ops, Steps(LoopOf(x), c, i).data.ops;
      && r'.df == r.df
      && (UsesSi(x.op) ==> r'.si == AccessAt(r.si, x.size, r.df, i))
      && (UsesDi(x.op) ==> r'.di == AccessAt(r.di, x.size, r.df, i))
  {
    if i > 0 {
      var r, before := c.data.ops, Steps(LoopOf(x), c, i - 1);
      PointersAdvance(x, c, n, i - 1);
      DoctoredSteps(LoopOf(x), c, c.cx, i - 1);
      BodyMovesPointers(x, before.data);
      if UsesSi(x.op) {
        AdvanceInside(x.arch, r.si, x.size, r.df, n, i, before.data.ops.si);
      }
      if UsesDi(x.op) {
        AdvanceInside(x.arch, r.di, x.size, r.df, n, i, before.data.ops.di);
      }
    }
  }

  predicate AccessesByte(x: RepInsn, r: Operands, a: int) {
    || (UsesSi(x.op) && r.si <= a < r.si + x.size)
    || (UsesDi(x.op) && r.di <= a < r.di + x.size)
  }

  lemma UntouchedByte(reg: u64, size: nat, df: bool, w: Watch, n: nat, i: nat, a: int)
    requires size > 0 && i < n && (WatchLimit(reg, size, df, w).Some? ==> n <= WatchLimit(reg, size, df, w).value)
    requires w.addr <= a < w.addr + w.numBytes
    ensures !(AccessAt(reg, size, df, i) <= a < AccessAt(reg, size, df, i) + size)
  {
    WatchLimitIsFirstTouch(reg, size, df, w);
    assert !Touches(reg, size, df, w, i);
  }

  /** A byte that smaller steps get to by iteration `i` is one that larger steps get to by then. */
  lemma SmallerSteps(reg: int, size: nat, big: nat, df: bool, i: nat, a: int) returns (j: nat)
    requires 0 < size <= big && AccessAt(reg, size, df, i) <= a < AccessAt(reg, size, df, i) + size
    ensures j <= i && AccessAt(reg, big, df, j) <= a < AccessAt(reg, big, df, j) + big
  {
    MulAtMost(i, size, big);
    if !df {
      j := StepsIn(a - reg, big);
      StepsWithin(a - reg, big, i);
    } else if a >= reg {
      j := 0;
    } else {
      j := StepsIn(reg - a - 1, big) + 1;
      StepsWithin(reg - a - 1, big, i - 1);
      MulNext(j - 1, big);
      MulNext(i - 1, big);
    }
  }

  lemma MulAtMost(i: nat, size: nat, big: nat)
    requires size <= big
    ensures i * size <= i * big
  {
  }

  lemma StepsWithin(gap: nat, size: nat, i: int)
    requires size > 0 && gap < i * size + size && i >= -1
    ensures StepsIn(gap, size) <= i
  {
    var n := StepsIn(gap, size);
    if n > i {
      MulMonotone(i + 1, n, size);
      MulNext(i, size);
    }
  }

  /** The limit of a larger size keeps smaller accesses off the watchpoint as well. */
  lemma UntouchedBySmaller(reg: u64, size: nat, big: nat, df: bool, w: Watch, n: nat, i: nat, a: int)
    requires 0 < size <= big && i < n && (WatchLimit(reg, big, df, w).Some? ==> n <= WatchLimit(reg, big, df, w).value)
    requires w.addr <= a < w.addr + w.numBytes
    ensures !(AccessAt(reg, size, df, i) <= a < AccessAt(reg, size, df, i) + size)
  {
    if AccessAt(reg, size, df, i) <= a < AccessAt(reg, size, df, i) + size {
      var j := SmallerSteps(reg, size, big, df, i, a);
      UntouchedByte(reg, big, df, w, n, j, a);
    }
  }

  /** What keeps an instruction off the watchpoints: the decoder reports its pointers and at least its size. */
  predicate Covers(d: Decoded, x: RepInsn) {
    Sees(d, x) && x.size <= d.operandSize && d.usesSi == (x.op.Movs? || x.op.Cmps?)
  }

  /** No iteration within the bound accesses a watched byte, for every instruction but LODS. */
  lemma WatchedBytesUntouched(x: RepInsn, d: Decoded, c: Cpu<Data>, states: seq<Regs>, watches: seq<Watch>, i: nat,
                              w: Watch, a: int)
    requires x.Valid() && Covers(d, x) && !x.op.Lods? && c.ip == x.at && c.cx > 0
    requires i < Bound(x, d, c, states, watches) && Steps(LoopOf(x), c, i).ip == x.at
    requires PointersInside(x, c.data.ops, Bound(x, d, c, states, watches))
    requires w in watches && w.addr <= a < w.addr + w.numBytes
    ensures !AccessesByte(x, Steps(LoopOf(x), c, i).data.ops, a)
  {
    var r, n := c.data.ops, Bound(x, d, c, states, watches);
    PointersAdvance(x, c, n, i);
    WatchBoundBelow(d, r, watches, StateBound(x, states, c.cx), w);
    UntouchedBySmaller(r.di, x.size, d.operandSize, r.df, w, n, i, a);
    if UsesSi(x.op) {
      UntouchedBySmaller(r.si, x.size, d.operandSize, r.df, w, n, i, a);
    }
  }

  /** No iteration of the first `n` accesses a byte of a watchpoint. */
  ghost predicate AvoidsWatches(x: RepInsn, c: Cpu<Data>, n: nat, watches: seq<Watch>) {
    forall i: nat, w, a {:trigger w in watches, AccessesByte(x, Steps(LoopOf(x), c, i).data.ops, a)} ::
      i < n && Steps(LoopOf(x), c, i).ip == x.at && w in watches && w.addr <= a < w.addr + w.numBytes ==>
        !AccessesByte(x, Steps(LoopOf(x), c, i).data.ops, a)
  }

  lemma BoundAvoidsWatches(x: RepInsn, d: Decoded, c: Cpu<Data>, states: seq<Regs>, watches: seq<Watch>)
    requires x.Valid() && Covers(d, x) && !x.op.Lods? && c.ip == x.at && c.cx > 0
    requires PointersInside(x, c.data.ops, Bound(x, d, c, states, watches))
    ensures AvoidsWatches(x, c, Bound(x, d, c, states, watches), watches)
  {
    forall i: nat, w, a |
      && i < Bound(x, d, c, states, watches) && Steps(LoopOf(x), c, i).ip == x.at
      && w in watches && w.addr <= a < w.addr + w.numBytes
      ensures !AccessesByte(x, Steps(LoopOf(x), c, i).data.ops, a)
    {
      WatchedBytesUntouched(x, d, c, states, watches, i, w, a);
    }
  }

  /**
   * LODS reads through SI, which the decoder does not report. Within the bound it reads no watched byte if and only
   * if the bound happens to be within the limit of SI.
   */
  lemma LodsUntouchedIff(x: RepInsn, d: Decoded, c: Cpu<Data>, states: seq<Regs>, watches: seq<Watch>, w: Watch)
    requires x.Valid() && Sees(d, x) && x.op.Lods? && c.ip == x.at && c.cx > 0
    requires PointersInside(x, c.data.ops, Bound(x, d, c, states, watches))
    ensures
      var n := Bound(x, d, c, states, watches);
      (forall i: nat, a {:trigger AccessesByte(x, Steps(LoopOf(x), c, i).data.ops, a)} ::
         i < n && w.addr <= a < w.addr + w.numBytes ==> !AccessesByte(x, Steps(LoopOf(x), c, i).data.ops, a)) <==>
      n == MinOpt(n, WatchLimit(c.data.ops.si, x.size, c.data.ops.df, w))
  {
    var r, n := c.data.ops, Bound(x, d, c, states, watches);
    var limit := WatchLimit(r.si, x.size, r.df, w);
    if limit.Some? && limit.value < n {
      var a := TouchedByte(r.si, x.size, r.df, w, limit.value);
      LodsReads(x, c, n, limit.value, a);
    } else {
      forall i: nat, a | i < n && w.addr <= a < w.addr + w.numBytes
        ensures !AccessesByte(x, Steps(LoopOf(x), c, i).data.ops, a)
      {
        LodsReads(x, c, n, i, a);
        UntouchedByte(r.si, x.size, r.df, w, n, i, a);
      }
    }
  }

  /** Iteration `i` of a LODS loop reads the bytes SI has got to by then. */
  lemma LodsReads(x: RepInsn, c: Cpu<Data>, n: nat, i: nat, a: int)
    requires x.Valid() && x.op.Lods? && c.ip == x.at && i < n < c.cx && PointersInside(x, c.data.ops, n)
    ensures
      var at := AccessAt(c.data.ops.si, x.size, c.data.ops.df, i);
      AccessesByte(x, Steps(LoopOf(x), c, i).data.ops, a) <==> at <= a < at + x.size
  {
    CountedStays(LoopOf(x), c, i);
    PointersAdvance(x, c, n, i);
  }

  /** The iteration at the limit touches a watched byte. */
  lemma TouchedByte(reg: u64, size: nat, df: bool, w: Watch, n: nat) returns (a: int)
    requires size > 0 && WatchLimit(reg, size, df, w) == Some(n)
    ensures w.addr <= a < w.addr + w.numBytes && AccessAt(reg, size, df, n) <= a < AccessAt(reg, size, df, n) + size
  {
    WatchLimitIsFirstTouch(reg, size, df, w);
    assert Touches(reg, size, df, w, n);
    var at := AccessAt(reg, size, df, n);
    a := if at > w.addr then at else w.addr;
  }

  /** LODSB of nine bytes. */
  const NINE_BYTES: Cpu<Data> :=
    Cpu(0, 9, Data(Operands(100, 900, 0, false, false, false, []),
                   map[100 := 1, 101 := 2, 102 := 3, 103 := 4, 104 := 5, 105 := 6, 106 := 7, 107 := 8, 108 := 9]))

  /** A LODSB whose second byte is watched is fast-forwarded across the watchpoint. */
  lemma LodsCrossesWatchpoint()
    ensures
      var x, c := RepInsn(X64, 0, 2, Lods, 1, false), NINE_BYTES;
      && Bound(x, Decoded(1, 8, 2, false, false), c, [], [Watch(101, 1)]) == 8
      && AccessesByte(x, Steps(LoopOf(x), c, 1).data.ops, 101)
  {
    var x, c := RepInsn(X64, 0, 2, Lods, 1, false), NINE_BYTES;
    var d, ws := Decoded(1, 8, 2, false, false), [Watch(101, 1)];
    assert ws[..0] == [];
    assert WatchLimit(900, 1, false, Watch(101, 1)) == None;
    assert StateBound(x, [], 9) == 8;
    assert WatchBound(d, c.data.ops, [], 8) == 8;
    assert WatchBound(d, c.data.ops, ws, 8) == 8;
    LodsReads(x, c, 8, 1, 101);
  }

  // ----- The watchpoint bound is tight

  /** A bound below the one from the states is the limit of some watchpoint on a pointer the decoder reports. */
  lemma {:induction false} WatchBoundIsALimit(d: Decoded, r: Operands, watches: seq<Watch>, n: nat) returns (w: Watch,
                                              si: bool)
    requires d.operandSize > 0 && WatchBound(d, r, watches, n) < n
    ensures w in watches && (si ==> d.usesSi)
    ensures WatchLimit(if si then r.si else r.di, d.operandSize, r.df, w) == Some(WatchBound(d, r, watches, n))
  {
    w := watches[|watches| - 1];
    var init := watches[..|watches| - 1];
    var m := WatchBound(d, r, watches, n);
    if WatchLimit(r.di, d.operandSize, r.df, w) == Some(m) {
      si := false;
    } else if d.usesSi && WatchLimit(r.si, d.operandSize, r.df, w) == Some(m) {
      si := true;
    } else {
      w, si := WatchBoundIsALimit(d, r, init, n);
    }
  }

  /** When watchpoints lower the bound, the first iteration that is not run would access a watched byte. */
  lemma WatchBoundIsTight(x: RepInsn, d: Decoded, c: Cpu<Data>, states: seq<Regs>,
                          watches: seq<Watch>) returns (w: Watch, a: int)
    requires x.Valid() && Describes(d, x) && !x.op.Lods? && c.ip == x.at && c.cx > 0
    requires
      var n := Bound(x, d, c, states, watches);
      && n < StateBound(x, states, c.cx) && Steps(LoopOf(x), c, n).ip == x.at
      && PointersInside(x, c.data.ops, n + 1)
    ensures w in watches && w.addr <= a < w.addr + w.numBytes
    ensures AccessesByte(x, Steps(LoopOf(x), c, Bound(x, d, c, states, watches)).data.ops, a)
  {
    var r, n := c.data.ops, Bound(x, d, c, states, watches);
    var si;
    w, si := WatchBoundIsALimit(d, r, watches, StateBound(x, states, c.cx));
    a := TouchedByte(if si then r.si else r.di, x.size, r.df, w, n);
    IterationAccesses(x, c, n, si, a);
  }

  /** Iteration `n` accesses the bytes that a pointer it uses has got to by then. */
  lemma IterationAccesses(x: RepInsn, c: Cpu<Data>, n: nat, si: bool, a: int)
    requires x.Valid() && c.ip == x.at && n < c.cx && Steps(LoopOf(x), c, n).ip == x.at
    requires PointersInside(x, c.data.ops, n + 1) && if si then UsesSi(x.op) else UsesDi(x.op)
    requires
      var at := AccessAt(if si then c.data.ops.si else c.data.ops.di, x.size, c.data.ops.df, n);
      at <= a < at + x.size
    ensures AccessesByte(x, Steps(LoopOf(x), c, n).data.ops, a)
  {
    PointersAdvance(x, c, n + 1, n);
  }

  // ----- The fast-forward loop

  datatype FastForwardStatus = FastForwardStatus(didFastForward: bool, incompleteFastForward: bool)

  class Tracee {
    var cpu: Cpu<Data>

    /** The kernel resumes the tracee, which runs into the breakpoint behind the instruction. */
    method ResumeToBreakpoint(l: RepLoop<Data>, breakpoint: u64)
      requires l.limit != l.at == cpu.ip && breakpoint == l.limit
      modifies this
      ensures cpu == RunToLimit(l, old(cpu)) && cpu.ip == breakpoint
    {
      while cpu.ip != breakpoint
        invariant RunToLimit(l, cpu) == RunToLimit(l, old(cpu)) && (cpu.ip == l.at || cpu.ip == l.limit)
        decreases cpu.cx + if cpu.ip == l.at then 1 else 0
      {
        cpu := Step(l, cpu);
      }
    }
  }

  method BoundByStates(ip: u64, limitIp: u64, cur: u64, states: seq<Regs>, extra: Option<Regs>, ghost x: RepInsn)
    returns (iterations: nat)
    requires cur > 0 && x.Valid() && ip == x.at && limitIp == x.limit
    ensures iterations == StateBound(x, if extra.Some? then states + [extra.value] else states, cur)
  {
    iterations := cur - 1;
    var all := if extra.Some? then states + [extra.value] else states;
    for j := 0 to |all|
      invariant iterations == StateBound(x, all[..j], cur)
    {
      assert all[..j + 1][..j] == all[..j];
      var state := all[j];
      if state.ip == ip {
        if state.cx == 0 || state.cx >= cur {
          continue;
        }
        iterations := MinOpt(iterations, Some(cur - state.cx - 1));
      } else if state.ip == limitIp {
        if state.cx >= cur {
          continue;
        }
        iterations := MinOpt(iterations, Some(cur - state.cx - 1));
      }
    }
    assert all[..|all|] == all;
  }

  /** The source assumes that neither range wraps around. */
  method BoundIterationsForWatchpoint(reg: u64, d: Decoded, df: bool, w: Watch, iterations: nat) returns (n: nat)
    requires d.operandSize > 0
    requires w.numBytes > 0 ==> reg + d.operandSize <= TWO_64 && w.addr + w.numBytes <= TWO_64
    ensures n == MinOpt(iterations, WatchLimit(reg, d.operandSize, df, w))
  {
    if w.numBytes == 0 {
      return iterations;
    }
    var size := d.operandSize;
    if MemIntersect(reg, size, w.addr, w.numBytes) {
      return 0;
    }
    var steps: nat;
    if !df {
      if w.addr < reg {
        return iterations;
      }
      steps := StepsIn(w.addr - reg, size);
    } else {
      if w.addr > reg {
        return iterations;
      }
      steps := StepsIn(reg - (w.addr + w.numBytes), size) + 1;
    }
    n := MinOpt(iterations, Some(steps));
  }

  predicate RangesFit(d: Decoded, r: Operands, watches: seq<Watch>) {
    forall w <- watches :: w.numBytes > 0 ==>
      && w.addr + w.numBytes <= TWO_64
      && r.di + d.operandSize <= TWO_64
      && (d.usesSi ==> r.si + d.operandSize <= TWO_64)
  }

  method BoundByWatchpoints(d: Decoded, r: Operands, watches: seq<Watch>, iterations: nat) returns (n: nat)
    requires d.operandSize > 0 && RangesFit(d, r, watches)
    ensures n == WatchBound(d, r, watches, iterations)
  {
    n := iterations;
    for j := 0 to |watches|
      invariant n == WatchBound(d, r, watches[..j], iterations)
    {
      assert watches[..j + 1][..j] == watches[..j];
      if d.usesSi {
        n := BoundIterationsForWatchpoint(r.si, d, r.df, watches[j], n);
      }
      n := BoundIterationsForWatchpoint(r.di, d, r.df, watches[j], n);
    }
    assert watches[..|watches|] == watches;
  }

  /** Adding the state a first run exited in lowers the bound to just before that exit. */
  lemma BoundWithExit(x: RepInsn, d: Decoded, c: Cpu<Data>, states: seq<Regs>, watches: seq<Watch>, exit: Regs)
    requires x.Valid() && d.operandSize > 0 && c.cx > 0
    requires exit.ip == x.limit && exit.cx < c.cx
    requires c.cx - exit.cx <= Bound(x, d, c, states, watches)
    ensures Bound(x, d, c, states + [exit], watches) == c.cx - exit.cx - 1
  {
    var m := c.cx - exit.cx - 1;
    assert (states + [exit])[..|states|] == states;
    assert StateBound(x, states + [exit], c.cx) == m;
    WatchBoundOfMin(d, c.data.ops, watches, StateBound(x, states, c.cx), m);
  }

  /**
   * Runs at most `iterations` iterations. After an early exit the registers it ended in are returned, and
   * those of the tracee are reset; its memory stays as the run left it.
   */
  method Pass(t: Tracee, l: RepLoop<Data>, limitIp: u64, d: Decoded, iterations: nat) returns (exit: Option<Regs>)
    requires l.limit != l.at == t.cpu.ip && limitIp == l.limit && 0 < iterations <= t.cpu.cx
    modifies t
    ensures
      var c, f := old(t.cpu), RunToLimit(l, old(t.cpu).(cx := iterations));
      var left := c.cx - (iterations - f.cx);
      if d.modifiesFlags && f.cx > 0
      then exit == Some(Regs(l.limit, left, f.data.ops)) && t.cpu == Cpu(c.ip, c.cx, Data(c.data.ops, f.data.mem))
      else exit == None && t.cpu == Cpu(c.ip, left, f.data)
  {
    var saved := t.cpu;
    t.cpu := t.cpu.(cx := iterations);
    t.ResumeToBreakpoint(l, limitIp);
    var performed := iterations - t.cpu.cx;
    if d.modifiesFlags && t.cpu.cx > 0 {
      exit := Some(Regs(limitIp, saved.cx - performed, t.cpu.data.ops));
      t.cpu := Cpu(saved.ip, saved.cx, Data(saved.data.ops, t.cpu.data.mem));
    } else {
      exit := None;
      t.cpu := Cpu(saved.ip, saved.cx - performed, t.cpu.data);
    }
  }

  /** The loop at the heart of fast-forwarding, entered after a single-step that stayed in the instruction. */
  method FastForwardLoop(t: Tracee, l: RepLoop<Data>, limitIp: u64, d: Decoded, states: seq<Regs>, watches: seq<Watch>,
                         ghost x: RepInsn)
    returns (status: FastForwardStatus)
    requires x.Valid() && Respects(l, x) && Sees(d, x) && t.cpu.ip == x.at && limitIp == x.limit
    requires RangesFit(d, t.cpu.data.ops, watches)
    modifies t
    ensures old(t.cpu.cx) == 0 ==> t.cpu == old(t.cpu) && status == FastForwardStatus(false, false)
    ensures old(t.cpu.cx) > 0 ==>
              var n := Bound(x, d, old(t.cpu), states, watches);
              t.cpu == FastForwarded(l, old(t.cpu), n) && status == FastForwardStatus(n > 0, true)
  {
    ghost var c := t.cpu;
    ghost var n := if c.cx > 0 then Bound(x, d, c, states, watches) else 0;
    ghost var s := Stays(l, c, n);
    var extra: Option<Regs> := None;
    status := FastForwardStatus(false, false);
    while true
      invariant t.cpu == c
      invariant extra.None? ==> status == FastForwardStatus(false, false)
      invariant extra.Some? ==>
                  && status == FastForwardStatus(true, true)
                  && c.cx > 0 && s + 1 < n
                  && extra.value.ip == x.limit && extra.value.cx == c.cx - s - 1
      decreases extra.None?
    {
      var curCx := t.cpu.cx;
      if curCx == 0 {
        return;
      }
      status := status.(incompleteFastForward := true);
      var iterations := BoundByStates(t.cpu.ip, limitIp, curCx, states, extra, x);
      iterations := BoundByWatchpoints(d, t.cpu.data.ops, watches, iterations);
      if extra.Some? {
        BoundWithExit(x, d, c, states, watches, extra.value);
        assert iterations == s;
      }
      if iterations == 0 {
        return;
      }
      RunOutcome(l, c, n, iterations);
      var exit := Pass(t, l, limitIp, d, iterations);
      status := status.(didFastForward := true);
      if exit.Some? {
        assert extra.None?;
        ComparesKeepMemory(l, x, c, s + 1);
        extra := exit;
        continue;
      }
      return;
    }
  }

  /** Neither the state the loop starts in nor any it passes through is one of `states`. */
  lemma NoStateMissed(l: RepLoop<Data>, x: RepInsn, d: Decoded, c: Cpu<Data>, states: seq<Regs>, watches: seq<Watch>,
                      i: nat)
    requires x.Valid() && Respects(l, x) && Sees(d, x) && c.ip == x.at && c.cx > 0
    requires Registers(c) !in states && i <= Stays(l, c, Bound(x, d, c, states, watches))
    ensures Registers(Steps(l, c, i)) !in states
  {
    if i > 0 {
      LeavesOnce(l, c, i, Stays(l, c, Bound(x, d, c, states, watches)));
      StatesAvoided(l, x, c, states, i);
    }
  }

  /** Nor is the state it stops in, even after a flag exit on the last permitted iteration. */
  lemma StopIsAvoided(l: RepLoop<Data>, x: RepInsn, d: Decoded, c: Cpu<Data>, states: seq<Regs>, watches: seq<Watch>)
    requires x.Valid() && Respects(l, x) && Sees(d, x) && c.ip == x.at && c.cx > 0 && Registers(c) !in states
    ensures Registers(FastForwarded(l, c, Bound(x, d, c, states, watches))) !in states
  {
    var n := Bound(x, d, c, states, watches);
    if FlagExitOnLast(l, c, n) {
      RefinesSingleStepping(l, c, n);
      DoctoredSteps(l, c, c.cx, n - 1);
      LeavesOnce(l, c, n - 1, Stays(l, c, n));
      CounterAvoided(x, states, c.cx, n, Registers(FastForwarded(l, c, n)));
    } else {
      NoStateMissed(l, x, d, c, states, watches, Stays(l, c, n));
    }
  }

  /** No avoided state at the instruction has the counter left after as many iterations as the bound allows. */
  lemma CounterAvoided(x: RepInsn, states: seq<Regs>, cur: u64, n: nat, state: Regs)
    requires 0 < cur && 0 < n <= StateBound(x, states, cur) && state.ip == x.at && state.cx == cur - n
    ensures state !in states
  {
    if state in states {
      var k :| 0 <= k < |states| && states[k] == state;
      StateBoundBelow(x, states, cur, k);
      assert false;
    }
  }

  /** What the decoder makes of the bytes read at the instruction pointer, when it gets to an opcode. */
  function DecodedAt(arch: Arch, buf: seq<byte>): Decoded
    requires ReachesOpcode(arch, buf)
  {
    var n := PrefixLength(arch, buf);
    Describe(buf[..n], buf[n])
  }

  /** The instruction at `ip` is worth fast-forwarding after the single-step that led to `c`. */
  predicate Worthwhile(arch: Arch, ip: u64, c: Cpu<Data>, stoppedEarly: bool, states: seq<Regs>,
                       buf: Option<seq<byte>>) {
    !stoppedEarly && c.ip == ip && Registers(c) !in states && buf.Some? && ReachesOpcode(arch, buf.value)
  }

  /** Of several REP prefixes the processor goes by the last. */
  predicate RepneIsLast(prefixes: seq<byte>) {
    && prefixes != []
    && var b := prefixes[|prefixes| - 1];
    && (b == 0xF2 || (b != 0xF3 && RepneIsLast(prefixes[..|prefixes| - 1])))
  }

  /** The operand size the processor uses: REX.W counts only right before the opcode. */
  function ProcessorSize(prefixes: seq<byte>, b: byte): nat {
    if b % 2 == 0 then 1
    else if prefixes != [] && prefixes[|prefixes| - 1] == 0x48 then 8
    else if 0x66 in prefixes then 2
    else 4
  }

  /** The instruction that the bytes at `ip` encode. */
  function EncodedAt(arch: Arch, ip: u64, buf: seq<byte>): RepInsn
    requires ReachesOpcode(arch, buf)
  {
    var n := PrefixLength(arch, buf);
    RepInsn(arch, ip, Wrap64(ip + n + 1), OpOf(buf[n]), ProcessorSize(buf[..n], buf[n]), RepneIsLast(buf[..n]))
  }

  const MAX_INSTRUCTION: nat := 32

  /** The decoder gets the end of the instruction, its flags and its pointers right. */
  lemma DecoderSees(arch: Arch, ip: u64, buf: seq<byte>)
    requires ReachesOpcode(arch, buf) && |buf| <= MAX_INSTRUCTION
    ensures
      var x, d := EncodedAt(arch, ip, buf), DecodedAt(arch, buf);
      && x.Valid() && Sees(d, x) && Wrap64(ip + d.length) == x.limit
      && d.usesSi == (x.op.Movs? || x.op.Cmps?)
  {
    var n := PrefixLength(arch, buf);
    ModShift(ip + n + 1, TWO_64, -1);
  }

  /** It never reports less than the operand size, so its bound is safe even where the size is wrong. */
  lemma DecoderCovers(arch: Arch, ip: u64, buf: seq<byte>)
    requires ReachesOpcode(arch, buf) && |buf| <= MAX_INSTRUCTION
    ensures Covers(DecodedAt(arch, buf), EncodedAt(arch, ip, buf))
  {
    var n := PrefixLength(arch, buf);
    DecoderSees(arch, ip, buf);
    assert n > 0 ==> buf[..n][n - 1] in buf[..n];
  }

  /**
   * It gets the operand size right exactly when a REX.W prefix of a wide instruction stands right before the
   * opcode.
   */
  lemma DecoderDescribesIff(arch: Arch, ip: u64, buf: seq<byte>)
    requires ReachesOpcode(arch, buf) && |buf| <= MAX_INSTRUCTION
    ensures
      var n := PrefixLength(arch, buf);
      Describes(DecodedAt(arch, buf), EncodedAt(arch, ip, buf)) <==>
      buf[n] % 2 == 0 || 0x48 !in buf[..n] || buf[n - 1] == 0x48
  {
    var n := PrefixLength(arch, buf);
    DecoderSees(arch, ip, buf);
    assert n > 0;
    assert buf[..n][n - 1] == buf[n - 1];
  }

  /** REX.W before REP MOVSL: the processor moves four bytes at a time and the decoder says eight. */
  lemma RexBeforeRepIsMisread()
    ensures
      var buf := [0x48, 0xF3, 0xA5];
      && ReachesOpcode(X64, buf)
      && DecodedAt(X64, buf).operandSize == 8 && EncodedAt(X64, 0, buf).size == 4
  {
    var buf: seq<byte> := [0x48, 0xF3, 0xA5];
    assert buf[1..] == [0xF3, 0xA5] && buf[1..][1..] == [0xA5];
    assert PrefixLength(X64, buf) == 2;
    assert buf[..2] == [0x48, 0xF3];
  }

  /**
   * With `n` iterations at once, no avoided state is passed through or stopped in, and, unless a pointer wraps
   * around or it is a LODS, no watched byte is accessed.
   */
  ghost predicate MissesNothing(x: RepInsn, c: Cpu<Data>, n: nat, states: seq<Regs>, watches: seq<Watch>) {
    && Registers(FastForwarded(LoopOf(x), c, n)) !in states
    && (forall i: nat :: i <= Stays(LoopOf(x), c, n) ==> Registers(Steps(LoopOf(x), c, i)) !in states)
    && (!x.op.Lods? && PointersInside(x, c.data.ops, n) ==> AvoidsWatches(x, c, n, watches))
  }

  lemma BoundMissesNothing(arch: Arch, ip: u64, buf: seq<byte>, c: Cpu<Data>, states: seq<Regs>, watches: seq<Watch>)
    requires ReachesOpcode(arch, buf) && |buf| <= MAX_INSTRUCTION && c.ip == ip && c.cx > 0 && Registers(c) !in states
    ensures
      var x, d := EncodedAt(arch, ip, buf), DecodedAt(arch, buf);
      d.operandSize > 0 && MissesNothing(x, c, Bound(x, d, c, states, watches), states, watches)
  {
    var x, d := EncodedAt(arch, ip, buf), DecodedAt(arch, buf);
    DecoderSees(arch, ip, buf);
    DecoderCovers(arch, ip, buf);
    StringLoopRespects(x);
    var l, n := LoopOf(x), Bound(x, d, c, states, watches);
    StopIsAvoided(l, x, d, c, states, watches);
    forall i: nat | i <= Stays(l, c, n)
      ensures Registers(Steps(l, c, i)) !in states
    {
      NoStateMissed(l, x, d, c, states, watches, i);
    }
    if !x.op.Lods? && PointersInside(x, c.data.ops, n) {
      BoundAvoidsWatches(x, d, c, states, watches);
    }
  }

  /**
   * The whole of fast-forwarding. `t` has made one single-step from `ip`; `trapped`, `breakpointAtIp` and
   * `watchFired` say how that ended, and `buf` holds the instruction bytes unless they cannot be read.
   * The source refuses an address-size prefix.
   */
  method FastForwardThroughInstruction(t: Tracee, arch: Arch, ip: u64, trapped: bool, breakpointAtIp: bool,
                                       watchFired: bool,
                                       buf: Option<seq<byte>>, states: seq<Regs>, watches: seq<Watch>)
    returns (status: FastForwardStatus)
    requires buf.Some? ==> |buf.value| <= MAX_INSTRUCTION && !OnlyPrefixes(arch, buf.value)
    requires buf.Some? && ReachesOpcode(arch, buf.value) ==>
               && DecodedAt(arch, buf.value).addressSize == 8
               && RangesFit(DecodedAt(arch, buf.value), t.cpu.data.ops, watches)
    modifies t
    ensures
      var c, stoppedEarly := old(t.cpu), !trapped || breakpointAtIp || watchFired;
      if !Worthwhile(arch, ip, c, stoppedEarly, states, buf) || c.cx == 0 then
        t.cpu == c && status == FastForwardStatus(false, false)
      else
        var x := EncodedAt(arch, ip, buf.value);
        var n := Bound(x, DecodedAt(arch, buf.value), c, states, watches);
        && t.cpu == FastForwarded(LoopOf(x), c, n)
        && status == FastForwardStatus(n > 0, true)
        && MissesNothing(x, c, n, states, watches)
  {
    status := FastForwardStatus(false, false);
    if !trapped || t.cpu.ip != ip || breakpointAtIp || watchFired {
      return;
    }
    for j := 0 to |states|
      invariant Registers(t.cpu) !in states[..j]
    {
      if states[j] == Registers(t.cpu) {
        return;
      }
    }
    assert states[..|states|] == states;
    if buf.None? {
      return;
    }
    var decoded := DecodeX86StringInstruction(arch, buf.value);
    if decoded.None? {
      return;
    }
    status := ForwardDecoded(t, arch, ip, buf.value, decoded.value, states, watches);
  }

  /** From the decoded instruction on: its end is computed from the length the decoder reports. */
  method ForwardDecoded(t: Tracee, arch: Arch, ip: u64, buf: seq<byte>, d: Decoded, states: seq<Regs>,
                        watches: seq<Watch>)
    returns (status: FastForwardStatus)
    requires ReachesOpcode(arch, buf) && |buf| <= MAX_INSTRUCTION && d == DecodedAt(arch, buf)
    requires t.cpu.ip == ip && Registers(t.cpu) !in states && RangesFit(d, t.cpu.data.ops, watches)
    modifies t
    ensures old(t.cpu.cx) == 0 ==> t.cpu == old(t.cpu) && status == FastForwardStatus(false, false)
    ensures old(t.cpu.cx) > 0 ==>
              var x, c := EncodedAt(arch, ip, buf), old(t.cpu);
              var n := Bound(x, d, c, states, watches);
              && t.cpu == FastForwarded(LoopOf(x), c, n) && status == FastForwardStatus(n > 0, true)
              && MissesNothing(x, c, n, states, watches)
  {
    ghost var c := t.cpu;
    var x := EncodedAt(arch, ip, buf);
    var limitIp := Wrap64(ip + d.length);
    DecoderSees(arch, ip, buf);
    StringLoopRespects(x);
    status := FastForwardLoop(t, LoopOf(x), limitIp, d, states, watches, x);
    if c.cx > 0 {
      BoundMissesNothing(arch, ip, buf, c, states, watches);
    }
  }
}
