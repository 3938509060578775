/** `seccomp_filter_rewriter.rs`: rewriting installed filters so that the tracer sees every result. */
module SeccompRewriter {
  import opened Words
  import opened Bpf

  /** Custom data values start here, above anything a PTRACE_EVENT_EXIT message can hold. */
  const BASE_CUSTOM_DATA: u32 := 0x100
  const CAPACITY: nat := SECCOMP_RET_DATA - BASE_CUSTOM_DATA

  /** The two-way map between filter results and the 16-bit data values that stand for them. */
  datatype Table = Table(resultToIndex: map<u32, u16>, indexToResult: seq<u32>)

  const EMPTY_TABLE := Table(map[], [])

  /** The two directions are mutually inverse and dense, and ALLOW is never in them. */
  ghost predicate ValidTable(t: Table) {
    && (forall v <- t.resultToIndex ::
          t.resultToIndex[v] < |t.indexToResult| && t.indexToResult[t.resultToIndex[v]] == v)
    && (forall i :: 0 <= i < |t.indexToResult| ==>
          t.indexToResult[i] in t.resultToIndex && t.resultToIndex[t.indexToResult[i]] == i)
    && SECCOMP_RET_ALLOW !in t.resultToIndex
    && |t.indexToResult| <= CAPACITY
  }

  // ----- Rewriting one instruction and a whole program

  datatype Rewrite<T> =
    | Rewritten(table: Table, code: T)
    | Unsupported   // a return of the A or X register
    | TooMany       // no data value left

  predicate IsReturn(i: SockFilter) {
    BpfClass(i.code) == BPF_RET
  }

  predicate ReturnsConstant(i: SockFilter) {
    BpfRval(i.code) == BPF_K
  }

  function TraceWith(index: u16): u32 {
    Bitwise32(Or, BASE_CUSTOM_DATA + index, SECCOMP_RET_TRACE)
  }

  function Intern(t: Table, v: u32): (t': Table)
    requires ValidTable(t) && v != SECCOMP_RET_ALLOW
    requires v in t.resultToIndex || |t.indexToResult| < CAPACITY
    ensures ValidTable(t') && t.indexToResult <= t'.indexToResult
    ensures t'.resultToIndex.Keys == t.resultToIndex.Keys + {v}
  {
    if v in t.resultToIndex then t
    else Table(t.resultToIndex[v := |t.indexToResult|], t.indexToResult + [v])
  }

  function RewriteInsn(t: Table, i: SockFilter): Rewrite<SockFilter>
    requires ValidTable(t)
  {
    if !IsReturn(i) then Rewritten(t, i)
    else if !ReturnsConstant(i) then Unsupported
    else if i.k == SECCOMP_RET_ALLOW then Rewritten(t, i)
    else if i.k !in t.resultToIndex && |t.indexToResult| >= CAPACITY then TooMany
    else
      var t' := Intern(t, i.k);
      Rewritten(t', i.(k := TraceWith(t'.resultToIndex[i.k])))
  }

  /** Rewrites one more instruction after a rewrite that has come as far as `r`. */
  function Then(r: Rewrite<seq<SockFilter>>, i: SockFilter): (r': Rewrite<seq<SockFilter>>)
    requires r.Rewritten? ==> ValidTable(r.table)
    ensures r'.Rewritten? ==> r.Rewritten? && ValidTable(r'.table) && r.table.indexToResult <= r'.table.indexToResult
  {
    if !r.Rewritten? then r
    else
      match RewriteInsn(r.table, i)
      case Rewritten(t, i') => Rewritten(t, r.code + [i'])
      case Unsupported => Unsupported
      case TooMany => TooMany
  }

  function RewriteCode(t: Table, code: seq<SockFilter>): (r: Rewrite<seq<SockFilter>>)
    requires ValidTable(t)
    ensures r.Rewritten? ==> ValidTable(r.table) && t.indexToResult <= r.table.indexToResult
  {
    if code == [] then Rewritten(t, []) else Then(RewriteCode(t, code[..|code| - 1]), code[|code| - 1])
  }

  // ----- The data value survives the OR with SECCOMP_RET_TRACE

  predicate IsTrace(raw: u32) {
    raw / 0x1_0000 == SECCOMP_RET_TRACE / 0x1_0000
  }

  lemma TraceWithValue(index: u16)
    requires index < CAPACITY
    ensures TraceWith(index) == SECCOMP_RET_TRACE + BASE_CUSTOM_DATA + index
  {
    OrOfHalves(BASE_CUSTOM_DATA + index, 0x7ff0);
  }

  lemma TraceWithCarriesIndex(index: u16)
    requires index < CAPACITY
    ensures TraceWith(index) % 0x1_0000 == BASE_CUSTOM_DATA + index < SECCOMP_RET_DATA
    ensures IsTrace(TraceWith(index))
  {
    TraceWithValue(index);
    LowHalf(TraceWith(index), 0x7ff0, BASE_CUSTOM_DATA + index);
  }

  lemma LowHalf(v: u32, high: nat, low: nat)
    requires low < 0x1_0000 && v == high * 0x1_0000 + low
    ensures v % 0x1_0000 == low && v / 0x1_0000 == high
  {
  }

  // ----- Meaning of a rewritten program

  /** `i'` is `i`, except that a constant other than ALLOW is returned as its TRACE stand-in in `t`. */
  ghost predicate StandsFor(i': SockFilter, i: SockFilter, t: Table) {
    if !IsReturn(i) || i.k == SECCOMP_RET_ALLOW then i' == i
    else exists index: u16 :: index < |t.indexToResult| && t.indexToResult[index] == i.k &&
                              i' == i.(k := TraceWith(index))
  }

  lemma StandsForLater(i': SockFilter, i: SockFilter, t: Table, t': Table)
    requires StandsFor(i', i, t) && t.indexToResult <= t'.indexToResult
    ensures StandsFor(i', i, t')
  {
    if IsReturn(i) && i.k != SECCOMP_RET_ALLOW {
      var index: u16 :| index < |t.indexToResult| && t.indexToResult[index] == i.k && i' == i.(k := TraceWith(index));
      assert t'.indexToResult[index] == i.k;
    }
  }

  lemma InsnStandsFor(t: Table, i: SockFilter)
    requires ValidTable(t) && RewriteInsn(t, i).Rewritten?
    ensures
      var r := RewriteInsn(t, i);
      (IsReturn(i) ==> ReturnsConstant(i)) && StandsFor(r.code, i, r.table)
  {
  }

  lemma {:induction false} RewriteCodeStandsFor(t: Table, code: seq<SockFilter>)
    requires ValidTable(t) && RewriteCode(t, code).Rewritten?
    ensures CodeStandsFor(RewriteCode(t, code).code, code, RewriteCode(t, code).table)
  {
    if code != [] {
      var n := |code| - 1;
      var r, r' := RewriteCode(t, code[..n]), RewriteCode(t, code);
      RewriteCodeStandsFor(t, code[..n]);
      InsnStandsFor(r.table, code[n]);
      MoreStandsFor(r.code, code[..n], r.table, RewriteInsn(r.table, code[n]).code, code[n], r'.table);
      assert code == code[..n] + [code[n]];
    }
  }

  /** Every return is a constant, and every instruction stands for the original one. */
  ghost predicate CodeStandsFor(code': seq<SockFilter>, code: seq<SockFilter>, t: Table) {
    && |code'| == |code|
    && forall j :: 0 <= j < |code| ==>
         (IsReturn(code[j]) ==> ReturnsConstant(code[j])) && StandsFor(code'[j], code[j], t)
  }

  lemma MoreStandsFor(code': seq<SockFilter>, code: seq<SockFilter>, t: Table, i': SockFilter, i: SockFilter, t': Table)
    requires CodeStandsFor(code', code, t) && t.indexToResult <= t'.indexToResult
    requires (IsReturn(i) ==> ReturnsConstant(i)) && StandsFor(i', i, t')
    ensures CodeStandsFor(code' + [i'], code + [i], t')
  {
    forall j | 0 <= j < |code|
      ensures StandsFor(code'[j], code[j], t')
    {
      StandsForLater(code'[j], code[j], t, t');
    }
  }

  /** The filter result rd acts on: TRACE results are decoded, the kernel itself acts on the others. */
  function RealResult(t: Table, raw: u32): Option<u32> {
    var data := raw % 0x1_0000;
    if !IsTrace(raw) then Some(raw)
    else if data < BASE_CUSTOM_DATA || data >= BASE_CUSTOM_DATA + |t.indexToResult| then None
    else Some(t.indexToResult[data - BASE_CUSTOM_DATA])
  }

  /** A division by a zero index register makes the kernel end the filter with result 0. */
  predicate DividesByIndex(code: seq<SockFilter>) {
    exists j :: 0 <= j < |code| && code[j].code == 0x3c
  }

  /**
   * The raw result is ALLOW exactly when the original is; anything else is a TRACE that decodes to
   * the original, unless the kernel ended the filter itself.
   */
  ghost predicate Reports(raw: Option<u32>, original: Option<u32>, t: Table, mayDivide: bool) {
    match original
    case None => raw == None
    case Some(v) =>
      && raw.Some?
      && RealResult(t, raw.value) == Some(v)
      && (raw.value == SECCOMP_RET_ALLOW <==> v == SECCOMP_RET_ALLOW)
      && (v != SECCOMP_RET_ALLOW ==>
            || (IsTrace(raw.value) && BASE_CUSTOM_DATA <= raw.value % 0x1_0000 < SECCOMP_RET_DATA)
            || (mayDivide && raw.value == 0))
  }

  lemma ReturnReports(i: SockFilter, i': SockFilter, t: Table, later: Table)
    requires ValidTable(later) && t.indexToResult <= later.indexToResult
    requires IsReturn(i) && ReturnsConstant(i) && StandsFor(i', i, t)
    ensures i'.code == i.code && Reports(Some(i'.k), Some(i.k), later, false)
  {
    if i.k != SECCOMP_RET_ALLOW {
      var index: u16 :| index < |t.indexToResult| && t.indexToResult[index] == i.k && i' == i.(k := TraceWith(index));
      TraceWithCarriesIndex(index);
      assert later.indexToResult[index] == i.k;
    }
  }

  lemma OnlyDivisionReturns(i: SockFilter, r: Regs, d: SeccompData)
    requires !IsReturn(i)
    ensures Exec(i, r, d).Return? ==> i.code == 0x3c && Exec(i, r, d) == Return(0)
  {
  }

  lemma {:induction false} RunRewritten(code: seq<SockFilter>, code': seq<SockFilter>, t: Table, later: Table,
                                       pc: nat, r: Regs, d: SeccompData)
    requires ValidTable(later) && t.indexToResult <= later.indexToResult
    requires CodeStandsFor(code', code, t)
    ensures Reports(Run(code', pc, r, d), Run(code, pc, r, d), later, DividesByIndex(code))
    decreases |code| - pc
  {
    if pc < |code| {
      var i, i' := code[pc], code'[pc];
      assert StandsFor(i', i, t);
      if IsReturn(i) {
        ReturnReports(i, i', t, later);
      } else {
        OnlyDivisionReturns(i, r, d);
        match Exec(i, r, d)
        case Next(r', skip) => RunRewritten(code, code', t, later, pc + 1 + skip, r', d);
        case Return(_) =>
        case Rejected =>
      }
    }
  }

  /** The program rd installs in place of `code`. */
  function Installed(ips: seq<u32>, code': seq<SockFilter>): seq<SockFilter> {
    AllowList(ips) + code'
  }

  /**
   * The installed filter, decoded with the table of any later moment: allow-listed call sites are
   * allowed; everywhere else it reports what the original returns when started with the
   * accumulator the allow list leaves.
   */
  lemma InstalledFilterMeaning(t: Table, code: seq<SockFilter>, ips: seq<u32>, later: Table, d: SeccompData)
    requires ValidTable(t) && ValidTable(later)
    requires RewriteCode(t, code).Rewritten?
    requires RewriteCode(t, code).table.indexToResult <= later.indexToResult
    ensures
      var raw := Run(Installed(ips, RewriteCode(t, code).code), 0, INITIAL_REGS, d);
      if LowIp(d) in ips then raw == Some(SECCOMP_RET_ALLOW)
      else Reports(raw, Run(code, 0, AfterAllowList(ips, INITIAL_REGS, d), d), later, DividesByIndex(code))
  {
    var r := RewriteCode(t, code);
    RewriteCodeStandsFor(t, code);
    AllowListMeaning(ips, r.code, INITIAL_REGS, d);
    RunRewritten(code, r.code, r.table, later, 0, AfterAllowList(ips, INITIAL_REGS, d), d);
  }

  /** Away from the allow list the result is preserved exactly when the stale accumulator does not show. */
  lemma MeaningPreservedIff(t: Table, code: seq<SockFilter>, ips: seq<u32>, later: Table, d: SeccompData)
    requires ValidTable(t) && ValidTable(later)
    requires RewriteCode(t, code).Rewritten?
    requires RewriteCode(t, code).table.indexToResult <= later.indexToResult
    requires LowIp(d) !in ips
    ensures
      var raw := Run(Installed(ips, RewriteCode(t, code).code), 0, INITIAL_REGS, d);
      Reports(raw, Run(code, 0, INITIAL_REGS, d), later, DividesByIndex(code)) <==>
      Run(code, 0, AfterAllowList(ips, INITIAL_REGS, d), d) == Run(code, 0, INITIAL_REGS, d)
  {
    InstalledFilterMeaning(t, code, ips, later, d);
  }

  /** A filter that loads the accumulator before reading it on every path keeps its meaning on every call. */
  lemma MeaningPreserved(t: Table, code: seq<SockFilter>, ips: seq<u32>, later: Table, d: SeccompData)
    requires ValidTable(t) && ValidTable(later)
    requires RewriteCode(t, code).Rewritten?
    requires RewriteCode(t, code).table.indexToResult <= later.indexToResult
    requires !MayReadStaleAccumulator(code, 0)
    ensures
      var raw := Run(Installed(ips, RewriteCode(t, code).code), 0, INITIAL_REGS, d);
      if LowIp(d) in ips then raw == Some(SECCOMP_RET_ALLOW)
      else Reports(raw, Run(code, 0, INITIAL_REGS, d), later, DividesByIndex(code))
  {
    InstalledFilterMeaning(t, code, ips, later, d);
    InitialAccumulatorIrrelevant(code, 0, INITIAL_REGS, AfterAllowList(ips, INITIAL_REGS, d).a, d);
  }

  /** Allows when the initial accumulator is 0 and kills otherwise. */
  const TESTS_INITIAL_ACCUMULATOR: seq<SockFilter> :=
    [BpfJump(0x15, 0, 0, 1), BpfStmt(0x06, SECCOMP_RET_ALLOW), BpfStmt(0x06, 0)]

  lemma TestsInitialAccumulator(r: Regs, d: SeccompData)
    ensures Run(TESTS_INITIAL_ACCUMULATOR, 0, r, d) == Some(if r.a == 0 then SECCOMP_RET_ALLOW else 0)
  {
    var code := TESTS_INITIAL_ACCUMULATOR;
    assert Exec(code[0], r, d) == Next(r, if r.a == 0 then 0 else 1);
    assert Run(code, 1, r, d) == Some(SECCOMP_RET_ALLOW);
    assert Run(code, 2, r, d) == Some(0);
  }

  /**
   * A filter that tests the accumulator it starts with changes meaning: the original allows, the installed
   * one kills.
   */
  lemma StaleAccumulatorBreaksMeaning(ips: seq<u32>, d: SeccompData)
    requires ips != [] && LowIp(d) !in ips && LowIp(d) != 0
    ensures
      var code := TESTS_INITIAL_ACCUMULATOR;
      var r := RewriteCode(EMPTY_TABLE, code);
      && r.Rewritten?
      && Run(code, 0, INITIAL_REGS, d) == Some(SECCOMP_RET_ALLOW)
      && var raw := Run(Installed(ips, r.code), 0, INITIAL_REGS, d);
         raw.Some? && RealResult(r.table, raw.value) == Some(0)
  {
    var code := TESTS_INITIAL_ACCUMULATOR;
    RewriteSucceedsIff(EMPTY_TABLE, code);
    assert CustomResults(code) == {0} by {
      assert code[2].k == 0;
    }
    assert SeenResults(EMPTY_TABLE, code) == {0};
    TestsInitialAccumulator(INITIAL_REGS, d);
    TestsInitialAccumulator(INITIAL_REGS.(a := LowIp(d)), d);
    InstalledFilterMeaning(EMPTY_TABLE, code, ips, RewriteCode(EMPTY_TABLE, code).table, d);
  }

  // ----- When the rewriter gives up

  /** The constants other than ALLOW that `code` returns. */
  function CustomResults(code: seq<SockFilter>): set<u32> {
    set j | 0 <= j < |code| && IsReturn(code[j]) && code[j].k != SECCOMP_RET_ALLOW :: code[j].k
  }

  lemma {:induction false} TableSize(t: Table, n: nat)
    requires ValidTable(t) && n <= |t.indexToResult|
    ensures |set i | 0 <= i < n :: t.indexToResult[i]| == n
  {
    if n > 0 {
      TableSize(t, n - 1);
      assert (set i | 0 <= i < n :: t.indexToResult[i]) ==
             (set i | 0 <= i < n - 1 :: t.indexToResult[i]) + {t.indexToResult[n - 1]};
    }
  }

  lemma TableHoldsKeys(t: Table)
    requires ValidTable(t)
    ensures |t.resultToIndex.Keys| == |t.indexToResult|
  {
    TableSize(t, |t.indexToResult|);
    assert (set i | 0 <= i < |t.indexToResult| :: t.indexToResult[i]) == t.resultToIndex.Keys by {
      forall v | v in t.resultToIndex
        ensures v in (set i | 0 <= i < |t.indexToResult| :: t.indexToResult[i])
      {
        assert t.indexToResult[t.resultToIndex[v]] == v;
      }
    }
  }

  predicate ConstantReturns(code: seq<SockFilter>) {
    forall j :: 0 <= j < |code| && IsReturn(code[j]) ==> ReturnsConstant(code[j])
  }

  /** Every result other than ALLOW seen so far or returned by `code`. */
  function SeenResults(t: Table, code: seq<SockFilter>): set<u32> {
    t.resultToIndex.Keys + CustomResults(code)
  }

  /** The rewrite succeeds exactly when every return is constant and all results ever seen fit the data range. */
  ghost predicate SucceedsIff(t: Table, code: seq<SockFilter>)
    requires ValidTable(t)
  {
    var r := RewriteCode(t, code);
    && (r.Rewritten? <==> ConstantReturns(code) && |SeenResults(t, code)| <= CAPACITY)
    && (r.Rewritten? ==> r.table.resultToIndex.Keys == SeenResults(t, code))
  }

  lemma RewriteSnoc(t: Table, init: seq<SockFilter>, i: SockFilter)
    requires ValidTable(t)
    ensures RewriteCode(t, init + [i]) == Then(RewriteCode(t, init), i)
  {
    assert (init + [i])[..|init|] == init;
  }

  lemma SeenSnoc(t: Table, init: seq<SockFilter>, i: SockFilter)
    ensures SeenResults(t, init + [i]) == SeenResults(t, init) + CustomResults([i])
  {
    ReturnsSnoc(init, i);
  }

  lemma SucceedsIffSnoc(t: Table, init: seq<SockFilter>, i: SockFilter)
    requires ValidTable(t) && SucceedsIff(t, init)
    ensures SucceedsIff(t, init + [i])
  {
    RewriteSnoc(t, init, i);
    ThenSucceedsIff(RewriteCode(t, init), ConstantReturns(init), SeenResults(t, init), i);
    ReturnsSnoc(init, i);
    SeenSnoc(t, init, i);
  }

  lemma {:induction false} RewriteSucceedsIff(t: Table, code: seq<SockFilter>)
    requires ValidTable(t)
    ensures RewriteCode(t, code).Rewritten? <==> ConstantReturns(code) && |SeenResults(t, code)| <= CAPACITY
    ensures RewriteCode(t, code).Rewritten? ==> RewriteCode(t, code).table.resultToIndex.Keys == SeenResults(t, code)
    ensures SucceedsIff(t, code)
  {
    if code == [] {
      assert SeenResults(t, code) == t.resultToIndex.Keys;
      TableHoldsKeys(t);
    } else {
      var init, i := code[..|code| - 1], code[|code| - 1];
      RewriteSucceedsIff(t, init);
      SucceedsIffSnoc(t, init, i);
      assert code == init + [i];
    }
  }

  /** One instruction more: what it adds to the results in the table, and when there is room for it. */
  lemma ThenSucceedsIff(r: Rewrite<seq<SockFilter>>, constant: bool, seen: set<u32>, i: SockFilter)
    requires r.Rewritten? ==> ValidTable(r.table) && r.table.resultToIndex.Keys == seen
    requires r.Rewritten? <==> constant && |seen| <= CAPACITY
    ensures
      var keys := seen + CustomResults([i]);
      && (Then(r, i).Rewritten? <==> constant && (IsReturn(i) ==> ReturnsConstant(i)) && |keys| <= CAPACITY)
      && (Then(r, i).Rewritten? ==> Then(r, i).table.resultToIndex.Keys == keys)
  {
    var keys := seen + CustomResults([i]);
    if IsReturn(i) && i.k != SECCOMP_RET_ALLOW {
      assert CustomResults([i]) == {i.k} by { assert [i][0] == i; }
      assert |keys| == |seen| + if i.k in seen then 0 else 1 by {
        assert i.k in seen ==> keys == seen;
      }
    } else {
      assert keys == seen by { assert CustomResults([i]) == {}; }
    }
    if r.Rewritten? {
      TableHoldsKeys(r.table);
    }
  }

  lemma ReturnsSnoc(init: seq<SockFilter>, i: SockFilter)
    ensures ConstantReturns(init + [i]) <==> ConstantReturns(init) && (IsReturn(i) ==> ReturnsConstant(i))
    ensures CustomResults(init + [i]) == CustomResults(init) + CustomResults([i])
  {
    var code := init + [i];
    assert [i][0] == i && code[|init|] == i;
    assert forall j :: 0 <= j < |init| ==> init[j] == code[j];
    forall v | v in CustomResults(init) + CustomResults([i])
      ensures v in CustomResults(code)
    {
      if v in CustomResults(init) {
        var j :| 0 <= j < |init| && IsReturn(init[j]) && init[j].k != SECCOMP_RET_ALLOW && init[j].k == v;
        assert code[j].k == v;
      }
    }
    forall v | v in CustomResults(code)
      ensures v in CustomResults(init) + CustomResults([i])
    {
      var j :| 0 <= j < |code| && IsReturn(code[j]) && code[j].k != SECCOMP_RET_ALLOW && code[j].k == v;
      assert j < |init| ==> init[j].k == v;
    }
  }

  // ----- Whole runs

  /** `tables` are the successive tables of a run that installs `codes` one after the other. */
  ghost predicate IsRun(tables: seq<Table>, codes: seq<seq<SockFilter>>) {
    && |tables| == |codes| + 1
    && tables[0] == EMPTY_TABLE
    && forall n :: 0 <= n < |codes| ==>
         ValidTable(tables[n]) ==> Installs(tables[n], codes[n], tables[n + 1])
  }

  ghost predicate Installs(t: Table, code: seq<SockFilter>, t': Table)
    requires ValidTable(t)
  {
    RewriteCode(t, code).Rewritten? && RewriteCode(t, code).table == t'
  }

  lemma {:induction false} RunKeepsTable(tables: seq<Table>, codes: seq<seq<SockFilter>>, n: nat, m: nat)
    requires IsRun(tables, codes) && n <= m < |tables|
    ensures ValidTable(tables[n]) && ValidTable(tables[m])
    ensures tables[n].indexToResult <= tables[m].indexToResult
    decreases m
  {
    if m > 0 {
      RunKeepsTable(tables, codes, if n == m then m - 1 else n, m - 1);
      assert Installs(tables[m - 1], codes[m - 1], tables[m]);
    }
  }

  /** A filter installed early still decodes to the same results after any later installs. */
  lemma EarlierFiltersKeepDecoding(tables: seq<Table>, codes: seq<seq<SockFilter>>, n: nat, m: nat, ips: seq<u32>,
                                   d: SeccompData)
    requires IsRun(tables, codes) && n < m < |tables|
    requires !MayReadStaleAccumulator(codes[n], 0) && LowIp(d) !in ips
    ensures ValidTable(tables[n]) && ValidTable(tables[m]) && RewriteCode(tables[n], codes[n]).Rewritten?
    ensures Reports(Run(Installed(ips, RewriteCode(tables[n], codes[n]).code), 0, INITIAL_REGS, d),
                    Run(codes[n], 0, INITIAL_REGS, d), tables[m], DividesByIndex(codes[n]))
  {
    RunKeepsTable(tables, codes, n, m);
    RunKeepsTable(tables, codes, n + 1, m);
    assert Installs(tables[n], codes[n], tables[n + 1]);
    MeaningPreserved(tables[n], codes[n], ips, tables[m], d);
  }

  // ----- The stateful rewriter

  datatype SyscallType = SyscallType(traced: bool, privileged: bool, exitPoint: u64)

  /** The exit points of the privileged entries, in their order. */
  function PrivilegedExits(entries: seq<SyscallType>): seq<u32>
    requires forall e <- entries :: e.privileged ==> e.exitPoint < TWO_32
  {
    if entries == [] then []
    else
      var e := entries[|entries| - 1];
      PrivilegedExits(entries[..|entries| - 1]) + if e.privileged then [e.exitPoint] else []
  }

  class SeccompFilterRewriter {
    var resultToIndex: map<u32, u16>
    var indexToResult: seq<u32>

    ghost function View(): Table
      reads this
    {
      Table(resultToIndex, indexToResult)
    }

    constructor ()
      ensures View() == EMPTY_TABLE && ValidTable(View())
    {
      resultToIndex := map[];
      indexToResult := [];
    }

    /** Rewrites one instruction, giving its result a number if it has none yet. */
    method RewriteOne(u: SockFilter) returns (ok: bool, u': SockFilter)
      requires ValidTable(View())
      modifies this
      ensures ok <==> RewriteInsn(old(View()), u).Rewritten?
      ensures ok ==> RewriteInsn(old(View()), u) == Rewritten(View(), u')
      ensures !ok ==> View() == old(View())
    {
      u' := u;
      if BpfClass(u.code) == BPF_RET {
        if BpfRval(u.code) != BPF_K {
          return false, u;
        }
        if u.k != SECCOMP_RET_ALLOW {
          if u.k !in resultToIndex {
            if BASE_CUSTOM_DATA + |indexToResult| >= SECCOMP_RET_DATA {
              return false, u;
            }
            resultToIndex := resultToIndex[u.k := |indexToResult|];
            indexToResult := indexToResult + [u.k];
          }
          u' := u.(k := TraceWith(resultToIndex[u.k]));
        }
      }
      ok := true;
    }

    /**
     * The in-place rewrite loop of an install. `ok` is false where an assertion of the source
     * stops the recording.
     */
    method RewriteInPlace(code: array<SockFilter>) returns (ok: bool)
      requires ValidTable(View())
      modifies this, code
      ensures ok <==> RewriteCode(old(View()), old(code[..])).Rewritten?
      ensures ok ==> RewriteCode(old(View()), old(code[..])) == Rewritten(View(), code[..])
      ensures ValidTable(View()) && old(indexToResult) <= indexToResult
    {
      ghost var t, original := View(), code[..];
      for j := 0 to code.Length
        invariant RewriteCode(t, original[..j]) == Rewritten(View(), code[..j])
        invariant code[j..] == original[j..]
      {
        ghost var done := code[..j];
        assert original[..j + 1] == original[..j] + [code[j]] by { assert code[j..][0] == original[j..][0]; }
        RewriteSnoc(t, original[..j], code[j]);
        var rewritten, u := RewriteOne(code[j]);
        if !rewritten {
          RewriteFailsEarly(t, original, j);
          return false;
        }
        assert original[j + 1..] == code[j..][1..];
        code[j] := u;
        assert code[..j + 1] == done + [u];
      }
      assert code[..code.Length] == code[..] && original[..code.Length] == original;
      ok := true;
    }

    /** The program handed to the kernel: the allow list of rd's own privileged call sites, then the code. */
    method InstallPatchedFilter(code: array<SockFilter>, entries: seq<SyscallType>) returns (r: Option<seq<SockFilter>>)
      requires ValidTable(View())
      requires forall e <- entries :: e.privileged ==> e.exitPoint < TWO_32
      modifies this, code
      ensures ValidTable(View()) && old(indexToResult) <= indexToResult
      ensures r.Some? <==> RewriteCode(old(View()), old(code[..])).Rewritten?
      ensures r.Some? ==>
                var w := RewriteCode(old(View()), old(code[..]));
                View() == w.table && r.value == Installed(PrivilegedExits(entries), w.code)
    {
      var ok := RewriteInPlace(code);
      if !ok {
        return None;
      }
      var f := new SeccompFilter();
      for j := 0 to |entries|
        modifies f
        invariant f.filters == AllowList(PrivilegedExits(entries[..j]))
      {
        assert entries[..j + 1][..j] == entries[..j];
        var e := entries[j];
        if e.privileged {
          f.AllowSyscallsFromCallsite(e.exitPoint, PrivilegedExits(entries[..j]));
        } else {
          assert PrivilegedExits(entries[..j + 1]) == PrivilegedExits(entries[..j]);
        }
      }
      assert entries[..|entries|] == entries;
      r := Some(f.filters + code[..]);
    }

    /** False for data below the custom range; the source asserts that larger data is in the table. */
    method MapFilterDataToRealResult(value: u16) returns (ok: bool, result: u32)
      requires value < BASE_CUSTOM_DATA + |indexToResult|
      ensures ok <==> value >= BASE_CUSTOM_DATA
      ensures ok ==> forall raw: u32 :: IsTrace(raw) && raw % 0x1_0000 == value ==>
              RealResult(View(), raw) == Some(result)
    {
      if value < BASE_CUSTOM_DATA {
        return false, 0;
      }
      return true, indexToResult[value - BASE_CUSTOM_DATA];
    }
  }

  /** Once an instruction of a prefix cannot be rewritten the whole program cannot. */
  lemma {:induction false} RewriteFailsEarly(t: Table, code: seq<SockFilter>, j: nat)
    requires ValidTable(t) && j < |code|
    requires !RewriteCode(t, code[..j + 1]).Rewritten?
    ensures !RewriteCode(t, code).Rewritten?
  {
    if j + 1 < |code| {
      var init := code[..|code| - 1];
      assert init[..j + 1] == code[..j + 1];
      RewriteFailsEarly(t, init, j);
    } else {
      assert code[..j + 1] == code;
    }
  }
}
