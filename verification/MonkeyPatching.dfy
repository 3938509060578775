/** Patching syscall sites with jumps to stubs that call a hook (`monkey_patcher.rs`). */
module MonkeyPatching {
  import opened Words
  import opened AddressSpace
  import opened ExtendedJumps
  import opened StubMachine
  import opened StubExecution
  import opened SyscallStubs
  import opened TraceeMemory

  const SYSCALL_LENGTH: nat := 2
  const JUMP_LENGTH: nat := 5
  const NOP: byte := 0x90

  datatype Hook = Hook(address: u64, nextInstructionLength: nat)

  /** A patched syscall site and the stub it jumps to. */
  datatype Patch = Patch(arch: Arch, site: nat, hook: Hook, stub: nat)

  /** The bytes the patch replaces: the syscall instruction and the instruction after it. */
  function Replaced(hook: Hook): nat {
    SYSCALL_LENGTH + hook.nextInstructionLength
  }

  predicate Patchable(site: nat, hook: Hook) {
    JUMP_LENGTH <= Replaced(hook) && site + Replaced(hook) < TWO_64
  }

  function SiteBytes(site: nat, hook: Hook, stub: nat): (s: seq<byte>)
    requires Patchable(site, hook)
    ensures |s| == Replaced(hook)
  {
    JumpBytes(site, stub) + seq(Replaced(hook) - JUMP_LENGTH, _ => NOP)
  }

  // ----- What a patch does

  ghost predicate Installed(mem: Memory, p: Patch) {
    && Patchable(p.site, p.hook)
    && HasBytes(mem, p.site, SiteBytes(p.site, p.hook, p.stub))
    && HasBytes(mem, p.stub, StubBytes(p.arch, p.stub, p.site + Replaced(p.hook), p.hook.address))
  }

  function StubOf(p: Patch): Stub
    requires Patchable(p.site, p.hook)
  {
    Stub(p.arch, p.stub, p.site + Replaced(p.hook), p.hook.address)
  }

  /**
   * A processor that reaches the site gets to the stub and from there to the hook, with the address behind the
   * replaced bytes to return to.
   */
  ghost predicate Redirects(mem: Memory, p: Patch) {
    && Patchable(p.site, p.hook)
    && (forall m: Machine :: m.mem == mem && m.ip == p.site && p.stub < Width(p.arch) && HasRoom(StubOf(p), m) ==>
          ReachesHook(StubOf(p), m))
    && (forall k :: p.site + JUMP_LENGTH <= k < p.site + Replaced(p.hook) ==> HasByte(mem, k, NOP))
  }

  lemma SiteParts(mem: Memory, p: Patch)
    requires Patchable(p.site, p.hook) && HasBytes(mem, p.site, SiteBytes(p.site, p.hook, p.stub))
    ensures HasBytes(mem, p.site, JumpBytes(p.site, p.stub))
    ensures forall k :: p.site + JUMP_LENGTH <= k < p.site + Replaced(p.hook) ==> HasByte(mem, k, NOP)
  {
    var nops: seq<byte> := seq(Replaced(p.hook) - JUMP_LENGTH, _ => NOP);
    HasConcat(mem, p.site, JumpBytes(p.site, p.stub), nops);
    forall k | p.site + JUMP_LENGTH <= k < p.site + Replaced(p.hook)
      ensures HasByte(mem, k, NOP)
    {
      assert nops[k - (p.site + JUMP_LENGTH)] == NOP;
    }
  }

  lemma InstalledRedirects(mem: Memory, p: Patch)
    requires Installed(mem, p) && FitsI32(p.stub - (p.site + JUMP_LENGTH))
    ensures Redirects(mem, p)
  {
    SiteParts(mem, p);
    forall m: Machine | m.mem == mem && m.ip == p.site && p.stub < Width(p.arch) && HasRoom(StubOf(p), m)
      ensures ReachesHook(StubOf(p), m)
    {
      SiteReachesHook(StubOf(p), m);
    }
  }

  // ----- Where patches lie

  ghost predicate InPage(pages: seq<Page>, k: int) {
    exists j :: 0 <= j < |pages| && pages[j].addr <= k < pages[j].addr + PAGE_SIZE
  }

  /** The replaced bytes are mapped and not part of an extended-jump page. */
  ghost predicate SiteOk(s: State, site: nat, hook: Hook) {
    forall k :: site <= k < site + Replaced(hook) ==> Mapped(s.maps, k) && !InPage(s.pages, k)
  }

  ghost predicate IsBlock(s: State, start: nat, size: nat) {
    exists i :: 0 <= i < |s.blocks| && s.blocks[i].start == start && s.blocks[i].size == size
  }

  ghost predicate Placed(s: State, p: Patch) {
    SiteOk(s, p.site, p.hook) && IsBlock(s, p.stub, StubSize(p.arch)) && FitsI32(p.stub - (p.site + JUMP_LENGTH))
  }

  ghost predicate PatchesOk(s: State, mem: Memory, patches: seq<Patch>) {
    forall i :: 0 <= i < |patches| ==> Installed(mem, patches[i]) && Placed(s, patches[i])
  }

  /** From `s` to `s'` one block was handed out, and no byte that was mapped outside the pages joined them. */
  ghost predicate Grown(s: State, s': State, b: Block) {
    && Valid(s') && s'.blocks == s.blocks + [b] && FitsI32(b.start - b.fromEnd)
    && forall k :: Mapped(s.maps, k) && !InPage(s.pages, k) ==> Mapped(s'.maps, k) && !InPage(s'.pages, k)
  }

  lemma AllocateGrows(s: State, size: nat, fromEnd: nat)
    requires Valid(s) && CanAllocate(s, size, fromEnd) && size <= PAGE_SIZE
    ensures
      var r := Allocate(s, size, fromEnd);
      if r.jump.Some? then Grown(s, r.state, Block(r.jump.value, size, fromEnd)) else r.state == s
  {
    AllocateKeepsValid(s, size, fromEnd);
    forall k | Mapped(s.maps, k) && !InPage(s.pages, k)
      ensures var s' := Allocate(s, size, fromEnd).state; Mapped(s'.maps, k) && !InPage(s'.pages, k)
    {
      AllocateKeepsByte(s, size, fromEnd, k);
    }
  }

  lemma AllocateKeepsByte(s: State, size: nat, fromEnd: nat, k: int)
    requires Valid(s) && CanAllocate(s, size, fromEnd) && Mapped(s.maps, k) && !InPage(s.pages, k)
    ensures var s' := Allocate(s, size, fromEnd).state; Mapped(s'.maps, k) && !InPage(s'.pages, k)
  {
    var fit := FirstFit(s.pages, size, fromEnd, 0);
    if fit.Some? {
      SamePages(s.pages, Taken(s.pages, fit.value, size), k);
    } else {
      NewPageIsFree(s.maps, fromEnd);
      FreshKeepsByte(s, size, fromEnd, NewPageAddr(s.maps, fromEnd), k);
    }
  }

  lemma FreshKeepsByte(s: State, size: nat, fromEnd: nat, addr: nat, k: int)
    requires ValidMaps(s.maps) && Free(s.maps, addr, addr + PAGE_SIZE) && Mapped(s.maps, k) && !InPage(s.pages, k)
    ensures var s' := AllocateAt(s, size, fromEnd, addr).state; Mapped(s'.maps, k) && !InPage(s'.pages, k)
  {
    InsertKeepsMapped(s.maps, Mapping(addr, addr + PAGE_SIZE, false), k);
    NewPageElsewhere(s, addr, size, k);
  }

  lemma SamePages(pages: seq<Page>, pages': seq<Page>, k: int)
    requires |pages| == |pages'| && forall j :: 0 <= j < |pages| ==> pages'[j].addr == pages[j].addr
    requires !InPage(pages, k)
    ensures !InPage(pages', k)
  {
  }

  lemma InsertKeepsMapped(maps: seq<Mapping>, m: Mapping, k: int)
    requires ValidMaps(maps) && Mapped(maps, k)
    ensures Mapped(Insert(maps, m), k)
  {
    var i :| 0 <= i < |maps| && maps[i].start <= k < maps[i].end;
    InsertAdds(maps, m);
    assert maps[i] in Insert(maps, m);
  }

  /** A page mapped where nothing was mapped. */
  lemma NewPageElsewhere(s: State, addr: nat, used: nat, k: int)
    requires Free(s.maps, addr, addr + PAGE_SIZE) && Mapped(s.maps, k) && !InPage(s.pages, k)
    ensures !InPage(s.pages + [Page(addr, used)], k)
  {
    assert !(addr <= k < addr + PAGE_SIZE);
  }

  lemma GrownKeepsPlaced(s: State, s': State, b: Block, p: Patch)
    requires Grown(s, s', b) && Placed(s, p)
    ensures Placed(s', p)
  {
    BlocksKept(s, s', p.stub, StubSize(p.arch));
  }

  lemma BlocksKept(s: State, s': State, start: nat, size: nat)
    requires IsBlock(s, start, size) && s.blocks <= s'.blocks
    ensures IsBlock(s', start, size)
  {
    var i :| 0 <= i < |s.blocks| && s.blocks[i].start == start && s.blocks[i].size == size;
    assert s'.blocks[i] == s.blocks[i];
  }

  lemma NewIsBlock(s: State, s': State, b: Block)
    requires s'.blocks == s.blocks + [b]
    ensures IsBlock(s', b.start, b.size)
  {
    assert s'.blocks[|s.blocks|] == b;
  }

  // ----- Writes do not meet

  lemma BlockInPage(s: State, start: nat, size: nat, k: int)
    requires Valid(s) && IsBlock(s, start, size) && start <= k < start + size
    ensures InPage(s.pages, k)
  {
    var i :| 0 <= i < |s.blocks| && s.blocks[i].start == start && s.blocks[i].size == size;
    assert InPages(s.pages, s.blocks[i]);
    var j :| 0 <= j < |s.pages| && s.pages[j].addr <= start && start + size <= s.pages[j].addr + s.pages[j].used;
    assert s.pages[j].used <= PAGE_SIZE;
  }

  lemma StubApartFromSite(s: State, stub: nat, size: nat, site: nat, hook: Hook)
    requires Valid(s) && IsBlock(s, stub, size) && SiteOk(s, site, hook) && size > 0 && Patchable(site, hook)
    ensures Apart(stub, size, site, Replaced(hook))
  {
    if !Apart(stub, size, site, Replaced(hook)) {
      var k := if stub <= site then site else stub;
      BlockInPage(s, stub, size, k);
    }
  }

  /** The block handed out last is apart from the earlier ones. */
  lemma NewStubApart(s: State, s': State, b: Block, start: nat, size: nat)
    requires Valid(s') && s'.blocks == s.blocks + [b] && IsBlock(s, start, size)
    ensures Apart(b.start, b.size, start, size)
  {
    var i :| 0 <= i < |s.blocks| && s.blocks[i].start == start && s.blocks[i].size == size;
    var n := |s.blocks|;
    assert s'.blocks[i] == s.blocks[i] && s'.blocks[n] == b;
    assert Apart(s'.blocks[i].start, s'.blocks[i].size, s'.blocks[n].start, s'.blocks[n].size);
  }

  // ----- Patching one more site

  /** The replaced bytes have not been replaced before. */
  ghost predicate NewSite(patches: seq<Patch>, site: nat, hook: Hook) {
    forall i :: 0 <= i < |patches| ==> Apart(site, Replaced(hook), patches[i].site, Replaced(patches[i].hook))
  }

  ghost predicate CanPatch(s: State, patches: seq<Patch>, site: nat, hook: Hook) {
    Patchable(site, hook) && SiteOk(s, site, hook) && NewSite(patches, site, hook)
  }

  function PatchStub(p: Patch): (s: seq<byte>)
    requires Patchable(p.site, p.hook)
    ensures |s| == StubSize(p.arch)
  {
    StubBytes(p.arch, p.stub, p.site + Replaced(p.hook), p.hook.address)
  }

  function AfterPatch(mem: Memory, p: Patch): Memory
    requires Patchable(p.site, p.hook)
  {
    Write(Write(mem, p.stub, PatchStub(p)), p.site, SiteBytes(p.site, p.hook, p.stub))
  }

  lemma SiteWritten(mem: Memory, site: nat, hook: Hook, stub: nat, nops: seq<byte>)
    requires Patchable(site, hook) && |nops| == Replaced(hook) - JUMP_LENGTH
    requires forall k :: 0 <= k < |nops| ==> nops[k] == NOP
    ensures Write(Write(mem, site, JumpBytes(site, stub)), site + JUMP_LENGTH, nops) ==
            Write(mem, site, SiteBytes(site, hook, stub))
  {
    assert nops == seq(Replaced(hook) - JUMP_LENGTH, _ => NOP);
    WriteInTwo(mem, site, JumpBytes(site, stub), nops);
  }

  lemma KeepsInstalled(mem: Memory, q: Patch, p: Patch)
    requires Installed(mem, p) && Patchable(q.site, q.hook)
    requires Apart(q.stub, StubSize(q.arch), p.site, Replaced(p.hook)) &&
             Apart(q.stub, StubSize(q.arch), p.stub, StubSize(p.arch))
    requires Apart(q.site, Replaced(q.hook), p.site, Replaced(p.hook)) &&
             Apart(p.stub, StubSize(p.arch), q.site, Replaced(q.hook))
    ensures Installed(AfterPatch(mem, q), p)
  {
    var stub, site := PatchStub(q), SiteBytes(q.site, q.hook, q.stub);
    var stub', site' := PatchStub(p), SiteBytes(p.site, p.hook, p.stub);
    WriteElsewhere(mem, q.stub, stub, p.site, site');
    WriteElsewhere(mem, q.stub, stub, p.stub, stub');
    WriteElsewhere(Write(mem, q.stub, stub), q.site, site, p.site, site');
    WriteElsewhere(Write(mem, q.stub, stub), q.site, site, p.stub, stub');
  }

  ghost predicate NewStub(s: State, s': State, q: Patch) {
    Grown(s, s', Block(q.stub, StubSize(q.arch), q.site + JUMP_LENGTH))
  }

  lemma EarlierPatchKept(s: State, s': State, mem: Memory, q: Patch, p: Patch)
    requires Valid(s) && NewStub(s, s', q) && Patchable(q.site, q.hook) && SiteOk(s, q.site, q.hook)
    requires Installed(mem, p) && Placed(s, p) && Apart(q.site, Replaced(q.hook), p.site, Replaced(p.hook))
    ensures Installed(AfterPatch(mem, q), p) && Placed(s', p)
  {
    var b := Block(q.stub, StubSize(q.arch), q.site + JUMP_LENGTH);
    GrownKeepsPlaced(s, s', b, p);
    NewIsBlock(s, s', b);
    StubApartFromSite(s', q.stub, StubSize(q.arch), p.site, p.hook);
    NewStubApart(s, s', b, p.stub, StubSize(p.arch));
    StubApartFromSite(s, p.stub, StubSize(p.arch), q.site, q.hook);
    KeepsInstalled(mem, q, p);
  }

  lemma NewPatchInstalled(s: State, s': State, mem: Memory, q: Patch)
    requires Valid(s) && NewStub(s, s', q) && Patchable(q.site, q.hook) && SiteOk(s, q.site, q.hook)
    ensures Installed(AfterPatch(mem, q), q) && Placed(s', q)
  {
    NewIsBlock(s, s', Block(q.stub, StubSize(q.arch), q.site + JUMP_LENGTH));
    assert SiteOk(s', q.site, q.hook);
    StubApartFromSite(s', q.stub, StubSize(q.arch), q.site, q.hook);
    TwoWrites(mem, q.stub, PatchStub(q), q.site, SiteBytes(q.site, q.hook, q.stub));
  }

  /** One more patch leaves every earlier patch working and works itself. */
  lemma PatchKeepsPatches(s: State, s': State, mem: Memory, patches: seq<Patch>, q: Patch)
    requires Valid(s) && NewStub(s, s', q) && CanPatch(s, patches, q.site, q.hook) && PatchesOk(s, mem, patches)
    ensures PatchesOk(s', AfterPatch(mem, q), patches + [q])
  {
    NewPatchInstalled(s, s', mem, q);
    forall i | 0 <= i < |patches|
      ensures Installed(AfterPatch(mem, q), patches[i]) && Placed(s', patches[i])
    {
      EarlierPatchKept(s, s', mem, q, patches[i]);
    }
  }

  // ----- The patcher's state over whole runs

  datatype World = World(state: State, stubs: map<nat, nat>, mem: Memory, patches: seq<Patch>)

  ghost predicate Ready(w: World) {
    Valid(w.state) && StubsRecorded(w.state, w.stubs) && PatchesOk(w.state, w.mem, w.patches)
  }

  lemma StubRecorded(s: State, s': State, stubs: map<nat, nat>, b: Block)
    requires StubsRecorded(s, stubs) && b.size > 0 && s'.blocks == s.blocks + [b]
    ensures StubsRecorded(s', stubs[b.start := b.size])
  {
    var stubs' := stubs[b.start := b.size];
    NewIsBlock(s, s', b);
    forall k | k in stubs'
      ensures IsBlock(s', k, stubs'[k])
    {
      if k != b.start {
        BlocksKept(s, s', k, stubs[k]);
      }
    }
  }

  ghost predicate Acceptable(w: World, arch: Arch, site: nat, hook: Hook) {
    CanPatch(w.state, w.patches, site, hook) && CanAllocate(w.state, StubSize(arch), site + JUMP_LENGTH)
  }

  /** Fails only when no page is close enough; then nothing changes. */
  ghost function PatchSite(w: World, arch: Arch, site: nat, hook: Hook): World
    requires Acceptable(w, arch, site, hook)
  {
    PatchWith(w, Allocate(w.state, StubSize(arch), site + JUMP_LENGTH), arch, site, hook)
  }

  ghost function PatchWith(w: World, r: Outcome, arch: Arch, site: nat, hook: Hook): World
    requires Patchable(site, hook)
  {
    if r.jump.None? then w
    else
      var q := Patch(arch, site, hook, r.jump.value);
      World(r.state, w.stubs[q.stub := StubSize(arch)], AfterPatch(w.mem, q), w.patches + [q])
  }

  lemma PatchSiteKeepsReady(w: World, arch: Arch, site: nat, hook: Hook)
    requires Ready(w) && Acceptable(w, arch, site, hook)
    ensures Ready(PatchSite(w, arch, site, hook))
  {
    AllocateGrows(w.state, StubSize(arch), site + JUMP_LENGTH);
    PatchWithKeepsReady(w, Allocate(w.state, StubSize(arch), site + JUMP_LENGTH), arch, site, hook);
  }

  lemma PatchWithKeepsReady(w: World, r: Outcome, arch: Arch, site: nat, hook: Hook)
    requires Ready(w) && CanPatch(w.state, w.patches, site, hook)
    requires r.jump.Some? ==> Grown(w.state, r.state, Block(r.jump.value, StubSize(arch), site + JUMP_LENGTH))
    ensures Ready(PatchWith(w, r, arch, site, hook))
  {
    if r.jump.Some? {
      NewStubKeepsReady(w, r.state, Patch(arch, site, hook, r.jump.value));
    }
  }

  lemma NewStubKeepsReady(w: World, s': State, q: Patch)
    requires Ready(w) && NewStub(w.state, s', q) && CanPatch(w.state, w.patches, q.site, q.hook)
    ensures Ready(World(s', w.stubs[q.stub := StubSize(q.arch)], AfterPatch(w.mem, q), w.patches + [q]))
  {
    PatchKeepsPatches(w.state, s', w.mem, w.patches, q);
    StubRecorded(w.state, s', w.stubs, Block(q.stub, StubSize(q.arch), q.site + JUMP_LENGTH));
  }

  /** A patch request, or the tracee changing its mappings and its memory. */
  datatype Event = PatchAt(arch: Arch, site: nat, hook: Hook) | Other(maps: seq<Mapping>, mem: Memory)

  ghost predicate Patched(w: World, k: int) {
    exists i :: 0 <= i < |w.patches| && w.patches[i].site <= k < w.patches[i].site + Replaced(w.patches[i].hook)
  }

  /** The tracee leaves the extended-jump pages and the patched bytes as they are. */
  ghost predicate KeepsPatched(w: World, maps: seq<Mapping>, mem: Memory) {
    && ValidMaps(maps)
    && (forall j :: 0 <= j < |w.state.pages| ==> PageMapped(maps, w.state.pages[j]))
    && (forall k :: Patched(w, k) ==> Mapped(maps, k))
    && (forall k :: (InPage(w.state.pages, k) || Patched(w, k)) && k in w.mem ==> k in mem && mem[k] == w.mem[k])
  }

  ghost predicate Enabled(w: World, e: Event) {
    match e
    case PatchAt(arch, site, hook) => Acceptable(w, arch, site, hook)
    case Other(maps, mem) => KeepsPatched(w, maps, mem)
  }

  ghost function Next(w: World, e: Event): World
    requires Enabled(w, e)
  {
    match e
    case PatchAt(arch, site, hook) => PatchSite(w, arch, site, hook)
    case Other(maps, mem) => w.(state := w.state.(maps := maps), mem := mem)
  }

  ghost predicate Runs(w: World, es: seq<Event>, w': World)
    decreases |es|
  {
    if es == [] then w == w' else Enabled(w, es[0]) && Runs(Next(w, es[0]), es[1..], w')
  }

  lemma SameBytes(mem: Memory, mem': Memory, a: int, t: seq<byte>)
    requires HasBytes(mem, a, t)
    requires forall k :: a <= k < a + |t| && k in mem ==> k in mem' && mem'[k] == mem[k]
    ensures HasBytes(mem', a, t)
  {
    forall i | 0 <= i < |t|
      ensures HasByte(mem', a + i, t[i])
    {
      assert HasByte(mem, a + i, t[i]);
    }
  }

  lemma OtherKeepsPatch(w: World, maps: seq<Mapping>, mem: Memory, i: nat)
    requires Ready(w) && KeepsPatched(w, maps, mem) && i < |w.patches|
    ensures Installed(mem, w.patches[i]) && Placed(w.state.(maps := maps), w.patches[i])
  {
    var p := w.patches[i];
    SiteIsPatched(w, i);
    StubInPages(w.state, p.stub, StubSize(p.arch));
    OtherKeepsBytes(w, maps, mem, p, SiteBytes(p.site, p.hook, p.stub), PatchStub(p));
    OtherKeepsPlaced(w, maps, mem, p);
  }

  lemma SiteIsPatched(w: World, i: nat)
    requires i < |w.patches|
    ensures var p := w.patches[i]; forall k :: p.site <= k < p.site + Replaced(p.hook) ==> Patched(w, k)
  {
  }

  lemma StubInPages(s: State, start: nat, size: nat)
    requires Valid(s) && IsBlock(s, start, size)
    ensures forall k :: start <= k < start + size ==> InPage(s.pages, k)
  {
    forall k | start <= k < start + size
      ensures InPage(s.pages, k)
    {
      BlockInPage(s, start, size, k);
    }
  }

  lemma OtherKeepsBytes(w: World, maps: seq<Mapping>, mem: Memory, p: Patch, site: seq<byte>, stub: seq<byte>)
    requires KeepsPatched(w, maps, mem) && HasBytes(w.mem, p.site, site) && HasBytes(w.mem, p.stub, stub)
    requires |site| == Replaced(p.hook) && |stub| == StubSize(p.arch)
    requires forall k :: p.site <= k < p.site + Replaced(p.hook) ==> Patched(w, k)
    requires forall k :: p.stub <= k < p.stub + StubSize(p.arch) ==> InPage(w.state.pages, k)
    ensures HasBytes(mem, p.site, site) && HasBytes(mem, p.stub, stub)
  {
    SameBytes(w.mem, mem, p.site, site);
    SameBytes(w.mem, mem, p.stub, stub);
  }

  lemma OtherKeepsPlaced(w: World, maps: seq<Mapping>, mem: Memory, p: Patch)
    requires KeepsPatched(w, maps, mem) && Placed(w.state, p)
    requires forall k :: p.site <= k < p.site + Replaced(p.hook) ==> Patched(w, k)
    ensures Placed(w.state.(maps := maps), p)
  {
  }

  lemma OtherKeepsReady(w: World, maps: seq<Mapping>, mem: Memory)
    requires Ready(w) && KeepsPatched(w, maps, mem)
    ensures Ready(w.(state := w.state.(maps := maps), mem := mem))
  {
    forall i | 0 <= i < |w.patches|
      ensures Installed(mem, w.patches[i]) && Placed(w.state.(maps := maps), w.patches[i])
    {
      OtherKeepsPatch(w, maps, mem, i);
    }
  }

  lemma {:induction false} RunKeepsReady(w: World, es: seq<Event>, w': World)
    requires Ready(w) && Runs(w, es, w')
    ensures Ready(w') && w.patches <= w'.patches
    decreases |es|
  {
    if es != [] {
      match es[0] {
        case PatchAt(arch, site, hook) => PatchSiteKeepsReady(w, arch, site, hook);
        case Other(maps, mem) => OtherKeepsReady(w, maps, mem);
      }
      RunKeepsReady(Next(w, es[0]), es[1..], w');
    }
  }

  /**
   * Over any run, every site ever patched keeps leading to its own stub, its hook, and back behind the
   * replaced bytes.
   */
  lemma PatchesOverRuns(w: World, es: seq<Event>, w': World)
    requires Ready(w) && Runs(w, es, w')
    ensures forall i :: 0 <= i < |w'.patches| ==> Redirects(w'.mem, w'.patches[i])
    ensures forall i :: 0 <= i < |w.patches| ==> i < |w'.patches| && w'.patches[i] == w.patches[i]
  {
    RunKeepsReady(w, es, w');
    forall i | 0 <= i < |w'.patches|
      ensures Redirects(w'.mem, w'.patches[i])
    {
      InstalledRedirects(w'.mem, w'.patches[i]);
    }
  }

  // ----- The patcher

  class MonkeyPatcher {
    var extendedJumpPages: seq<Page>
    var syscallbufStubs: map<nat, nat>
    var maps: seq<Mapping>
    var mem: Memory
    ghost var blocks: seq<Block>
    ghost var patches: seq<Patch>

    ghost function View(): State
      reads this
    {
      State(extendedJumpPages, maps, blocks)
    }

    ghost function All(): World
      reads this
    {
      World(View(), syscallbufStubs, mem, patches)
    }

    constructor (maps: seq<Mapping>, mem: Memory)
      requires ValidMaps(maps)
      ensures Ready(All()) && All() == World(State([], maps, []), map[], mem, [])
    {
      extendedJumpPages, syscallbufStubs, blocks, patches := [], map[], [], [];
      this.maps, this.mem := maps, mem;
    }

    method FindPage(size: nat, fromEnd: nat) returns (r: Option<nat>)
      ensures r == FirstFit(extendedJumpPages, size, fromEnd, 0)
    {
      var i := 0;
      while i < |extendedJumpPages|
        invariant i <= |extendedJumpPages|
        invariant FirstFit(extendedJumpPages, size, fromEnd, i) == FirstFit(extendedJumpPages, size, fromEnd, 0)
      {
        if PageFits(extendedJumpPages[i], size, fromEnd) {
          return Some(i);
        }
        i := i + 1;
      }
      return None;
    }

    method UsePage(i: nat, size: nat, fromEnd: nat) returns (jump: nat)
      requires i < |extendedJumpPages|
      modifies `extendedJumpPages, `blocks
      ensures Outcome(View(), Some(jump)) == AllocateIn(old(View()), size, fromEnd, i)
    {
      var page := extendedJumpPages[i];
      jump := page.addr + page.used;
      extendedJumpPages := extendedJumpPages[i := Page(page.addr, page.used + size)];
      blocks := blocks + [Block(jump, size, fromEnd)];
    }

    method MapPage(addr: nat, size: nat, fromEnd: nat) returns (jump: Option<nat>)
      requires ValidMaps(maps)
      modifies `extendedJumpPages, `maps, `blocks
      ensures Outcome(View(), jump) == AllocateAt(old(View()), size, fromEnd, addr)
    {
      if !FitsI32(addr - fromEnd) {
        return None;
      }
      maps := Insert(maps, Mapping(addr, addr + PAGE_SIZE, false));
      extendedJumpPages := extendedJumpPages + [Page(addr, size)];
      blocks := blocks + [Block(addr, size, fromEnd)];
      jump := Some(addr);
    }

    method AllocateExtendedJump(size: nat, fromEnd: nat) returns (jump: Option<nat>)
      requires CanAllocate(View(), size, fromEnd)
      modifies `extendedJumpPages, `maps, `blocks
      ensures Outcome(View(), jump) == Allocate(old(View()), size, fromEnd)
    {
      var page := FindPage(size, fromEnd);
      if page.None? {
        var after := MappingOf(maps, fromEnd).value.start;
        var freeMem := FindFreeMemory(maps, 3 * PAGE_SIZE, after);
        jump := MapPage(freeMem + PAGE_SIZE, size, fromEnd);
      } else {
        var addr := UsePage(page.value, size, fromEnd);
        jump := Some(addr);
      }
    }

    method WritePatch(arch: Arch, site: nat, hook: Hook, stub: nat)
      requires Patchable(site, hook)
      modifies `mem, `syscallbufStubs
      ensures mem == AfterPatch(old(mem), Patch(arch, site, hook, stub))
      ensures syscallbufStubs == old(syscallbufStubs)[stub := StubSize(arch)]
    {
      WriteStub(Patch(arch, site, hook, stub));
      syscallbufStubs := syscallbufStubs[stub := StubSize(arch)];
      WriteJump(site, hook, stub);
    }

    method WriteStub(p: Patch)
      requires Patchable(p.site, p.hook)
      modifies `mem
      ensures mem == Write(old(mem), p.stub, PatchStub(p))
    {
      var returnAddr := p.site + SYSCALL_LENGTH + p.hook.nextInstructionLength;
      mem := Write(mem, p.stub, StubBytes(p.arch, p.stub, returnAddr, p.hook.address));
    }

    /** The jump to the stub, and NOPs up to the end of the replaced instructions. */
    method WriteJump(site: nat, hook: Hook, stub: nat)
      requires Patchable(site, hook)
      modifies `mem
      ensures mem == Write(old(mem), site, SiteBytes(site, hook, stub))
    {
      var jump := JumpBytes(site, stub);
      var nops: seq<byte> := seq(SYSCALL_LENGTH + hook.nextInstructionLength - |jump|, _ => NOP);
      SiteWritten(mem, site, hook, stub, nops);
      mem := Write(mem, site, jump);
      mem := Write(mem, site + |jump|, nops);
    }

    method PatchSyscallWithHook(arch: Arch, site: nat, hook: Hook) returns (ok: bool)
      requires Acceptable(All(), arch, site, hook)
      modifies this
      ensures All() == PatchSite(old(All()), arch, site, hook)
      ensures ok <==> patches != old(patches)
    {
      var jump := AllocateExtendedJump(StubSize(arch), site + JUMP_LENGTH);
      if jump.None? {
        return false;
      }
      WritePatch(arch, site, hook, jump.value);
      patches := patches + [Patch(arch, site, hook, jump.value)];
      return true;
    }
  }
}
