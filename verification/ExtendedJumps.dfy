/** The allocator of extended jumps and the index of stubs (`monkey_patcher.rs`). */
module ExtendedJumps {
  import opened Words
  import opened AddressSpace
  import opened TraceeMemory

  datatype Page = Page(addr: nat, used: nat)

  /** A stub handed out for a jump that ends at `fromEnd`. */
  datatype Block = Block(start: nat, size: nat, fromEnd: nat)

  /** The extended-jump pages, the tracee's mappings, and every block handed out so far. */
  datatype State = State(pages: seq<Page>, maps: seq<Mapping>, blocks: seq<Block>)

  predicate FitsI32(x: int) {
    -0x8000_0000 <= x < 0x8000_0000
  }

  // ----- Allocation

  predicate PageFits(p: Page, size: nat, fromEnd: nat) {
    FitsI32(p.addr + p.used - fromEnd) && p.used + size <= PAGE_SIZE
  }

  /** The first page from index `i` on that is close enough and has room. */
  function FirstFit(pages: seq<Page>, size: nat, fromEnd: nat, i: nat): (r: Option<nat>)
    requires i <= |pages|
    ensures r.Some? ==> r.value < |pages| && PageFits(pages[r.value], size, fromEnd)
    decreases |pages| - i
  {
    if i == |pages| then None
    else if PageFits(pages[i], size, fromEnd) then Some(i)
    else FirstFit(pages, size, fromEnd, i + 1)
  }

  lemma {:induction false} FirstFitIsFirst(pages: seq<Page>, size: nat, fromEnd: nat, i: nat)
    requires i <= |pages|
    ensures
      var r := FirstFit(pages, size, fromEnd, i);
      && (r.Some? ==> i <= r.value < |pages| && PageFits(pages[r.value], size, fromEnd))
      && forall j :: i <= j < (if r.Some? then r.value else |pages|) ==> !PageFits(pages[j], size, fromEnd)
    decreases |pages| - i
  {
    if i < |pages| {
      FirstFitIsFirst(pages, size, fromEnd, i + 1);
    }
  }

  ghost predicate PageMapped(maps: seq<Mapping>, p: Page) {
    exists i :: 0 <= i < |maps| && maps[i].start <= p.addr && p.addr + PAGE_SIZE <= maps[i].end
  }

  ghost predicate InPages(pages: seq<Page>, b: Block) {
    exists k :: 0 <= k < |pages| && pages[k].addr <= b.start && b.start + b.size <= pages[k].addr + pages[k].used
  }

  /** Pages are mapped and disjoint. */
  ghost predicate PagesOk(maps: seq<Mapping>, pages: seq<Page>) {
    && (forall k :: 0 <= k < |pages| ==> pages[k].used <= PAGE_SIZE && PageMapped(maps, pages[k]))
    && (forall j, k :: 0 <= j < k < |pages| ==> Apart(pages[j].addr, PAGE_SIZE, pages[k].addr, PAGE_SIZE))
  }

  /** Blocks are disjoint, lie in the used part of a page, and are in reach of their sites. */
  ghost predicate BlocksOk(pages: seq<Page>, blocks: seq<Block>) {
    && (forall i :: 0 <= i < |blocks| ==> InPages(pages, blocks[i]) && FitsI32(blocks[i].start - blocks[i].fromEnd))
    && (forall i, j :: 0 <= i < j < |blocks| ==>
       Apart(blocks[i].start, blocks[i].size, blocks[j].start, blocks[j].size))
  }

  ghost predicate Valid(s: State) {
    ValidMaps(s.maps) && PagesOk(s.maps, s.pages) && BlocksOk(s.pages, s.blocks)
  }

  /** Where the next page would go: a page in from the start of a gap of three, behind the mapping of the site. */
  function NewPageAddr(maps: seq<Mapping>, fromEnd: nat): nat
    requires ValidMaps(maps) && Mapped(maps, fromEnd)
  {
    GapAfter(maps, 3 * PAGE_SIZE, StartingAt(maps, MappingOf(maps, fromEnd).value.start)) + PAGE_SIZE
  }

  datatype Outcome = Outcome(state: State, jump: Option<nat>)

  /** Page `k` with its next `size` bytes taken. */
  function Taken(pages: seq<Page>, k: nat, size: nat): seq<Page>
    requires k < |pages|
  {
    pages[k := Page(pages[k].addr, pages[k].used + size)]
  }

  /** Without a page that fits, the source unwraps the mapping of the site, so it demands that there is one. */
  ghost predicate CanAllocate(s: State, size: nat, fromEnd: nat) {
    ValidMaps(s.maps) && (FirstFit(s.pages, size, fromEnd, 0).Some? || Mapped(s.maps, fromEnd))
  }

  function Allocate(s: State, size: nat, fromEnd: nat): Outcome
    requires CanAllocate(s, size, fromEnd)
  {
    var fit := FirstFit(s.pages, size, fromEnd, 0);
    if fit.Some? then AllocateIn(s, size, fromEnd, fit.value)
    else AllocateAt(s, size, fromEnd, NewPageAddr(s.maps, fromEnd))
  }

  function AllocateIn(s: State, size: nat, fromEnd: nat, k: nat): Outcome
    requires k < |s.pages|
  {
    var jump := s.pages[k].addr + s.pages[k].used;
    Outcome(State(Taken(s.pages, k, size), s.maps, s.blocks + [Block(jump, size, fromEnd)]), Some(jump))
  }

  function AllocateAt(s: State, size: nat, fromEnd: nat, addr: nat): Outcome
    requires ValidMaps(s.maps)
  {
    if !FitsI32(addr - fromEnd) then Outcome(s, None)
    else
      Outcome(State(s.pages + [Page(addr, size)], Insert(s.maps, Mapping(addr, addr + PAGE_SIZE, false)),
                    s.blocks + [Block(addr, size, fromEnd)]), Some(addr))
  }

  lemma NewPageIsFree(maps: seq<Mapping>, fromEnd: nat)
    requires ValidMaps(maps) && Mapped(maps, fromEnd)
    ensures
      var addr := NewPageAddr(maps, fromEnd);
      Free(maps, addr - PAGE_SIZE, addr + 2 * PAGE_SIZE) && Free(maps, addr, addr + PAGE_SIZE)
  {
    var m := MappingOf(maps, fromEnd).value;
    var i :| 0 <= i < |maps| && maps[i] == m;
    GapIsFree(maps, 3 * PAGE_SIZE, StartingAt(maps, m.start));
  }

  /** `b` stays in its page when pages are added or used further. */
  lemma InPagesGrows(pages: seq<Page>, pages': seq<Page>, b: Block) returns (k: nat)
    requires InPages(pages, b)
    requires |pages| <= |pages'|
    requires forall j :: 0 <= j < |pages| ==> pages'[j].addr == pages[j].addr && pages[j].used <= pages'[j].used
    ensures InPages(pages', b)
    ensures k < |pages| && pages[k].addr <= b.start && b.start + b.size <= pages[k].addr + pages[k].used
  {
    k :| 0 <= k < |pages| && pages[k].addr <= b.start && b.start + b.size <= pages[k].addr + pages[k].used;
    assert pages'[k].addr == pages[k].addr;
  }

  /** A new block outside the used parts of all pages is apart from all other blocks. */
  lemma AppendBlock(pages: seq<Page>, pages': seq<Page>, blocks: seq<Block>, b: Block)
    requires BlocksOk(pages, blocks) && InPages(pages', b) && FitsI32(b.start - b.fromEnd)
    requires |pages| <= |pages'|
    requires forall j :: 0 <= j < |pages| ==> pages'[j].addr == pages[j].addr && pages[j].used <= pages'[j].used
    requires forall j :: 0 <= j < |pages| ==> Apart(pages[j].addr, pages[j].used, b.start, b.size)
    ensures BlocksOk(pages', blocks + [b])
  {
    forall i | 0 <= i < |blocks|
      ensures InPages(pages', blocks[i]) && Apart(blocks[i].start, blocks[i].size, b.start, b.size)
    {
      var k := InPagesGrows(pages, pages', blocks[i]);
    }
  }

  lemma ReuseKeepsValid(s: State, size: nat, fromEnd: nat, k: nat)
    requires Valid(s) && k < |s.pages| && PageFits(s.pages[k], size, fromEnd)
    ensures Valid(AllocateIn(s, size, fromEnd, k).state)
  {
    ReuseKeepsParts(s, size, fromEnd, k);
  }

  /** Reusing a page: the block is the next free part of that page. */
  lemma ReuseKeepsParts(s: State, size: nat, fromEnd: nat, k: nat)
    requires Valid(s) && k < |s.pages| && PageFits(s.pages[k], size, fromEnd)
    ensures PagesOk(s.maps, Taken(s.pages, k, size))
    ensures BlocksOk(Taken(s.pages, k, size), s.blocks + [Block(s.pages[k].addr + s.pages[k].used, size, fromEnd)])
  {
    var p, pages' := s.pages[k], Taken(s.pages, k, size);
    TakenKeepsPages(s.maps, s.pages, k, size);
    NextIsApart(s.maps, s.pages, k, size);
    assert InPages(pages', Block(p.addr + p.used, size, fromEnd)) by { assert pages'[k].addr == p.addr; }
    AppendBlock(s.pages, pages', s.blocks, Block(p.addr + p.used, size, fromEnd));
  }

  lemma TakenKeepsPages(maps: seq<Mapping>, pages: seq<Page>, k: nat, size: nat)
    requires PagesOk(maps, pages) && k < |pages| && pages[k].used + size <= PAGE_SIZE
    ensures PagesOk(maps, Taken(pages, k, size))
  {
    var pages' := Taken(pages, k, size);
    forall j | 0 <= j < |pages'|
      ensures PageMapped(maps, pages'[j])
    {
      assert PageMapped(maps, pages[j]);
    }
  }

  /** The next free part of a page is apart from the used parts of all. */
  lemma NextIsApart(maps: seq<Mapping>, pages: seq<Page>, k: nat, size: nat)
    requires PagesOk(maps, pages) && k < |pages| && pages[k].used + size <= PAGE_SIZE
    ensures forall j :: 0 <= j < |pages| ==>
              Apart(pages[j].addr, pages[j].used, pages[k].addr + pages[k].used, size)
  {
    forall j | 0 <= j < |pages|
      ensures Apart(pages[j].addr, pages[j].used, pages[k].addr + pages[k].used, size)
    {
      if j < k {
        assert Apart(pages[j].addr, PAGE_SIZE, pages[k].addr, PAGE_SIZE);
      } else if k < j {
        assert Apart(pages[k].addr, PAGE_SIZE, pages[j].addr, PAGE_SIZE);
      }
    }
  }

  lemma FreshIsApart(maps: seq<Mapping>, p: Page, addr: nat)
    requires PageMapped(maps, p) && Free(maps, addr, addr + PAGE_SIZE)
    ensures Apart(p.addr, PAGE_SIZE, addr, PAGE_SIZE)
  {
  }

  lemma StaysMapped(maps: seq<Mapping>, maps': seq<Mapping>, p: Page)
    requires PageMapped(maps, p) && forall m <- maps :: m in maps'
    ensures PageMapped(maps', p)
  {
    var i :| 0 <= i < |maps| && maps[i].start <= p.addr && p.addr + PAGE_SIZE <= maps[i].end;
    assert maps[i] in maps';
  }

  lemma FreshKeepsValid(s: State, size: nat, fromEnd: nat, addr: nat)
    requires Valid(s) && size <= PAGE_SIZE && FitsI32(addr - fromEnd) && Free(s.maps, addr, addr + PAGE_SIZE)
    ensures Valid(AllocateAt(s, size, fromEnd, addr).state)
  {
    FreshKeepsPages(s, size, addr);
    FreshKeepsBlocks(s, size, fromEnd, addr);
  }

  /** A fresh page overlaps no mapping, hence no other page. */
  lemma FreshKeepsPages(s: State, size: nat, addr: nat)
    requires Valid(s) && size <= PAGE_SIZE && Free(s.maps, addr, addr + PAGE_SIZE)
    ensures
      var m := Mapping(addr, addr + PAGE_SIZE, false);
      ValidMaps(Insert(s.maps, m)) && PagesOk(Insert(s.maps, m), s.pages + [Page(addr, size)])
  {
    var m := Mapping(addr, addr + PAGE_SIZE, false);
    var maps' := Insert(s.maps, m);
    InsertKeepsOrder(s.maps, m);
    InsertAdds(s.maps, m);
    assert m in maps';
    forall k | 0 <= k < |s.pages|
      ensures PageMapped(maps', s.pages[k]) && Apart(s.pages[k].addr, PAGE_SIZE, addr, PAGE_SIZE)
    {
      StaysMapped(s.maps, maps', s.pages[k]);
      FreshIsApart(s.maps, s.pages[k], addr);
    }
  }

  lemma FreshKeepsBlocks(s: State, size: nat, fromEnd: nat, addr: nat)
    requires Valid(s) && size <= PAGE_SIZE && FitsI32(addr - fromEnd) && Free(s.maps, addr, addr + PAGE_SIZE)
    ensures BlocksOk(s.pages + [Page(addr, size)], s.blocks + [Block(addr, size, fromEnd)])
  {
    var pages' := s.pages + [Page(addr, size)];
    forall k | 0 <= k < |s.pages|
      ensures Apart(s.pages[k].addr, s.pages[k].used, addr, size)
    {
      FreshIsApart(s.maps, s.pages[k], addr);
    }
    assert InPages(pages', Block(addr, size, fromEnd)) by { assert pages'[|s.pages|] == Page(addr, size); }
    AppendBlock(s.pages, pages', s.blocks, Block(addr, size, fromEnd));
  }

  /** Everything is kept and one block in reach of its site is added, or nothing changes. */
  ghost predicate Granted(s: State, r: Outcome, size: nat, fromEnd: nat) {
    && Valid(r.state)
    && if r.jump.None? then r.state == s
       else r.state.blocks == s.blocks + [Block(r.jump.value, size, fromEnd)] && FitsI32(r.jump.value - fromEnd)
  }

  lemma ReuseGrants(s: State, size: nat, fromEnd: nat, k: nat)
    requires Valid(s) && k < |s.pages| && PageFits(s.pages[k], size, fromEnd)
    ensures Granted(s, AllocateIn(s, size, fromEnd, k), size, fromEnd)
  {
    ReuseKeepsValid(s, size, fromEnd, k);
  }

  lemma FreshGrants(s: State, size: nat, fromEnd: nat, addr: nat)
    requires Valid(s) && size <= PAGE_SIZE && Free(s.maps, addr, addr + PAGE_SIZE)
    ensures Granted(s, AllocateAt(s, size, fromEnd, addr), size, fromEnd)
  {
    if FitsI32(addr - fromEnd) {
      FreshKeepsValid(s, size, fromEnd, addr);
    }
  }

  /** An allocation keeps everything and adds one block in reach of its site, or changes nothing. */
  lemma AllocateKeepsValid(s: State, size: nat, fromEnd: nat)
    requires Valid(s) && CanAllocate(s, size, fromEnd) && size <= PAGE_SIZE
    ensures Granted(s, Allocate(s, size, fromEnd), size, fromEnd)
  {
    var fit := FirstFit(s.pages, size, fromEnd, 0);
    if fit.Some? {
      ReuseGrants(s, size, fromEnd, fit.value);
    } else {
      NewPageIsFree(s.maps, fromEnd);
      FreshGrants(s, size, fromEnd, NewPageAddr(s.maps, fromEnd));
    }
  }

  // ----- Whole runs, with the tracee changing its other mappings in between

  datatype Request = Jump(size: nat, fromEnd: nat) | Remap(maps: seq<Mapping>)

  ghost predicate Enabled(s: State, r: Request) {
    match r
    case Jump(size, fromEnd) => CanAllocate(s, size, fromEnd) && size <= PAGE_SIZE
    case Remap(maps) => ValidMaps(maps) && forall k :: 0 <= k < |s.pages| ==> PageMapped(maps, s.pages[k])
  }

  ghost function Serve(s: State, r: Request): State
    requires Enabled(s, r)
  {
    match r
    case Jump(size, fromEnd) => Allocate(s, size, fromEnd).state
    case Remap(maps) => s.(maps := maps)
  }

  ghost predicate Serves(s: State, rs: seq<Request>, s': State)
    decreases |rs|
  {
    if rs == [] then s == s' else Enabled(s, rs[0]) && Serves(Serve(s, rs[0]), rs[1..], s')
  }

  /** Over any run the blocks stay pairwise disjoint, inside their pages and in reach, and none is ever taken back. */
  lemma {:induction false} BlocksOverRuns(s: State, rs: seq<Request>, s': State)
    requires Valid(s) && Serves(s, rs, s')
    ensures Valid(s') && s.blocks <= s'.blocks
    decreases |rs|
  {
    if rs != [] {
      if rs[0].Jump? {
        AllocateKeepsValid(s, rs[0].size, rs[0].fromEnd);
      }
      BlocksOverRuns(Serve(s, rs[0]), rs[1..], s');
    }
  }

  // ----- The index of stubs

  /** Every recorded stub is a block that was handed out. */
  ghost predicate StubsRecorded(s: State, stubs: map<nat, nat>) {
    forall k <- stubs ::
      stubs[k] > 0 && exists i :: 0 <= i < |s.blocks| && s.blocks[i].start == k && s.blocks[i].size == stubs[k]
  }

  ghost predicate InSomeStub(stubs: map<nat, nat>, p: nat) {
    exists k :: k in stubs && k <= p < k + stubs[k]
  }

  lemma StubsApart(s: State, stubs: map<nat, nat>, a: nat, b: nat)
    requires Valid(s) && StubsRecorded(s, stubs) && a in stubs && b in stubs && a != b
    ensures Apart(a, stubs[a], b, stubs[b])
  {
    var i :| 0 <= i < |s.blocks| && s.blocks[i].start == a && s.blocks[i].size == stubs[a];
    var j :| 0 <= j < |s.blocks| && s.blocks[j].start == b && s.blocks[j].size == stubs[b];
    if i < j {
      assert Apart(s.blocks[i].start, s.blocks[i].size, s.blocks[j].start, s.blocks[j].size);
    } else {
      assert Apart(s.blocks[j].start, s.blocks[j].size, s.blocks[i].start, s.blocks[i].size);
    }
  }

  /** The last key of the ordered map that is not above `p`. */
  method LastKeyUpTo(stubs: map<nat, nat>, p: nat) returns (r: Option<nat>)
    ensures r.Some? ==> r.value in stubs && r.value <= p && forall k <- stubs :: k <= p ==> k <= r.value
    ensures r.None? ==> forall k <- stubs :: k > p
  {
    r := None;
    var rest := stubs.Keys;
    while rest != {}
      invariant rest <= stubs.Keys
      invariant r.Some? ==> r.value in stubs && r.value <= p && forall k <- stubs :: k !in rest && k <= p ==>
                k <= r.value
      invariant r.None? ==> forall k <- stubs :: k !in rest ==> k > p
      decreases rest
    {
      var k :| k in rest;
      rest := rest - {k};
      if k <= p && (r.None? || r.value < k) {
        r := Some(k);
      }
    }
  }

  /** One point query on the ordered map decides whether any recorded stub contains the address. */
  method IsJumpStubInstruction(ghost s: State, stubs: map<nat, nat>, ip: nat) returns (r: bool)
    requires Valid(s) && StubsRecorded(s, stubs)
    ensures r <==> InSomeStub(stubs, ip)
  {
    var k := LastKeyUpTo(stubs, ip);
    if k.None? {
      return false;
    }
    r := k.value <= ip < k.value + stubs[k.value];
    if InSomeStub(stubs, ip) {
      ghost var j :| j in stubs && j <= ip < j + stubs[j];
      if j != k.value {
        StubsApart(s, stubs, j, k.value);
      }
    }
  }
}
