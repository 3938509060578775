/** Growing a stack mapping downwards on a fault below it (`record_signal.rs`). */
module GrowMap {
  import opened Words
  import opened AddressSpace

  const GROW_SIZE: nat := 0x10000

  function FloorPage(a: nat): nat {
    a / PAGE_SIZE * PAGE_SIZE
  }

  function CeilPage(a: nat): nat {
    FloorPage(a + PAGE_SIZE - 1)
  }

  ghost predicate Aligned(maps: seq<Mapping>) {
    forall i :: 0 <= i < |maps| ==> maps[i].start % PAGE_SIZE == 0 && maps[i].end % PAGE_SIZE == 0
  }

  ghost predicate ValidSpace(maps: seq<Mapping>) {
    ValidMaps(maps) && Aligned(maps)
  }

  function Min(a: nat, b: nat): nat {
    if a <= b then a else b
  }

  function Max(a: nat, b: nat): nat {
    if a <= b then b else a
  }

  /** The lowest address the stack limit allows; `limit` is the size of the stack, if it is limited. */
  function LimitBottom(it: Mapping, limit: Option<nat>): (r: nat)
    requires limit.Some? ==> limit.value <= it.end
    ensures r % PAGE_SIZE == 0
  {
    if limit.None? then 0 else CeilPage(it.end - limit.value)
  }

  // ----- When and how far the mapping grows

  /** The mapping that would grow: the first that starts at the faulting page or later. */
  ghost function Candidate(maps: seq<Mapping>, addr: nat): Option<Mapping>
    requires ValidMaps(maps)
  {
    var n := StartingAt(maps, FloorPage(addr));
    if n < |maps| then Some(maps[n]) else None
  }

  /** The stack limit does not exceed the end of the mapping. */
  ghost predicate LimitInside(maps: seq<Mapping>, addr: nat, limit: Option<nat>)
    requires ValidMaps(maps)
  {
    Candidate(maps, addr).Some? && limit.Some? ==> limit.value <= Candidate(maps, addr).value.end
  }

  ghost predicate Grows(maps: seq<Mapping>, addr: nat, limit: Option<nat>)
    requires ValidMaps(maps) && LimitInside(maps, addr, limit)
  {
    && !Mapped(maps, addr)
    && Candidate(maps, addr).Some? && Candidate(maps, addr).value.growsDown
    && (addr >= PAGE_SIZE ==> !Mapped(maps, addr - PAGE_SIZE))
    && LimitBottom(Candidate(maps, addr).value, limit) <= addr
  }

  /** 64K below the mapping or the faulting page, whichever is lower, but not below the limit. */
  function PossibleStart(it: Mapping, page: nat, bottom: nat): nat
    requires it.start >= GROW_SIZE
  {
    Max(bottom, Min(page, it.start - GROW_SIZE))
  }

  /** The 64K step is taken when it and the page below it are free. */
  ghost predicate TakesStep(maps: seq<Mapping>, it: Mapping, page: nat, bottom: nat) {
    && it.start >= GROW_SIZE
    && var p := PossibleStart(it, page, bottom);
    && p >= PAGE_SIZE && Free(maps, p - PAGE_SIZE, it.start)
  }

  ghost function NewStart(maps: seq<Mapping>, it: Mapping, page: nat, bottom: nat): nat {
    if TakesStep(maps, it, page, bottom) then PossibleStart(it, page, bottom) else page
  }

  /** What must hold of the range `[start, it.start)` that gets mapped. */
  ghost predicate Safe(maps: seq<Mapping>, it: Mapping, start: nat, addr: nat, bottom: nat) {
    && start % PAGE_SIZE == 0
    && start <= FloorPage(addr) && FloorPage(addr) + PAGE_SIZE <= it.start
    && Free(maps, start, it.start)
    && Free(maps, start - PAGE_SIZE, start)
    && bottom <= start
  }

  // ----- Pages

  lemma FloorMeaning(a: nat)
    ensures FloorPage(a) % PAGE_SIZE == 0 && FloorPage(a) <= a < FloorPage(a) + PAGE_SIZE
  {
  }

  lemma AlignedBelow(a: nat, m: nat)
    requires m % PAGE_SIZE == 0
    ensures m <= a <==> m <= FloorPage(a)
  {
    FloorMeaning(a);
  }

  /** An address is mapped exactly when its whole page is, so an unmapped address has a free page. */
  lemma UnmappedPageIsFree(maps: seq<Mapping>, addr: nat)
    requires ValidSpace(maps) && !Mapped(maps, addr)
    ensures Free(maps, FloorPage(addr), FloorPage(addr) + PAGE_SIZE)
  {
    FloorMeaning(addr);
    forall i | 0 <= i < |maps|
      ensures maps[i].end <= FloorPage(addr) || FloorPage(addr) + PAGE_SIZE <= maps[i].start
    {
      AlignedBelow(addr, maps[i].start);
      AlignedBelow(addr, maps[i].end);
    }
  }

  /** From a free page up to the first mapping that starts behind it, everything is free. */
  lemma FreeUpToNext(maps: seq<Mapping>, page: nat, n: nat)
    requires ValidMaps(maps) && n == StartingAt(maps, page) < |maps| && !Mapped(maps, page)
    ensures Free(maps, page, maps[n].start) && maps[n].start > page
  {
    forall i | 0 <= i < |maps|
      ensures maps[i].end <= page || maps[n].start <= maps[i].start
    {
      if i < n {
        assert maps[i].start < page;
      } else if i > n {
        assert maps[n].end <= maps[i].start;
      }
    }
  }

  lemma FreeIsUnmapped(maps: seq<Mapping>, a: int, b: int, addr: int)
    requires Free(maps, a, b) && a <= addr < b
    ensures !Mapped(maps, addr)
  {
  }

  lemma FreePart(maps: seq<Mapping>, a: int, b: int, c: int, d: int)
    requires Free(maps, a, d) && a <= b <= c <= d
    ensures Free(maps, b, c)
  {
  }

  // ----- The two queries of the source decide whether the step is free

  lemma StepIsFreeIff(maps: seq<Mapping>, it: Mapping, below: nat)
    requires ValidMaps(maps) && it in maps && below < it.start
    ensures StartingAt(maps, below) < |maps|
    ensures Free(maps, below, it.start) <==> !Mapped(maps, below) && maps[StartingAt(maps, below)].start == it.start
  {
    var n := StartingAt(maps, below);
    var k :| 0 <= k < |maps| && maps[k] == it;
    assert n <= k;
    if Free(maps, below, it.start) {
      FreeIsUnmapped(maps, below, it.start, below);
      assert maps[n].end <= below || it.start <= maps[n].start;
    }
    if !Mapped(maps, below) {
      FreeUpToNext(maps, below, n);
    }
  }

  // ----- The growth is safe

  lemma PageGrowthIsSafe(maps: seq<Mapping>, addr: nat, limit: Option<nat>)
    requires ValidSpace(maps) && LimitInside(maps, addr, limit) && Grows(maps, addr, limit)
    ensures
      var it := Candidate(maps, addr).value;
      Safe(maps, it, FloorPage(addr), addr, LimitBottom(it, limit))
  {
    FloorMeaning(addr);
    FreeAbove(maps, addr, StartingAt(maps, FloorPage(addr)));
    FreeBelow(maps, addr);
    AlignedBelow(addr, LimitBottom(Candidate(maps, addr).value, limit));
  }

  lemma FreeAbove(maps: seq<Mapping>, addr: nat, n: nat)
    requires ValidSpace(maps) && !Mapped(maps, addr) && n == StartingAt(maps, FloorPage(addr)) < |maps|
    ensures Free(maps, FloorPage(addr), maps[n].start) && FloorPage(addr) + PAGE_SIZE <= maps[n].start
  {
    var page := FloorPage(addr);
    UnmappedPageIsFree(maps, addr);
    FreeIsUnmapped(maps, page, page + PAGE_SIZE, page);
    FreeUpToNext(maps, page, n);
    assert maps[n].end <= page || page + PAGE_SIZE <= maps[n].start;
  }

  lemma FreeBelow(maps: seq<Mapping>, addr: nat)
    requires ValidSpace(maps) && (addr >= PAGE_SIZE ==> !Mapped(maps, addr - PAGE_SIZE))
    ensures Free(maps, FloorPage(addr) - PAGE_SIZE, FloorPage(addr))
  {
    if addr >= PAGE_SIZE {
      UnmappedPageIsFree(maps, addr - PAGE_SIZE);
      assert FloorPage(addr - PAGE_SIZE) == FloorPage(addr) - PAGE_SIZE;
    }
  }

  lemma StepGrowthIsSafe(maps: seq<Mapping>, it: Mapping, addr: nat, bottom: nat)
    requires ValidSpace(maps) && it in maps && Safe(maps, it, FloorPage(addr), addr, bottom) && bottom % PAGE_SIZE == 0
    requires TakesStep(maps, it, FloorPage(addr), bottom)
    ensures Safe(maps, it, PossibleStart(it, FloorPage(addr), bottom), addr, bottom)
  {
    var p := PossibleStart(it, FloorPage(addr), bottom);
    assert it.start % PAGE_SIZE == 0;
    assert GROW_SIZE % PAGE_SIZE == 0 && (it.start - GROW_SIZE) % PAGE_SIZE == 0;
    FreePart(maps, p - PAGE_SIZE, p, it.start, it.start);
    FreePart(maps, p - PAGE_SIZE, p - PAGE_SIZE, p, it.start);
  }

  /**
   * Whatever start is chosen, the range is aligned, holds the faulting page, is free together with the page below
   * it, and respects the limit.
   */
  lemma GrowthIsSafe(maps: seq<Mapping>, addr: nat, limit: Option<nat>)
    requires ValidSpace(maps) && LimitInside(maps, addr, limit) && Grows(maps, addr, limit)
    ensures
      var it := Candidate(maps, addr).value;
      var bottom := LimitBottom(it, limit);
      Safe(maps, it, NewStart(maps, it, FloorPage(addr), bottom), addr, bottom)
  {
    var it := Candidate(maps, addr).value;
    var bottom := LimitBottom(it, limit);
    PageGrowthIsSafe(maps, addr, limit);
    if TakesStep(maps, it, FloorPage(addr), bottom) {
      StepGrowthIsSafe(maps, it, addr, bottom);
    }
  }

  ghost function Grown(maps: seq<Mapping>, addr: nat, limit: Option<nat>): seq<Mapping>
    requires ValidMaps(maps) && LimitInside(maps, addr, limit)
  {
    if Grows(maps, addr, limit) then
      var it := Candidate(maps, addr).value;
      Insert(maps, Mapping(NewStart(maps, it, FloorPage(addr), LimitBottom(it, limit)), it.start, true))
    else maps
  }

  /** The grown space is sorted, disjoint and aligned, maps the faulting address, and keeps every mapping. */
  lemma GrownIsValid(maps: seq<Mapping>, addr: nat, limit: Option<nat>)
    requires ValidSpace(maps) && LimitInside(maps, addr, limit)
    ensures
      var maps' := Grown(maps, addr, limit);
      && ValidSpace(maps') && (forall m <- maps :: m in maps')
      && (Grows(maps, addr, limit) ==> Mapped(maps', addr))
  {
    if Grows(maps, addr, limit) {
      var it := Candidate(maps, addr).value;
      var m := Mapping(NewStart(maps, it, FloorPage(addr), LimitBottom(it, limit)), it.start, true);
      GrowthIsSafe(maps, addr, limit);
      FloorMeaning(addr);
      InsertKeepsOrder(maps, m);
      InsertAdds(maps, m);
      InsertKeepsAligned(maps, m);
      assert m in Insert(maps, m);
    }
  }

  lemma InsertKeepsAligned(maps: seq<Mapping>, m: Mapping)
    requires ValidSpace(maps) && m.start % PAGE_SIZE == 0 && m.end % PAGE_SIZE == 0
    ensures Aligned(Insert(maps, m))
  {
    var maps' := Insert(maps, m);
    InsertAdds(maps, m);
    forall i | 0 <= i < |maps'|
      ensures maps'[i].start % PAGE_SIZE == 0 && maps'[i].end % PAGE_SIZE == 0
    {
      assert maps'[i] in maps' && (maps'[i] in maps || maps'[i] == m);
    }
  }

  // ----- The recorder's task

  class RecordTask {
    var maps: seq<Mapping>

    constructor (maps: seq<Mapping>)
      ensures this.maps == maps
    {
      this.maps := maps;
    }

    /** The start after the 64K step, if the two queries allow it. */
    method ChooseStart(it: Mapping, page: nat, bottom: nat) returns (start: nat)
      requires ValidMaps(maps) && it in maps && page < it.start && bottom <= page
      ensures start == NewStart(maps, it, page, bottom)
    {
      start := page;
      if it.start >= GROW_SIZE {
        var possible := Max(bottom, Min(page, it.start - GROW_SIZE));
        if possible >= PAGE_SIZE {
          StepIsFreeIff(maps, it, possible - PAGE_SIZE);
          if MappingOf(maps, possible - PAGE_SIZE).None? {
            var next := StartingAt(maps, possible - PAGE_SIZE);
            if maps[next].start == it.start {
              start := possible;
            }
          }
        }
      }
    }

    /** The source subtracts the limit from the end of the mapping, so it demands that the limit is no larger. */
    method TryGrowMap(addr: nat, limit: Option<nat>) returns (grown: bool)
      requires ValidSpace(maps) && LimitInside(maps, addr, limit)
      modifies this
      ensures maps == Grown(old(maps), addr, limit) && (grown <==> Grows(old(maps), addr, limit))
    {
      var it := MappingToGrow(addr, limit);
      if it.None? {
        return false;
      }
      PageGrowthIsSafe(maps, addr, limit);
      var newStart := ChooseStart(it.value, FloorPage(addr), LimitBottom(it.value, limit));
      maps := Insert(maps, Mapping(newStart, it.value.start, true));
      return true;
    }

    /** The tests of the source, in its order. */
    method MappingToGrow(addr: nat, limit: Option<nat>) returns (r: Option<Mapping>)
      requires ValidMaps(maps) && LimitInside(maps, addr, limit)
      ensures r.Some? <==> Grows(maps, addr, limit)
      ensures r.Some? ==> r == Candidate(maps, addr)
    {
      if MappingOf(maps, addr).Some? {
        return None;
      }
      var n := StartingAt(maps, FloorPage(addr));
      if n == |maps| {
        return None;
      }
      var it := maps[n];
      if !it.growsDown {
        return None;
      }
      if addr >= PAGE_SIZE && MappingOf(maps, addr - PAGE_SIZE).Some? {
        return None;
      }
      if limit.Some? && CeilPage(it.end - limit.value) > addr {
        return None;
      }
      return Some(it);
    }
  }
}
