/** The sorted map of a tracee's memory mappings (`address_space.rs`). */
module AddressSpace {
  import opened Words

  const PAGE_SIZE: nat := 4096

  datatype Mapping = Mapping(start: nat, end: nat, growsDown: bool)

  /** Mappings are not empty, sorted and disjoint. */
  ghost predicate ValidMaps(maps: seq<Mapping>) {
    && (forall i :: 0 <= i < |maps| ==> maps[i].start < maps[i].end)
    && (forall i, j :: 0 <= i < j < |maps| ==> maps[i].end <= maps[j].start)
  }

  ghost predicate Mapped(maps: seq<Mapping>, addr: int) {
    exists i :: 0 <= i < |maps| && maps[i].start <= addr < maps[i].end
  }

  /** No mapping has a byte in `[start, end)`. */
  ghost predicate Free(maps: seq<Mapping>, start: int, end: int) {
    forall i :: 0 <= i < |maps| ==> maps[i].end <= start || end <= maps[i].start
  }

  /** The index of the first mapping that starts at `addr` or later. */
  function StartingAt(maps: seq<Mapping>, addr: int): (n: nat)
    requires ValidMaps(maps)
    ensures n <= |maps|
    ensures forall i :: 0 <= i < |maps| ==> (i < n <==> maps[i].start < addr)
  {
    if maps == [] then 0
    else
      var n := StartingAt(maps[..|maps| - 1], addr);
      if maps[|maps| - 1].start < addr then |maps| else n
  }

  /** The mapping that contains `addr`. */
  function MappingOf(maps: seq<Mapping>, addr: int): (m: Option<Mapping>)
    requires ValidMaps(maps)
    ensures m.Some? <==> Mapped(maps, addr)
    ensures m.Some? ==> m.value in maps && m.value.start <= addr < m.value.end
  {
    var n := StartingAt(maps, addr + 1);
    if n > 0 && addr < maps[n - 1].end then Some(maps[n - 1]) else None
  }

  /** Inserts a mapping into free space. */
  function Insert(maps: seq<Mapping>, m: Mapping): seq<Mapping>
    requires ValidMaps(maps)
  {
    var n := StartingAt(maps, m.start);
    maps[..n] + [m] + maps[n..]
  }

  lemma InsertKeepsOrder(maps: seq<Mapping>, m: Mapping)
    requires ValidMaps(maps) && m.start < m.end && Free(maps, m.start, m.end)
    ensures ValidMaps(Insert(maps, m))
  {
    var n := StartingAt(maps, m.start);
    assert forall i :: 0 <= i < n ==> maps[i].end <= m.start;
    assert forall i :: n <= i < |maps| ==> m.end <= maps[i].start;
    InsertedInOrder(maps, m, n);
  }

  lemma InsertedInOrder(maps: seq<Mapping>, m: Mapping, n: nat)
    requires ValidMaps(maps) && m.start < m.end && n <= |maps|
    requires forall i :: 0 <= i < n ==> maps[i].end <= m.start
    requires forall i :: n <= i < |maps| ==> m.end <= maps[i].start
    ensures ValidMaps(maps[..n] + [m] + maps[n..])
  {
    var maps' := maps[..n] + [m] + maps[n..];
    assert forall i :: 0 <= i < |maps'| ==> maps'[i] == if i < n then maps[i] else if i == n then m else maps[i - 1];
  }

  lemma InsertAdds(maps: seq<Mapping>, m: Mapping)
    requires ValidMaps(maps)
    ensures forall x :: x in Insert(maps, m) <==> x in maps || x == m
  {
    var n := StartingAt(maps, m.start);
    assert maps == maps[..n] + maps[n..];
  }

  /**
   * The end of the first mapping from index `i` on that has a gap of `required` bytes behind it, or of the
   * last one.
   */
  function GapAfter(maps: seq<Mapping>, required: nat, i: nat): nat
    requires i < |maps|
    decreases |maps| - i
  {
    if i + 1 == |maps| || maps[i].end + required <= maps[i + 1].start then maps[i].end
    else GapAfter(maps, required, i + 1)
  }

  /** The gap lies behind mapping `i` and no mapping reaches into it. */
  lemma {:induction false} GapIsFree(maps: seq<Mapping>, required: nat, i: nat)
    requires ValidMaps(maps) && i < |maps|
    ensures
      var r := GapAfter(maps, required, i);
      r >= maps[i].end && Free(maps, r, r + required)
    decreases |maps| - i
  {
    if i + 1 == |maps| || maps[i].end + required <= maps[i + 1].start {
      forall k | 0 <= k < |maps|
        ensures maps[k].end <= maps[i].end || maps[i].end + required <= maps[k].start
      {
        if k > i {
          assert maps[i + 1].start <= maps[k].start;
        }
      }
    } else {
      GapIsFree(maps, required, i + 1);
    }
  }

  /** The source panics unless some mapping starts at `after` or later. */
  method FindFreeMemory(maps: seq<Mapping>, required: nat, after: nat) returns (r: nat)
    requires ValidMaps(maps) && StartingAt(maps, after) < |maps|
    ensures r == GapAfter(maps, required, StartingAt(maps, after))
  {
    var i := StartingAt(maps, after);
    while i + 1 < |maps| && maps[i].end + required > maps[i + 1].start
      invariant StartingAt(maps, after) <= i < |maps|
      invariant GapAfter(maps, required, i) == GapAfter(maps, required, StartingAt(maps, after))
    {
      i := i + 1;
    }
    r := maps[i].end;
  }
}
