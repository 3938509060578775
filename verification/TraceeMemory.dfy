/** Tracee memory, read and written a range at a time. */
module TraceeMemory {
  import opened Words

  /** The ranges of `n` bytes at `a` and `m` bytes at `b` do not overlap. */
  ghost predicate Apart(a: int, n: nat, b: int, m: nat) {
    a + n <= b || b + m <= a
  }

  ghost predicate HasByte(mem: Memory, a: int, b: byte) {
    a in mem && mem[a] == b
  }

  ghost predicate HasBytes(mem: Memory, a: int, s: seq<byte>) {
    forall i :: 0 <= i < |s| ==> HasByte(mem, a + i, s[i])
  }

  function Write(mem: Memory, a: int, s: seq<byte>): Memory
    decreases |s|
  {
    if s == [] then mem else Write(mem, a, s[..|s| - 1])[a + |s| - 1 := s[|s| - 1]]
  }

  lemma {:induction false} WriteChangesRange(mem: Memory, a: int, s: seq<byte>)
    ensures HasBytes(Write(mem, a, s), a, s)
    ensures forall k :: k in mem && !(a <= k < a + |s|) ==> k in Write(mem, a, s) && Write(mem, a, s)[k] == mem[k]
    decreases |s|
  {
    if s != [] {
      WriteChangesRange(mem, a, s[..|s| - 1]);
    }
  }

  lemma WriteElsewhere(mem: Memory, a: int, s: seq<byte>, b: int, t: seq<byte>)
    requires HasBytes(mem, b, t) && Apart(a, |s|, b, |t|)
    ensures HasBytes(Write(mem, a, s), b, t)
  {
    WriteChangesRange(mem, a, s);
  }

  lemma TwoWrites(mem: Memory, a: int, x: seq<byte>, b: int, y: seq<byte>)
    requires Apart(a, |x|, b, |y|)
    ensures HasBytes(Write(Write(mem, a, x), b, y), a, x) && HasBytes(Write(Write(mem, a, x), b, y), b, y)
  {
    WriteChangesRange(mem, a, x);
    WriteElsewhere(Write(mem, a, x), b, y, a, x);
    WriteChangesRange(Write(mem, a, x), b, y);
  }

  lemma {:induction false} WriteInTwo(mem: Memory, a: int, x: seq<byte>, y: seq<byte>)
    ensures Write(mem, a, x + y) == Write(Write(mem, a, x), a + |x|, y)
    decreases |y|
  {
    if y == [] {
      assert x + y == x;
    } else {
      var y' := y[..|y| - 1];
      WriteInTwo(mem, a, x, y');
      assert (x + y)[..|x + y| - 1] == x + y';
    }
  }

  lemma HasConcat(mem: Memory, a: int, x: seq<byte>, y: seq<byte>)
    requires HasBytes(mem, a, x + y)
    ensures HasBytes(mem, a, x) && HasBytes(mem, a + |x|, y)
  {
    var s := x + y;
    forall i | 0 <= i < |x| ensures HasByte(mem, a + i, x[i]) {
      assert s[i] == x[i];
    }
    forall i | 0 <= i < |y| ensures HasByte(mem, a + |x| + i, y[i]) {
      assert s[|x| + i] == y[i];
    }
  }

  ghost predicate RangeIn(keys: set<int>, a: int, n: nat) {
    forall k :: a <= k < a + n ==> k in keys
  }

  function Read(mem: Memory, a: int, n: nat): (s: seq<byte>)
    ensures |s| == n
  {
    seq(n, i requires 0 <= i < n => if a + i in mem then mem[a + i] else 0)
  }

  /** What a write leaves at each address. */
  lemma {:induction false} WriteAt(mem: Memory, a: int, s: seq<byte>)
    ensures forall k :: k in Write(mem, a, s) <==> k in mem || a <= k < a + |s|
    ensures forall k <- Write(mem, a, s) :: Write(mem, a, s)[k] == if a <= k < a + |s| then s[k - a] else mem[k]
    decreases |s|
  {
    if s != [] {
      WriteAt(mem, a, s[..|s| - 1]);
    }
  }

  lemma WriteInPlace(mem: Memory, a: int, s: seq<byte>)
    requires RangeIn(mem.Keys, a, |s|)
    ensures Write(mem, a, s).Keys == mem.Keys
    ensures forall k <- mem :: Write(mem, a, s)[k] == if a <= k < a + |s| then s[k - a] else mem[k]
  {
    WriteAt(mem, a, s);
  }

  lemma PutBack(mem: Memory, m1: Memory, m2: Memory, a: int, bytes: seq<byte>)
    requires bytes == Read(mem, a, |bytes|) && m1.Keys == mem.Keys && m2.Keys == mem.Keys
    requires forall k <- mem :: !(a <= k < a + |bytes|) ==> m1[k] == mem[k]
    requires forall k <- mem :: m2[k] == if a <= k < a + |bytes| then bytes[k - a] else m1[k]
    ensures m2 == mem
  {
    forall k | k in mem
      ensures m2[k] == mem[k]
    {
      PutBackAt(mem, m1[k], m2[k], a, bytes, k);
    }
    SameMemory(mem, m2);
  }

  lemma PutBackAt(mem: Memory, b1: byte, b2: byte, a: int, bytes: seq<byte>, k: int)
    requires k in mem && bytes == Read(mem, a, |bytes|) && (!(a <= k < a + |bytes|) ==> b1 == mem[k])
    requires b2 == if a <= k < a + |bytes| then bytes[k - a] else b1
    ensures b2 == mem[k]
  {
    if a <= k < a + |bytes| {
      ReadAt(mem, a, |bytes|, k - a);
    }
  }

  lemma ReadAt(mem: Memory, a: int, n: nat, i: nat)
    requires i < n && a + i in mem
    ensures Read(mem, a, n)[i] == mem[a + i]
  {
  }

  lemma SameMemory(m: Memory, m': Memory)
    requires m.Keys == m'.Keys && forall k <- m :: m[k] == m'[k]
    ensures m == m'
  {
    assert m.Keys == m'.Keys;
    assert forall k <- m :: m[k] == m'[k];
  }

  /** Writing over a range and writing back what was there changes nothing. */
  lemma WriteBack(mem: Memory, a: int, s: seq<byte>)
    requires RangeIn(mem.Keys, a, |s|)
    ensures Write(Write(mem, a, s), a, Read(mem, a, |s|)) == mem
    ensures Write(mem, a, s).Keys == mem.Keys
  {
    WriteInPlace(mem, a, s);
    var bytes := Read(mem, a, |s|);
    WriteInPlace(Write(mem, a, s), a, bytes);
    PutBack(mem, Write(mem, a, s), Write(Write(mem, a, s), a, bytes), a, bytes);
  }
}
