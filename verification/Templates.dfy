/** Assembly templates (`assembly_templates.py`): byte patterns with variable fields. */
module Templates {
  import opened Words

  /** A chunk of a template; the value of a field is little-endian. */
  datatype Chunk = Raw(bytes: seq<byte>) | Field(size: nat)

  function ChunkSize(c: Chunk): nat {
    match c
    case Raw(bytes) => |bytes|
    case Field(size) => size
  }

  function Size(cs: seq<Chunk>): nat {
    if cs == [] then 0 else Size(cs[..|cs| - 1]) + ChunkSize(cs[|cs| - 1])
  }

  function FieldCount(cs: seq<Chunk>): nat {
    if cs == [] then 0 else FieldCount(cs[..|cs| - 1]) + if cs[|cs| - 1].Field? then 1 else 0
  }

  /** The template's constant byte array, with zeros for the fields. */
  function TemplateBytes(cs: seq<Chunk>): (s: seq<byte>)
    ensures |s| == Size(cs)
  {
    if cs == [] then []
    else
      var c := cs[|cs| - 1];
      TemplateBytes(cs[..|cs| - 1]) + match c case Raw(bytes) => bytes case Field(size) => seq(size, _ => 0)
  }

  // ----- The bytes of a template with values for its fields

  predicate ValuesFit(cs: seq<Chunk>, vals: seq<nat>) {
    && |vals| == FieldCount(cs)
    && (cs == [] ||
        match cs[|cs| - 1]
        case Raw(_) => ValuesFit(cs[..|cs| - 1], vals)
        case Field(size) =>
          |vals| > 0 && vals[|vals| - 1] < Pow256(size) && ValuesFit(cs[..|cs| - 1], vals[..|vals| - 1]))
  }

  function Encode(cs: seq<Chunk>, vals: seq<nat>): (s: seq<byte>)
    requires |vals| == FieldCount(cs)
    ensures |s| == Size(cs)
  {
    if cs == [] then []
    else
      match cs[|cs| - 1]
      case Raw(bytes) => Encode(cs[..|cs| - 1], vals) + bytes
      case Field(size) => Encode(cs[..|cs| - 1], vals[..|vals| - 1]) + ToLittleEndian(vals[|vals| - 1], size)
  }

  /** The values of the fields in `buf`, if its other bytes are those of the template. */
  function Match(cs: seq<Chunk>, buf: seq<byte>): (r: Option<seq<nat>>)
    requires Size(cs) <= |buf|
    ensures r.Some? ==> |r.value| == FieldCount(cs)
  {
    if cs == [] then Some([])
    else
      var n, c := Size(cs[..|cs| - 1]), cs[|cs| - 1];
      MatchLast(Match(cs[..|cs| - 1], buf), c, buf[n..n + ChunkSize(c)])
  }

  /** The match of some chunks continued by one more chunk and its part of the buffer. */
  function MatchLast(r: Option<seq<nat>>, c: Chunk, part: seq<byte>): Option<seq<nat>> {
    if r.None? then None
    else
      match c
      case Raw(bytes) => if part == bytes then r else None
      case Field(_) => Some(r.value + [FromLittleEndian(part)])
  }

  lemma PrefixIs(buf: seq<byte>, n: nat, a: seq<byte>, b: seq<byte>)
    requires |a| == n && n + |b| <= |buf|
    ensures buf[..n + |b|] == a + b <==> buf[..n] == a && buf[n..n + |b|] == b
  {
    var s := buf[..n + |b|];
    assert s[..n] == buf[..n] && s[n..] == buf[n..n + |b|];
    if s == a + b {
      assert (a + b)[..n] == a && (a + b)[n..] == b;
    }
  }

  lemma LittleEndianIff(s: seq<byte>, v: nat)
    ensures FromLittleEndian(s) == v <==> v < Pow256(|s|) && s == ToLittleEndian(v, |s|)
  {
    LittleEndianEncodes(s);
    LittleEndianDecodes(v, |s|);
  }

  /** Matching inverts substitution, in both directions: a buffer matches with exactly the values it was filled with. */
  lemma {:induction false} MatchIffEncoded(cs: seq<Chunk>, buf: seq<byte>, vals: seq<nat>)
    requires Size(cs) <= |buf|
    ensures Match(cs, buf) == Some(vals) <==> ValuesFit(cs, vals) && buf[..Size(cs)] == Encode(cs, vals)
    decreases cs, 1
  {
    if cs != [] {
      if cs[|cs| - 1].Raw? {
        MatchIffEncodedRaw(cs, buf, vals);
      } else if vals != [] {
        MatchIffEncodedField(cs, buf, vals);
      }
    }
  }

  lemma {:induction false} MatchIffEncodedRaw(cs: seq<Chunk>, buf: seq<byte>, vals: seq<nat>)
    requires Size(cs) <= |buf| && cs != [] && cs[|cs| - 1].Raw?
    ensures Match(cs, buf) == Some(vals) <==> ValuesFit(cs, vals) && buf[..Size(cs)] == Encode(cs, vals)
    decreases cs, 0
  {
    var init, c := cs[..|cs| - 1], cs[|cs| - 1];
    var n := Size(init);
    MatchIffEncoded(init, buf, vals);
    MatchStep(cs, init, c, buf, n, buf[n..n + |c.bytes|]);
    if |vals| == FieldCount(cs) {
      PrefixIs(buf, n, Encode(init, vals), c.bytes);
    }
  }

  lemma {:induction false} MatchIffEncodedField(cs: seq<Chunk>, buf: seq<byte>, vals: seq<nat>)
    requires Size(cs) <= |buf| && cs != [] && cs[|cs| - 1].Field? && vals != []
    ensures Match(cs, buf) == Some(vals) <==> ValuesFit(cs, vals) && buf[..Size(cs)] == Encode(cs, vals)
    decreases cs, 0
  {
    var init, c := cs[..|cs| - 1], cs[|cs| - 1];
    var n, vs, v := Size(init), vals[..|vals| - 1], vals[|vals| - 1];
    var part := buf[n..n + c.size];
    MatchIffEncoded(init, buf, vs);
    MatchStep(cs, init, c, buf, n, part);
    LastField(Match(init, buf), c.size, part, vals);
    LittleEndianIff(part, v);
    EncodedField(cs, init, c, buf, n, part, vals, vs, v);
  }

  lemma MatchStep(cs: seq<Chunk>, init: seq<Chunk>, c: Chunk, buf: seq<byte>, n: nat, part: seq<byte>)
    requires cs != [] && init == cs[..|cs| - 1] && c == cs[|cs| - 1] && n == Size(init)
    requires Size(cs) <= |buf| && part == buf[n..n + ChunkSize(c)]
    ensures Match(cs, buf) == MatchLast(Match(init, buf), c, part)
  {
  }

  /** With a field at the end, the chunks before it match the values before the last, and the field holds the last. */
  lemma LastField(r: Option<seq<nat>>, size: nat, part: seq<byte>, vals: seq<nat>)
    requires vals != []
    ensures MatchLast(r, Field(size), part) == Some(vals) <==>
            r == Some(vals[..|vals| - 1]) && FromLittleEndian(part) == vals[|vals| - 1]
  {
    EndsIn(r, FromLittleEndian(part), vals);
  }

  lemma EncodedField(cs: seq<Chunk>, init: seq<Chunk>, c: Chunk, buf: seq<byte>, n: nat, part: seq<byte>,
                     vals: seq<nat>, vs: seq<nat>, v: nat)
    requires cs != [] && init == cs[..|cs| - 1] && c == cs[|cs| - 1] && n == Size(init) && c.Field?
    requires Size(cs) <= |buf| && part == buf[n..n + c.size]
    requires vals != [] && vs == vals[..|vals| - 1] && v == vals[|vals| - 1]
    ensures ValuesFit(cs, vals) && buf[..Size(cs)] == Encode(cs, vals) <==>
            && ValuesFit(init, vs) && buf[..n] == Encode(init, vs)
            && v < Pow256(c.size) && part == ToLittleEndian(v, c.size)
  {
    if |vs| == FieldCount(init) {
      PrefixIs(buf, n, Encode(init, vs), ToLittleEndian(v, c.size));
    }
  }

  lemma EndsIn(r: Option<seq<nat>>, x: nat, vals: seq<nat>)
    requires vals != []
    ensures r.Some? && r.value + [x] == vals <==> r == Some(vals[..|vals| - 1]) && x == vals[|vals| - 1]
  {
    var vs, v := vals[..|vals| - 1], vals[|vals| - 1];
    assert vals == vs + [v];
    if r.Some? && r.value + [x] == vals {
      assert vals[..|r.value|] == r.value;
    }
  }

  // ----- Merging adjacent raw chunks

  /** What merging the chunks so far and pending raw bytes stand for. */
  function Pending(merged: seq<Chunk>, raw: seq<byte>): seq<Chunk> {
    if raw == [] then merged else merged + [Raw(raw)]
  }

  /** Two chunk lists are interchangeable: same fields, same values, same bytes. */
  ghost predicate SameTemplate(a: seq<Chunk>, b: seq<Chunk>) {
    && Size(a) == Size(b)
    && FieldCount(a) == FieldCount(b)
    && (forall vals {:trigger ValuesFit(a, vals)} :: ValuesFit(a, vals) <==> ValuesFit(b, vals))
    && (forall vals {:trigger Encode(a, vals)} :: |vals| == FieldCount(a) ==> Encode(a, vals) == Encode(b, vals))
  }

  lemma SnocSizes(cs: seq<Chunk>, c: Chunk)
    ensures Size(cs + [c]) == Size(cs) + ChunkSize(c)
    ensures FieldCount(cs + [c]) == FieldCount(cs) + if c.Field? then 1 else 0
  {
    assert (cs + [c])[..|cs|] == cs;
  }

  lemma SnocEncodes(cs: seq<Chunk>, c: Chunk, vals: seq<nat>)
    requires |vals| == FieldCount(cs) + if c.Field? then 1 else 0
    ensures FieldCount(cs + [c]) == |vals|
    ensures Encode(cs + [c], vals) ==
            if c.Raw? then Encode(cs, vals) + c.bytes
            else Encode(cs, vals[..|vals| - 1]) + ToLittleEndian(vals[|vals| - 1], c.size)
  {
    assert (cs + [c])[..|cs|] == cs;
  }

  lemma SnocFits(cs: seq<Chunk>, c: Chunk, vals: seq<nat>)
    ensures ValuesFit(cs + [c], vals) <==>
            if c.Raw? then ValuesFit(cs, vals)
            else |vals| > 0 && vals[|vals| - 1] < Pow256(c.size) && ValuesFit(cs, vals[..|vals| - 1])
  {
    assert (cs + [c])[..|cs|] == cs;
  }

  lemma SnocSame(a: seq<Chunk>, b: seq<Chunk>, c: Chunk)
    requires SameTemplate(a, b)
    ensures SameTemplate(a + [c], b + [c])
  {
    SnocSizes(a, c);
    SnocSizes(b, c);
    forall vals
      ensures ValuesFit(a + [c], vals) <==> ValuesFit(b + [c], vals)
    {
      SnocFits(a, c, vals);
      SnocFits(b, c, vals);
    }
    forall vals | |vals| == FieldCount(a + [c])
      ensures Encode(a + [c], vals) == Encode(b + [c], vals)
    {
      SnocEncodes(a, c, vals);
      SnocEncodes(b, c, vals);
    }
  }

  lemma SnocRaw(cs: seq<Chunk>, bytes: seq<byte>)
    ensures Size(cs + [Raw(bytes)]) == Size(cs) + |bytes| && FieldCount(cs + [Raw(bytes)]) == FieldCount(cs)
    ensures forall vals {:trigger Encode(cs + [Raw(bytes)], vals)} ::
              |vals| == FieldCount(cs) ==> Encode(cs + [Raw(bytes)], vals) == Encode(cs, vals) + bytes
    ensures forall vals {:trigger ValuesFit(cs + [Raw(bytes)], vals)} :: ValuesFit(cs + [Raw(bytes)], vals) <==>
            ValuesFit(cs, vals)
  {
    assert (cs + [Raw(bytes)])[..|cs|] == cs;
  }

  lemma SnocField(cs: seq<Chunk>, size: nat, vals: seq<nat>, v: nat)
    requires |vals| == FieldCount(cs)
    ensures Size(cs + [Field(size)]) == Size(cs) + size && FieldCount(cs + [Field(size)]) == |vals + [v]|
    ensures Encode(cs + [Field(size)], vals + [v]) == Encode(cs, vals) + ToLittleEndian(v, size)
  {
    assert (cs + [Field(size)])[..|cs|] == cs;
    assert (vals + [v])[..|vals|] == vals;
  }

  lemma EmptyRawSame(a: seq<Chunk>)
    ensures SameTemplate(a + [Raw([])], a)
  {
    SnocRaw(a, []);
    forall vals | |vals| == FieldCount(a)
      ensures Encode(a + [Raw([])], vals) == Encode(a, vals)
    {
      assert Encode(a, vals) + [] == Encode(a, vals);
    }
  }

  lemma RawAppends(a: seq<Chunk>, raw: seq<byte>, vals: seq<nat>)
    ensures FieldCount(a + [Raw(raw)]) == FieldCount(a) && Size(a + [Raw(raw)]) == Size(a) + |raw|
    ensures ValuesFit(a + [Raw(raw)], vals) <==> ValuesFit(a, vals)
    ensures |vals| == FieldCount(a) ==> Encode(a + [Raw(raw)], vals) == Encode(a, vals) + raw
  {
    assert (a + [Raw(raw)])[..|a|] == a;
  }

  lemma SplitRawEncodes(a: seq<Chunk>, raw: seq<byte>, more: seq<byte>, vals: seq<nat>)
    ensures
      var split, whole := a + [Raw(raw)] + [Raw(more)], a + [Raw(raw + more)];
      && Size(split) == Size(whole) && FieldCount(split) == FieldCount(whole)
      && (ValuesFit(split, vals) <==> ValuesFit(whole, vals))
      && (|vals| == FieldCount(split) ==> Encode(split, vals) == Encode(whole, vals))
  {
    var mid := a + [Raw(raw)];
    RawAppends(a, raw, vals);
    RawAppends(mid, more, vals);
    RawAppends(a, raw + more, vals);
    if |vals| == FieldCount(a) {
      ConcatAssociates(Encode(a, vals), raw, more);
    }
  }

  lemma ConcatAssociates(x: seq<byte>, y: seq<byte>, z: seq<byte>)
    ensures x + y + z == x + (y + z)
  {
  }

  lemma SplitRawSame(a: seq<Chunk>, raw: seq<byte>, more: seq<byte>)
    ensures SameTemplate(a + [Raw(raw)] + [Raw(more)], a + [Raw(raw + more)])
  {
    var split, whole := a + [Raw(raw)] + [Raw(more)], a + [Raw(raw + more)];
    SplitRawEncodes(a, raw, more, []);
    forall vals
      ensures ValuesFit(split, vals) <==> ValuesFit(whole, vals)
      ensures |vals| == FieldCount(split) ==> Encode(split, vals) == Encode(whole, vals)
    {
      SplitRawEncodes(a, raw, more, vals);
    }
  }

  /** Raw bytes may be split over two chunks, or be none at all. */
  lemma RawSame(a: seq<Chunk>, raw: seq<byte>, more: seq<byte>)
    ensures SameTemplate(Pending(a, raw) + [Raw(more)], Pending(a, raw + more))
  {
    if raw == [] {
      assert raw + more == more;
      EmptyRawSame(a);
    } else {
      SplitRawSame(a, raw, more);
    }
  }

  lemma SameTransitive(a: seq<Chunk>, b: seq<Chunk>, c: seq<Chunk>)
    requires SameTemplate(a, b) && SameTemplate(b, c)
    ensures SameTemplate(a, c)
  {
  }

  /** Raw chunks are not empty and have a field behind them. */
  ghost predicate Separated(merged: seq<Chunk>) {
    forall i :: 0 <= i < |merged| && merged[i].Raw? ==>
      merged[i].bytes != [] && i + 1 < |merged| && merged[i + 1].Field?
  }

  lemma MergeField(prefix: seq<Chunk>, merged: seq<Chunk>, raw: seq<byte>, c: Chunk)
    requires SameTemplate(prefix, Pending(merged, raw)) && Separated(merged) && c.Field?
    ensures SameTemplate(prefix + [c], Pending(merged, raw) + [c]) && Separated(Pending(merged, raw) + [c])
  {
    SnocSame(prefix, Pending(merged, raw), c);
  }

  lemma MergeRaw(prefix: seq<Chunk>, merged: seq<Chunk>, raw: seq<byte>, bytes: seq<byte>)
    requires SameTemplate(prefix, Pending(merged, raw))
    ensures SameTemplate(prefix + [Raw(bytes)], Pending(merged, raw + bytes))
  {
    SnocSame(prefix, Pending(merged, raw), Raw(bytes));
    RawSame(merged, raw, bytes);
    SameTransitive(prefix + [Raw(bytes)], Pending(merged, raw) + [Raw(bytes)], Pending(merged, raw + bytes));
  }

  /** The constructor's merge loop keeps what the template stands for and leaves no two raw chunks adjacent. */
  method MergeChunks(chunks: seq<Chunk>) returns (merged: seq<Chunk>)
    ensures SameTemplate(chunks, merged)
    ensures forall i :: 0 <= i < |merged| && merged[i].Raw? ==>
              merged[i].bytes != [] && (i + 1 < |merged| ==> merged[i + 1].Field?)
  {
    merged := [];
    var raw: seq<byte> := [];
    for j := 0 to |chunks|
      invariant SameTemplate(chunks[..j], Pending(merged, raw)) && Separated(merged)
    {
      var c := chunks[j];
      assert chunks[..j + 1] == chunks[..j] + [c];
      match c {
        case Field(_) =>
          MergeField(chunks[..j], merged, raw, c);
          if raw != [] {
            merged := merged + [Raw(raw)];
            raw := [];
          }
          merged := merged + [c];
        case Raw(bytes) =>
          MergeRaw(chunks[..j], merged, raw, bytes);
          raw := raw + bytes;
      }
    }
    assert chunks[..|chunks|] == chunks;
    if raw != [] {
      merged := merged + [Raw(raw)];
    }
  }

  // ----- The generated code

  lemma {:induction false} SizePrefix(cs: seq<Chunk>, k: nat)
    requires k <= |cs|
    ensures Size(cs[..k]) <= Size(cs)
  {
    if k < |cs| {
      assert cs[..|cs| - 1][..k] == cs[..k];
      SizePrefix(cs[..|cs| - 1], k);
    } else {
      assert cs[..k] == cs;
    }
  }

  lemma {:induction false} FieldsPrefix(cs: seq<Chunk>, k: nat)
    requires k <= |cs|
    ensures FieldCount(cs[..k]) <= FieldCount(cs)
  {
    if k < |cs| {
      assert cs[..|cs| - 1][..k] == cs[..k];
      FieldsPrefix(cs[..|cs| - 1], k);
    } else {
      assert cs[..k] == cs;
    }
  }

  /** The generated code copies raw chunks out of the template's byte array; they are found at their offset. */
  lemma {:induction false} RawInTemplateBytes(cs: seq<Chunk>, k: nat)
    requires k < |cs| && cs[k].Raw?
    ensures Size(cs[..k]) + |cs[k].bytes| <= Size(cs)
    ensures TemplateBytes(cs)[Size(cs[..k])..Size(cs[..k]) + |cs[k].bytes|] == cs[k].bytes
  {
    var init := cs[..|cs| - 1];
    if k < |cs| - 1 {
      RawInTemplateBytes(init, k);
      assert init[..k] == cs[..k];
      var n, m := Size(cs[..k]), |cs[k].bytes|;
      assert TemplateBytes(cs)[n..n + m] == TemplateBytes(init)[n..n + m];
    }
  }

  function PieceOf(c: Chunk, vals: seq<nat>, field: nat): seq<byte>
    requires c.Field? ==> field < |vals|
  {
    match c
    case Raw(bytes) => bytes
    case Field(size) => ToLittleEndian(vals[field], size)
  }

  lemma PrefixStep(cs: seq<Chunk>, j: nat)
    requires j < |cs|
    ensures Size(cs[..j + 1]) == Size(cs[..j]) + ChunkSize(cs[j]) <= Size(cs)
    ensures FieldCount(cs[..j + 1]) == FieldCount(cs[..j]) + (if cs[j].Field? then 1 else 0) <= FieldCount(cs)
  {
    assert cs[..j + 1][..j] == cs[..j];
    SizePrefix(cs, j + 1);
    FieldsPrefix(cs, j + 1);
  }

  lemma EncodeStep(cs: seq<Chunk>, j: nat, vals: seq<nat>, field: nat, field': nat)
    requires j < |cs| && field == FieldCount(cs[..j]) && field' == FieldCount(cs[..j + 1]) <= |vals|
    requires field' == field + if cs[j].Field? then 1 else 0
    ensures Encode(cs[..j + 1], vals[..field']) == Encode(cs[..j], vals[..field]) + PieceOf(cs[j], vals, field)
  {
    assert cs[..j + 1][..j] == cs[..j];
    if cs[j].Field? {
      assert vals[..field + 1][..field] == vals[..field];
    }
  }

  lemma AppendPiece(done: seq<byte>, before: seq<byte>, piece: seq<byte>)
    requires |done| + |piece| <= |before|
    ensures
      var now, n := done + before[|done|..], |done| + |piece|;
      now[..|done|] + piece + now[n..] == done + piece + before[n..]
  {
  }

  /** The first `j` chunks end at `offset`, use `field` values and encode to `done`. */
  ghost predicate Progress(cs: seq<Chunk>, vals: seq<nat>, j: nat, offset: nat, field: nat, done: seq<byte>) {
    && j <= |cs| && offset == |done| && field <= |vals|
    && Size(cs[..j]) == offset && FieldCount(cs[..j]) == field && Encode(cs[..j], vals[..field]) == done
  }

  lemma ProgressStep(cs: seq<Chunk>, vals: seq<nat>, j: nat, offset: nat, field: nat, done: seq<byte>, field': nat,
                     piece: seq<byte>)
    requires |vals| == FieldCount(cs) && j < |cs| && Progress(cs, vals, j, offset, field, done)
    requires field' == field + (if cs[j].Field? then 1 else 0) <= |vals| && piece == PieceOf(cs[j], vals, field)
    ensures Progress(cs, vals, j + 1, offset + |piece|, field', done + piece)
  {
    PrefixStep(cs, j);
    EncodeStep(cs, j, vals, field, field');
  }

  lemma ProgressEnds(cs: seq<Chunk>, vals: seq<nat>, offset: nat, field: nat, done: seq<byte>)
    requires |vals| == FieldCount(cs) && Progress(cs, vals, |cs|, offset, field, done)
    ensures offset == Size(cs) && done == Encode(cs, vals)
  {
    assert cs[..|cs|] == cs && vals[..|vals|] == vals;
  }

  method NextPiece(cs: seq<Chunk>, vals: seq<nat>, bytes: seq<byte>, j: nat, offset: nat, field: nat)
    returns (piece: seq<byte>, field': nat)
    requires |vals| == FieldCount(cs) && bytes == TemplateBytes(cs) && j < |cs|
    requires offset == Size(cs[..j]) && field == FieldCount(cs[..j])
    ensures field' == field + (if cs[j].Field? then 1 else 0) <= |vals| && piece == PieceOf(cs[j], vals, field)
    ensures offset + |piece| <= Size(cs)
  {
    PrefixStep(cs, j);
    match cs[j] {
      case Field(size) =>
        return ToLittleEndian(vals[field], size), field + 1;
      case Raw(raw) =>
        RawInTemplateBytes(cs, j);
        return bytes[offset..offset + |raw|], field;
    }
  }

  /** The generated `substitute`: fills the start of the buffer chunk by chunk. */
  method Substitute(cs: seq<Chunk>, buffer: array<byte>, vals: seq<nat>)
    requires |vals| == FieldCount(cs) && Size(cs) <= buffer.Length
    modifies buffer
    ensures buffer[..] == Encode(cs, vals) + old(buffer[..])[Size(cs)..]
  {
    ghost var before := buffer[..];
    var bytes := TemplateBytes(cs);
    var offset: nat, field: nat := 0, 0;
    ghost var done: seq<byte> := [];
    ProgressStarts(cs, vals);
    for j := 0 to |cs|
      invariant Progress(cs, vals, j, offset, field, done) && offset <= buffer.Length
      invariant buffer[..] == done + before[offset..]
    {
      offset, field, done := SubstituteChunk(cs, buffer, vals, bytes, j, offset, field, done, before);
    }
    ProgressEnds(cs, vals, offset, field, done);
  }

  lemma ProgressStarts(cs: seq<Chunk>, vals: seq<nat>)
    ensures Progress(cs, vals, 0, 0, 0, [])
  {
    assert cs[..0] == [];
  }

  method SubstituteChunk(cs: seq<Chunk>, buffer: array<byte>, vals: seq<nat>, bytes: seq<byte>, j: nat, offset: nat,
                         field: nat, ghost done: seq<byte>, ghost before: seq<byte>)
    returns (offset': nat, field': nat, ghost done': seq<byte>)
    requires |vals| == FieldCount(cs) && bytes == TemplateBytes(cs) && j < |cs| && Size(cs) <= buffer.Length
    requires Progress(cs, vals, j, offset, field, done)
    requires |before| == buffer.Length && offset <= buffer.Length && buffer[..] == done + before[offset..]
    modifies buffer
    ensures Progress(cs, vals, j + 1, offset', field', done')
    ensures offset' <= buffer.Length && buffer[..] == done' + before[offset'..]
  {
    var piece: seq<byte>;
    piece, field' := NextPiece(cs, vals, bytes, j, offset, field);
    ProgressStep(cs, vals, j, offset, field, done, field', piece);
    PutPiece(buffer, offset, piece, done, before);
    offset', done' := offset + |piece|, done + piece;
  }

  method PutPiece(buffer: array<byte>, offset: nat, piece: seq<byte>, ghost done: seq<byte>, ghost before: seq<byte>)
    requires |done| == offset && |before| == buffer.Length && offset + |piece| <= buffer.Length
    requires buffer[..] == done + before[offset..]
    modifies buffer
    ensures buffer[..] == done + piece + before[offset + |piece|..]
  {
    AppendPiece(done, before, piece);
    CopyInto(buffer, offset, piece);
  }

  method CopyInto(buffer: array<byte>, offset: nat, s: seq<byte>)
    requires offset + |s| <= buffer.Length
    modifies buffer
    ensures buffer[..] == old(buffer[..])[..offset] + s + old(buffer[..])[offset + |s|..]
  {
    for k := 0 to |s|
      invariant forall i :: 0 <= i < buffer.Length ==>
                  buffer[i] == if offset <= i < offset + k then s[i - offset] else old(buffer[i])
    {
      buffer[offset + k] := s[k];
    }
  }

  /** What the first `j` chunks match to, chunk by chunk. */
  lemma MatchUpTo(cs: seq<Chunk>, buffer: seq<byte>, j: nat, offset: nat, part: seq<byte>)
    requires j < |cs| && Size(cs) <= |buffer| && offset == Size(cs[..j]) && offset + ChunkSize(cs[j]) <= |buffer|
    requires part == buffer[offset..offset + ChunkSize(cs[j])]
    ensures Size(cs[..j + 1]) == offset + ChunkSize(cs[j])
    ensures Match(cs[..j + 1], buffer) == MatchLast(Match(cs[..j], buffer), cs[j], part)
  {
    var longer := cs[..j + 1];
    assert longer[..|longer| - 1] == cs[..j] && longer[|longer| - 1] == cs[j];
    MatchStep(longer, cs[..j], cs[j], buffer, offset, part);
  }

  /** One more chunk: the match goes on with its field, with the same values, or not at all. */
  method MatchChunk(cs: seq<Chunk>, buffer: seq<byte>, bytes: seq<byte>, j: nat, offset: nat, vals: seq<nat>)
    returns (ok: bool, vals': seq<nat>)
    requires j < |cs| && Size(cs) <= |buffer| && bytes == TemplateBytes(cs)
    requires offset == Size(cs[..j]) <= Size(cs) && Match(cs[..j], buffer) == Some(vals)
    ensures offset + ChunkSize(cs[j]) == Size(cs[..j + 1]) <= Size(cs)
    ensures Match(cs[..j + 1], buffer) == if ok then Some(vals') else None
  {
    PrefixStep(cs, j);
    var part := buffer[offset..offset + ChunkSize(cs[j])];
    MatchUpTo(cs, buffer, j, offset, part);
    match cs[j] {
      case Field(size) =>
        return true, vals + [FromLittleEndian(part)];
      case Raw(raw) =>
        RawInTemplateBytes(cs, j);
        return part == bytes[offset..offset + |raw|], vals;
    }
  }

  /** The generated `matchp`: compares raw chunks and reads fields, front to back. */
  method Matchp(cs: seq<Chunk>, buffer: seq<byte>) returns (ok: bool, vals: seq<nat>)
    requires Size(cs) <= |buffer|
    ensures ok <==> Match(cs, buffer).Some?
    ensures ok ==> Match(cs, buffer) == Some(vals)
  {
    var bytes := TemplateBytes(cs);
    var offset := 0;
    vals := [];
    for j := 0 to |cs|
      invariant offset == Size(cs[..j]) <= Size(cs)
      invariant Match(cs[..j], buffer) == Some(vals)
    {
      ok, vals := MatchChunk(cs, buffer, bytes, j, offset, vals);
      if !ok {
        MatchFailsEarly(cs, buffer, j + 1);
        return false, [];
      }
      offset := offset + ChunkSize(cs[j]);
    }
    assert cs[..|cs|] == cs;
    ok := true;
  }

  lemma {:induction false} MatchFailsEarly(cs: seq<Chunk>, buf: seq<byte>, k: nat)
    requires k <= |cs| && Size(cs) <= |buf| && Size(cs[..k]) <= |buf| && Match(cs[..k], buf).None?
    ensures Match(cs, buf).None?
  {
    if k < |cs| {
      assert cs[..|cs| - 1][..k] == cs[..k];
      MatchFailsEarly(cs[..|cs| - 1], buf, k);
    } else {
      assert cs[..k] == cs;
    }
  }
}
