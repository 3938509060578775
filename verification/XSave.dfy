/** Conversion of XSAVE areas from a trace's layout to the native one (`extra_registers.rs`). */
module XSave {
  import opened Words

  const HEADER_OFFSET: nat := 512
  const HEADER_END: nat := 576
  const PKRU: nat := 9

  datatype Format = NoFormat | XSaveFormat

  datatype Feature = Feature(offset: u32, size: u32)

  datatype Layout = Layout(fullSize: nat, supported: u64, features: seq<Feature>)

  // ----- Feature words

  predicate HasBit(n: nat, i: nat)
    decreases i, n
  {
    if i == 0 then n % 2 == 1 else HasBit(n / 2, i - 1)
  }

  function ClearBit(n: nat, i: nat): (r: nat)
    ensures r <= n
    decreases i, n
  {
    if i == 0 then n - n % 2 else n % 2 + 2 * ClearBit(n / 2, i - 1)
  }

  lemma {:induction false} ClearBitMeaning(n: nat, i: nat, j: nat)
    ensures HasBit(ClearBit(n, i), j) <==> HasBit(n, j) && i != j
    decreases i
  {
    var r := ClearBit(n, i);
    if i == 0 {
      assert r / 2 == n / 2;
    } else {
      assert r % 2 == n % 2 && r / 2 == ClearBit(n / 2, i - 1);
      if j > 0 {
        ClearBitMeaning(n / 2, i - 1, j - 1);
      }
    }
  }

  /** `features & !supported == 0`. */
  predicate Supported(features: u64, supported: u64) {
    forall i :: 0 <= i < 64 ==> HasBit(features, i) ==> HasBit(supported, i)
  }

  // ----- The features an area uses

  predicate AllZero(s: seq<byte>) {
    forall i :: 0 <= i < |s| ==> s[i] == 0
  }

  predicate RegionInside(layout: Layout, i: nat) {
    i < |layout.features| && layout.features[i].offset + layout.features[i].size <= layout.fullSize
  }

  function Region(data: seq<byte>, layout: Layout, i: nat): seq<byte>
    requires RegionInside(layout, i) && |data| == layout.fullSize
  {
    data[layout.features[i].offset..layout.features[i].offset + layout.features[i].size]
  }

  function Header(data: seq<byte>): u64
    requires |data| >= HEADER_END
  {
    Pow256Eight();
    FromLittleEndian(data[HEADER_OFFSET..HEADER_OFFSET + 8])
  }

  lemma Pow256Eight()
    ensures Pow256(8) == TWO_64
  {
    assert Pow256(8) == 256 * Pow256(7) && Pow256(7) == 256 * Pow256(6) && Pow256(6) == 256 * Pow256(5);
    assert Pow256(5) == 256 * Pow256(4) && Pow256(4) == 256 * Pow256(3) && Pow256(3) == 256 * Pow256(2);
  }

  /** The features of the header, without PKRU when its region is all zero. */
  function FeaturesUsed(data: seq<byte>, layout: Layout): (f: u64)
    requires |data| == layout.fullSize >= HEADER_END
  {
    var f := Header(data);
    if HasBit(f, PKRU) && RegionInside(layout, PKRU) && AllZero(Region(data, layout, PKRU)) then ClearBit(f, PKRU)
      else f
  }

  // ----- What a conversion is

  /** The guarantees of the CPU for its own layout. */
  ghost predicate NativeOk(native: Layout) {
    && native.fullSize >= HEADER_OFFSET
    && (native.fullSize >= HEADER_END ==>
          && (forall i :: 2 <= i < 64 && HasBit(native.supported, i) ==>
                RegionInside(native, i) && native.features[i].offset >= HEADER_END)
          && (forall i, j ::
                2 <= i < 64 && 2 <= j < 64 && i != j && HasBit(native.supported, i) && HasBit(native.supported, j) ==>
                RegionsApart(native, i, j)))
  }

  ghost predicate RegionsApart(native: Layout, i: nat, j: nat) {
    RegionInside(native, i) && RegionInside(native, j) ==>
      var a, b := native.features[i], native.features[j];
      a.offset + a.size <= b.offset || b.offset + b.size <= a.offset
  }

  /** Feature `i` can be copied from `layout` to `native`. */
  predicate Convertible(native: Layout, layout: Layout, i: nat) {
    RegionInside(layout, i) && i < |native.features| && layout.features[i].size == native.features[i].size
  }

  predicate Accepts(native: Layout, from: seq<byte>, layout: Layout) {
    && |from| == layout.fullSize >= HEADER_OFFSET
    && (layout.fullSize >= HEADER_END ==> Supported(FeaturesUsed(from, layout), native.supported))
    && (layout.fullSize >= HEADER_END && native.fullSize >= HEADER_END ==>
          forall i :: 2 <= i < 64 && HasBit(FeaturesUsed(from, layout), i) ==> Convertible(native, layout, i))
  }

  predicate Covers(native: Layout, i: nat, k: nat) {
    i < |native.features| && native.features[i].offset <= k < native.features[i].offset + native.features[i].size
  }

  /** Byte `k` belongs to a feature in use with a number below `n`. */
  ghost predicate InUse(native: Layout, f: u64, n: nat, k: nat) {
    exists i :: 2 <= i < n && HasBit(f, i) && Covers(native, i, k)
  }

  ghost predicate Copied(native: Layout, from: seq<byte>, layout: Layout, data: seq<byte>, i: nat) {
    && |from| == layout.fullSize && |data| == native.fullSize
    && Convertible(native, layout, i) && RegionInside(native, i)
    && Region(data, native, i) == Region(from, layout, i)
  }

  /** Features below `n` are in place, and every other extended byte is zero. */
  ghost predicate ConvertedUpTo(native: Layout, from: seq<byte>, layout: Layout, f: u64, data: seq<byte>, n: nat) {
    && (forall i :: 2 <= i < n && HasBit(f, i) ==> Copied(native, from, layout, data, i))
    && (forall k :: HEADER_END <= k < |data| && !InUse(native, f, n, k) ==> data[k] == 0)
  }

  ghost predicate HeaderConverted(from: seq<byte>, f: u64, data: seq<byte>)
    requires |from| >= HEADER_END && |data| >= HEADER_END
  {
    Header(data) == f && data[HEADER_OFFSET + 8..HEADER_END] == from[HEADER_OFFSET + 8..HEADER_END]
  }

  /** What `data` must be: legacy area, header, features in use, and zeros. */
  ghost predicate IsConversion(native: Layout, from: seq<byte>, layout: Layout, data: seq<byte>)
    requires |from| == layout.fullSize >= HEADER_OFFSET && native.fullSize >= HEADER_OFFSET
  {
    && |data| == native.fullSize
    && data[..HEADER_OFFSET] == from[..HEADER_OFFSET]
    && if native.fullSize < HEADER_END then AllZero(data[HEADER_OFFSET..])
       else if layout.fullSize < HEADER_END then
         Header(data) == 3 && AllZero(data[HEADER_OFFSET + 8..])
       else
         var f := FeaturesUsed(from, layout);
         HeaderConverted(from, f, data) && ConvertedUpTo(native, from, layout, f, data, 64)
  }

  // ----- Steps of the copy

  function Splice(s: seq<byte>, at: nat, t: seq<byte>): (r: seq<byte>)
    requires at + |t| <= |s|
    ensures |r| == |s|
    ensures forall k {:trigger r[k]} :: 0 <= k < |s| ==> r[k] == if at <= k < at + |t| then t[k - at] else s[k]
  {
    s[..at] + t + s[at + |t|..]
  }

  lemma SkipFeature(native: Layout, from: seq<byte>, layout: Layout, f: u64, data: seq<byte>, n: nat)
    requires ConvertedUpTo(native, from, layout, f, data, n) && !HasBit(f, n)
    ensures ConvertedUpTo(native, from, layout, f, data, n + 1)
  {
    forall k | HEADER_END <= k < |data| && !InUse(native, f, n + 1, k)
      ensures data[k] == 0
    {
      assert !InUse(native, f, n, k);
    }
  }

  function WithFeature(native: Layout, from: seq<byte>, layout: Layout, data: seq<byte>, n: nat): (r: seq<byte>)
    requires |from| == layout.fullSize && |data| == native.fullSize && Convertible(native, layout, n) &&
             RegionInside(native, n)
    ensures |r| == |data|
  {
    Splice(data, native.features[n].offset, Region(from, layout, n))
  }

  lemma EarlierFeatureKept(native: Layout, from: seq<byte>, layout: Layout, data: seq<byte>, n: nat, i: nat)
    requires Convertible(native, layout, n) && RegionInside(native, n)
    requires Copied(native, from, layout, data, i) && RegionsApart(native, i, n)
    ensures Copied(native, from, layout, WithFeature(native, from, layout, data, n), i)
  {
    var data' := WithFeature(native, from, layout, data, n);
    assert Region(data', native, i) == Region(data, native, i);
  }

  lemma NewFeatureCopied(native: Layout, from: seq<byte>, layout: Layout, data: seq<byte>, n: nat)
    requires |from| == layout.fullSize && |data| == native.fullSize && Convertible(native, layout, n) &&
             RegionInside(native, n)
    ensures Copied(native, from, layout, WithFeature(native, from, layout, data, n), n)
  {
  }

  lemma CopyKeepsHeader(native: Layout, from: seq<byte>, layout: Layout, data: seq<byte>, n: nat)
    requires |from| == layout.fullSize && |data| == native.fullSize && Convertible(native, layout, n) &&
             RegionInside(native, n)
    requires native.features[n].offset >= HEADER_END
    ensures WithFeature(native, from, layout, data, n)[..HEADER_END] == data[..HEADER_END]
  {
  }

  lemma CopyFeature(native: Layout, from: seq<byte>, layout: Layout, f: u64, data: seq<byte>, n: nat)
    requires NativeOk(native) && native.fullSize >= HEADER_END && Supported(f, native.supported) && 2 <= n < 64 &&
             HasBit(f, n)
    requires |from| == layout.fullSize && |data| == native.fullSize && Convertible(native, layout, n) &&
             RegionInside(native, n)
    requires ConvertedUpTo(native, from, layout, f, data, n)
    ensures ConvertedUpTo(native, from, layout, f, WithFeature(native, from, layout, data, n), n + 1)
  {
    var data' := WithFeature(native, from, layout, data, n);
    NewFeatureCopied(native, from, layout, data, n);
    forall i | 2 <= i < n && HasBit(f, i)
      ensures Copied(native, from, layout, data', i)
    {
      assert RegionsApart(native, i, n);
      EarlierFeatureKept(native, from, layout, data, n, i);
    }
    forall k | HEADER_END <= k < |data| && !InUse(native, f, n + 1, k)
      ensures data'[k] == 0
    {
      assert !Covers(native, n, k);
      assert !InUse(native, f, n, k);
    }
  }

  // ----- A conversion is determined, and converting again changes nothing

  lemma FeatureByte(native: Layout, from: seq<byte>, layout: Layout, data: seq<byte>, i: nat, k: nat)
    requires Copied(native, from, layout, data, i) && Covers(native, i, k)
    ensures data[k] == Region(from, layout, i)[k - native.features[i].offset]
  {
    assert data[k] == Region(data, native, i)[k - native.features[i].offset];
  }

  lemma SameExtended(native: Layout, from: seq<byte>, layout: Layout, f: u64, a: seq<byte>, b: seq<byte>, k: nat)
    requires |a| == |b| && HEADER_END <= k < |a|
    requires ConvertedUpTo(native, from, layout, f, a, 64) && ConvertedUpTo(native, from, layout, f, b, 64)
    ensures a[k] == b[k]
  {
    if InUse(native, f, 64, k) {
      var i :| 2 <= i < 64 && HasBit(f, i) && Covers(native, i, k);
      FeatureByte(native, from, layout, a, i, k);
      FeatureByte(native, from, layout, b, i, k);
    }
  }

  lemma SameHeaderBytes(a: seq<byte>, b: seq<byte>)
    requires |a| >= HEADER_END && |b| >= HEADER_END && Header(a) == Header(b)
    ensures a[HEADER_OFFSET..HEADER_OFFSET + 8] == b[HEADER_OFFSET..HEADER_OFFSET + 8]
  {
    LittleEndianEncodes(a[HEADER_OFFSET..HEADER_OFFSET + 8]);
    LittleEndianEncodes(b[HEADER_OFFSET..HEADER_OFFSET + 8]);
  }

  lemma JoinParts(a: seq<byte>, b: seq<byte>, x: nat, y: nat, z: nat)
    requires x <= y <= z <= |a| && z <= |b| && a[x..y] == b[x..y] && a[y..z] == b[y..z]
    ensures a[x..z] == b[x..z]
  {
    assert a[x..z] == a[x..y] + a[y..z] && b[x..z] == b[x..y] + b[y..z];
  }

  lemma SameHeaders(native: Layout, from: seq<byte>, layout: Layout, a: seq<byte>, b: seq<byte>)
    requires |from| == layout.fullSize >= HEADER_OFFSET && native.fullSize >= HEADER_END
    requires IsConversion(native, from, layout, a) && IsConversion(native, from, layout, b)
    ensures a[0..HEADER_END] == b[0..HEADER_END]
  {
    var m := HEADER_OFFSET + 8;
    SameHeaderBytes(a, b);
    JoinParts(a, b, 0, HEADER_OFFSET, m);
    if layout.fullSize < HEADER_END {
      assert forall k :: m <= k < |a| ==> a[k] == a[m..][k - m] && b[k] == b[m..][k - m];
      assert a[m..HEADER_END] == b[m..HEADER_END];
    }
    JoinParts(a, b, 0, m, HEADER_END);
  }

  /** The conversion is determined by the input. */
  lemma SameConversion(native: Layout, from: seq<byte>, layout: Layout, a: seq<byte>, b: seq<byte>)
    requires |from| == layout.fullSize >= HEADER_OFFSET && native.fullSize >= HEADER_OFFSET
    requires IsConversion(native, from, layout, a) && IsConversion(native, from, layout, b)
    ensures a == b
  {
    var n := |a|;
    if native.fullSize < HEADER_END {
      assert a[HEADER_OFFSET..n] == b[HEADER_OFFSET..n];
      JoinParts(a, b, 0, HEADER_OFFSET, n);
    } else {
      SameHeaders(native, from, layout, a, b);
      forall k | HEADER_END <= k < n
        ensures a[k] == b[k]
      {
        if layout.fullSize < HEADER_END {
          var m := HEADER_OFFSET + 8;
          assert a[k] == a[m..][k - m] && b[k] == b[m..][k - m];
        } else {
          SameExtended(native, from, layout, FeaturesUsed(from, layout), a, b, k);
        }
      }
      JoinParts(a, b, 0, HEADER_END, n);
    }
    assert a[0..n] == a && b[0..n] == b;
  }

  /** The converted area uses the same features. */
  lemma ConversionKeepsFeatures(native: Layout, from: seq<byte>, layout: Layout, data: seq<byte>)
    requires layout.fullSize >= HEADER_END && native.fullSize >= HEADER_END
    requires Accepts(native, from, layout) && IsConversion(native, from, layout, data)
    ensures FeaturesUsed(data, native) == FeaturesUsed(from, layout)
  {
    var f := FeaturesUsed(from, layout);
    ClearBitMeaning(Header(from), PKRU, PKRU);
    if HasBit(f, PKRU) {
      assert Copied(native, from, layout, data, PKRU);
      assert !AllZero(Region(from, layout, PKRU));
    }
  }

  lemma ExtendedIsItsOwnConversion(native: Layout, from: seq<byte>, layout: Layout, f: u64, data: seq<byte>)
    requires NativeOk(native) && native.fullSize >= HEADER_END && Supported(f, native.supported) &&
             |data| == native.fullSize
    requires ConvertedUpTo(native, from, layout, f, data, 64)
    ensures ConvertedUpTo(native, data, native, f, data, 64)
  {
  }

  /** A converted area is accepted in the native layout, and converting it again changes nothing. */
  lemma ConversionIsIdempotent(native: Layout, from: seq<byte>, layout: Layout, data: seq<byte>, again: seq<byte>)
    requires NativeOk(native) && native.fullSize >= HEADER_END && layout.fullSize >= HEADER_END
    requires Accepts(native, from, layout) && IsConversion(native, from, layout, data)
    ensures Accepts(native, data, native)
    ensures IsConversion(native, data, native, again) <==> again == data
  {
    ConversionKeepsFeatures(native, from, layout, data);
    ExtendedIsItsOwnConversion(native, from, layout, FeaturesUsed(from, layout), data);
    assert IsConversion(native, data, native, data);
    if IsConversion(native, data, native, again) {
      SameConversion(native, data, native, again, data);
    }
  }

  // ----- The registers, updated in place

  class ExtraRegisters {
    var arch: Arch
    var format: Format
    var data: seq<byte>

    constructor (arch: Arch)
      ensures this.arch == arch && format == NoFormat && data == []
    {
      this.arch, format, data := arch, NoFormat, [];
    }

    static method AllZeros(s: seq<byte>) returns (r: bool)
      ensures r <==> AllZero(s)
    {
      var i := 0;
      while i < |s|
        invariant i <= |s| && forall j :: 0 <= j < i ==> s[j] == 0
      {
        if s[i] != 0 {
          return false;
        }
        i := i + 1;
      }
      return true;
    }

    static method UsedFeatures(s: seq<byte>, layout: Layout) returns (features: u64)
      requires |s| == layout.fullSize >= HEADER_END
      ensures features == FeaturesUsed(s, layout)
    {
      features := Header(s);
      if HasBit(features, PKRU) && PKRU < |layout.features| {
        var fl := layout.features[PKRU];
        if fl.offset + fl.size <= layout.fullSize {
          var zeros := AllZeros(s[fl.offset..fl.offset + fl.size]);
          if zeros {
            features := ClearBit(features, PKRU);
          }
        }
      }
    }

    /** Copies one feature, unless its region or its size does not fit. */
    method CopyOne(native: Layout, from: seq<byte>, layout: Layout, i: nat) returns (ok: bool)
      requires |from| == layout.fullSize && |data| == native.fullSize && RegionInside(native, i)
      modifies `data
      ensures ok <==> Convertible(native, layout, i)
      ensures data == if ok then WithFeature(native, from, layout, old(data), i) else old(data)
    {
      if i >= |layout.features| {
        return false;
      }
      var feature := layout.features[i];
      if feature.offset + feature.size > layout.fullSize {
        return false;
      }
      var nativeFeature := native.features[i];
      if feature.size != nativeFeature.size {
        return false;
      }
      data := Splice(data, nativeFeature.offset, from[feature.offset..feature.offset + feature.size]);
      return true;
    }

    /** Copies the features in use, from number 2 on; false at the first that cannot be copied. */
    method CopyFeatures(native: Layout, from: seq<byte>, layout: Layout, features: u64) returns (ok: bool)
      requires NativeOk(native) && Supported(features, native.supported)
      requires |from| == layout.fullSize && |data| == native.fullSize >= HEADER_END
      requires AllZero(data[HEADER_END..])
      modifies `data
      ensures ok <==> forall i :: 2 <= i < 64 && HasBit(features, i) ==> Convertible(native, layout, i)
      ensures |data| == |old(data)| && data[..HEADER_END] == old(data)[..HEADER_END]
      ensures ok ==> ConvertedUpTo(native, from, layout, features, data, 64)
    {
      assert forall k :: HEADER_END <= k < |data| ==> data[k] == data[HEADER_END..][k - HEADER_END];
      var i := 2;
      while i < 64
        invariant 2 <= i <= 64 && |data| == |old(data)| && data[..HEADER_END] == old(data)[..HEADER_END]
        invariant ConvertedUpTo(native, from, layout, features, data, i)
      {
        ghost var before := data;
        if HasBit(features, i) {
          var copied := CopyOne(native, from, layout, i);
          if !copied {
            return false;
          }
          CopyFeature(native, from, layout, features, before, i);
          CopyKeepsHeader(native, from, layout, before, i);
        } else {
          SkipFeature(native, from, layout, features, data, i);
        }
        i := i + 1;
      }
      return true;
    }

    /** The legacy area, with zeros behind it. */
    method CopyLegacy(native: Layout, from: seq<byte>)
      requires |from| >= HEADER_OFFSET && native.fullSize >= HEADER_OFFSET
      modifies `data
      ensures |data| == native.fullSize && data[..HEADER_OFFSET] == from[..HEADER_OFFSET] &&
              AllZero(data[HEADER_OFFSET..])
    {
      data := if |data| <= native.fullSize then data + seq(native.fullSize - |data|, _ => 0)
        else data[..native.fullSize];
      data := Splice(data, 0, from[..HEADER_OFFSET]);
      data := Splice(data, HEADER_OFFSET, seq(|data| - HEADER_OFFSET, _ => 0));
    }

    method WriteHeader(features: u64)
      requires |data| >= HEADER_END && AllZero(data[HEADER_OFFSET..])
      modifies `data
      ensures |data| == |old(data)| && data[..HEADER_OFFSET] == old(data)[..HEADER_OFFSET]
      ensures Header(data) == features && AllZero(data[HEADER_OFFSET + 8..])
    {
      ghost var before := data;
      Pow256Eight();
      LittleEndianDecodes(features, 8);
      data := Splice(data, HEADER_OFFSET, ToLittleEndian(features, 8));
      assert data[HEADER_OFFSET..HEADER_OFFSET + 8] == ToLittleEndian(features, 8);
      assert data[HEADER_OFFSET + 8..] == before[HEADER_OFFSET..][8..];
    }

    method CopyRestOfHeader(from: seq<byte>)
      requires |data| >= HEADER_END && |from| >= HEADER_END && AllZero(data[HEADER_OFFSET + 8..])
      modifies `data
      ensures |data| == |old(data)| && data[..HEADER_OFFSET] == old(data)[..HEADER_OFFSET]
      ensures HeaderConverted(from, Header(old(data)), data) && AllZero(data[HEADER_END..])
    {
      ghost var before := data;
      var m := HEADER_OFFSET + 8;
      data := Splice(data, m, from[m..HEADER_END]);
      assert data[HEADER_OFFSET..m] == before[HEADER_OFFSET..m];
      assert data[HEADER_END..] == before[m..][HEADER_END - m..];
    }

    /** The native layout is the CPU's own. */
    method SetToRawData(native: Layout, arch: Arch, format: Format, from: seq<byte>, layout: Layout) returns (ok: bool)
      requires NativeOk(native)
      modifies this
      ensures this.arch == arch && this.format == format
      ensures format.NoFormat? ==> ok && data == old(data)
      ensures format.XSaveFormat? ==> (ok <==> Accepts(native, from, layout))
      ensures format.XSaveFormat? && ok ==> IsConversion(native, from, layout, data)
    {
      this.arch, this.format := arch, format;
      if format.NoFormat? {
        return true;
      }
      if |from| != layout.fullSize || layout.fullSize < HEADER_OFFSET {
        return false;
      }
      CopyLegacy(native, from);
      if layout.fullSize >= HEADER_END {
        var features := UsedFeatures(from, layout);
        if !Supported(features, native.supported) {
          return false;
        }
      }
      if native.fullSize < HEADER_END {
        return true;
      }
      if layout.fullSize < HEADER_END {
        WriteHeader(3);
        return true;
      }
      var features := UsedFeatures(from, layout);
      WriteHeader(features);
      CopyRestOfHeader(from);
      ghost var header := data;
      ok := CopyFeatures(native, from, layout, features);
      HeaderKept(from, features, header, data);
    }
  }

  lemma HeaderKept(from: seq<byte>, f: u64, a: seq<byte>, b: seq<byte>)
    requires |from| >= HEADER_END && |a| == |b| >= HEADER_END && a[..HEADER_END] == b[..HEADER_END] &&
             HeaderConverted(from, f, a)
    ensures HeaderConverted(from, f, b) && a[..HEADER_OFFSET] == b[..HEADER_OFFSET]
  {
    var m := HEADER_OFFSET + 8;
    assert forall k :: 0 <= k < HEADER_END ==> a[k] == a[..HEADER_END][k] && b[k] == b[..HEADER_END][k];
    assert a[HEADER_OFFSET..m] == b[HEADER_OFFSET..m];
    assert a[m..HEADER_END] == b[m..HEADER_END];
  }
}
