/** Recognising REP-prefixed x86 string instructions (`fast_forward.rs`): decoder and scanners. */
module StringInsn {
  import opened TraceeMemory
  import opened Words

  datatype StringOp = Movs | Stos | Lods | Cmps | Scas

  predicate IsStringOpcode(b: byte) {
    0xA4 <= b <= 0xA7 || 0xAA <= b <= 0xAF
  }

  predicate IsRepPrefix(b: byte) {
    b == 0xF2 || b == 0xF3
  }

  predicate IsIgnorablePrefix(arch: Arch, b: byte) {
    if 0x40 <= b <= 0x4f then arch == X64
    else b in {0x26, 0x2E, 0x36, 0x3E, 0x64, 0x65, 0x66, 0x67, 0xF0}
  }

  /** The instruction a string opcode byte stands for. */
  function OpOf(b: byte): StringOp
    requires IsStringOpcode(b)
  {
    if b <= 0xA5 then Movs
    else if b <= 0xA7 then Cmps
    else if b <= 0xAB then Stos
    else if b <= 0xAD then Lods
    else Scas
  }

  predicate ComparesFlags(op: StringOp) {
    op.Cmps? || op.Scas?
  }

  // ----- The decoder

  datatype Decoded = Decoded(operandSize: nat, addressSize: nat, length: nat, modifiesFlags: bool, usesSi: bool)

  predicate DecoderPrefix(arch: Arch, b: byte) {
    b == 0x66 || b == 0x67 || IsRepPrefix(b) || (b == 0x48 && arch == X64)
  }

  /** The number of leading bytes of `buf` the decoder takes as prefixes. */
  function PrefixLength(arch: Arch, buf: seq<byte>): (n: nat)
    ensures n <= |buf|
    ensures forall i :: 0 <= i < n ==> DecoderPrefix(arch, buf[i])
    ensures n < |buf| ==> !DecoderPrefix(arch, buf[n])
  {
    if buf == [] || !DecoderPrefix(arch, buf[0]) then 0 else 1 + PrefixLength(arch, buf[1..])
  }

  /** The operand size that the prefixes before opcode byte `b` select. */
  function OperandSize(prefixes: seq<byte>, b: byte): nat {
    if b % 2 == 0 then 1
    else if 0x48 in prefixes then 8
    else if 0x66 in prefixes then 2
    else 4
  }

  /** `buf` starts with prefixes, one of them REP, and then a string opcode. */
  predicate ReachesOpcode(arch: Arch, buf: seq<byte>) {
    var n := PrefixLength(arch, buf);
    && n < |buf|
    && IsStringOpcode(buf[n])
    && (0xF2 in buf[..n] || 0xF3 in buf[..n])
  }

  /** A buffer of prefixes only, which the decoder's loop runs through without meeting an opcode. */
  predicate OnlyPrefixes(arch: Arch, buf: seq<byte>) {
    PrefixLength(arch, buf) == |buf| && (0xF2 in buf || 0xF3 in buf)
  }

  function Describe(prefixes: seq<byte>, b: byte): Decoded {
    Decoded(OperandSize(prefixes, b), if 0x67 in prefixes then 4 else 8, |prefixes| + 1,
            IsStringOpcode(b) && ComparesFlags(OpOf(b)),
            IsStringOpcode(b) && (OpOf(b).Movs? || OpOf(b).Cmps?))
  }

  /** The prefixes met so far that matter to the decoder. */
  datatype Found = Found(operand: bool, address: bool, rep: bool, rexW: bool)

  function FoundIn(prefixes: seq<byte>): Found {
    Found(0x66 in prefixes, 0x67 in prefixes, 0xF2 in prefixes || 0xF3 in prefixes, 0x48 in prefixes)
  }

  /** Takes one more byte as a prefix, if it is one. */
  method NotePrefix(arch: Arch, found: Found, b: byte, ghost prefixes: seq<byte>) returns (ok: bool, found': Found)
    requires found == FoundIn(prefixes)
    ensures ok <==> DecoderPrefix(arch, b)
    ensures ok ==> found' == FoundIn(prefixes + [b])
  {
    ok, found' := true, found;
    if b == 0x66 {
      found' := found.(operand := true);
    } else if b == 0x67 {
      found' := found.(address := true);
    } else if b == 0x48 && arch == X64 {
      found' := found.(rexW := true);
    } else if b == 0xF2 || b == 0xF3 {
      found' := found.(rep := true);
    } else {
      ok := false;
    }
  }

  /** Takes a byte as a string opcode, if it is one. */
  method NoteOpcode(b: byte) returns (ok: bool, modifiesFlags: bool, usesSi: bool)
    ensures ok <==> IsStringOpcode(b)
    ensures modifiesFlags <==> ok && ComparesFlags(OpOf(b))
    ensures usesSi <==> ok && (OpOf(b).Movs? || OpOf(b).Cmps?)
  {
    ok, modifiesFlags, usesSi := true, false, false;
    if b == 0xA4 || b == 0xA5 {
      usesSi := true;
    } else if 0xAA <= b <= 0xAD {
    } else if b == 0xA6 || b == 0xA7 {
      modifiesFlags, usesSi := true, true;
    } else if b == 0xAE || b == 0xAF {
      modifiesFlags := true;
    } else {
      ok := false;
    }
  }

  /** The loop accepts exactly the buffers that reach an opcode or hold nothing but prefixes. */
  method DecodeX86StringInstruction(arch: Arch, buf: seq<byte>) returns (r: Option<Decoded>)
    ensures r.Some? <==> ReachesOpcode(arch, buf) || OnlyPrefixes(arch, buf)
    ensures ReachesOpcode(arch, buf) ==>
              var n := PrefixLength(arch, buf);
              r.value == Describe(buf[..n], buf[n])
    ensures OnlyPrefixes(arch, buf) ==> r.value.length == |buf| && !r.value.modifiesFlags && !r.value.usesSi
  {
    var found, modifiesFlags, usesSi, done := Found(false, false, false, false), false, false, false;
    var lastI := 0;
    ghost var n := PrefixLength(arch, buf);
    var i := 0;
    while i < |buf| && !done
      invariant 0 <= i <= n && found == FoundIn(buf[..i])
      invariant if done then i == n == lastI < |buf| && IsStringOpcode(buf[n]) else lastI == if i == 0 then 0 else i - 1
      invariant modifiesFlags <==> done && ComparesFlags(OpOf(buf[n]))
      invariant usesSi <==> done && (OpOf(buf[n]).Movs? || OpOf(buf[n]).Cmps?)
      decreases |buf| - i, !done
    {
      lastI := i;
      assert buf[..i + 1] == buf[..i] + [buf[i]];
      var isPrefix, found' := NotePrefix(arch, found, buf[i], buf[..i]);
      if isPrefix {
        found := found';
        i := i + 1;
      } else {
        done, modifiesFlags, usesSi := NoteOpcode(buf[i]);
        if !done {
          return None;
        }
      }
    }
    if !found.rep {
      assert buf[..|buf|] == buf;
      return None;
    }
    assert !done ==> buf[..i] == buf;
    var operandSize := 1;
    if buf[lastI] % 2 != 0 {
      operandSize := if found.rexW then 8 else if found.operand then 2 else 4;
    }
    r := Some(Decoded(operandSize, if found.address then 4 else 8, lastI + 1, modifiesFlags, usesSi));
  }

  // ----- The scanners, which read the tracee one byte at a time

  /** Prefixes at `ip .. ip + n`, one of them REP, and a string opcode at `ip + n`. */
  ghost predicate InsnAt(mem: Memory, arch: Arch, ip: nat, n: nat) {
    && (forall i :: ip <= i <= ip + n ==> i in mem)
    && (forall i :: ip <= i < ip + n ==> IsRepPrefix(mem[i]) || IsIgnorablePrefix(arch, mem[i]))
    && (exists i :: ip <= i < ip + n && IsRepPrefix(mem[i]))
    && IsStringOpcode(mem[ip + n])
  }

  /** A string opcode at `ip - 1`, reached from a REP at `rep` through ignorable prefixes only. */
  ghost predicate InsnBefore(mem: Memory, arch: Arch, ip: nat, rep: int) {
    && rep < ip - 1
    && (forall i :: rep <= i < ip ==> i in mem)
    && (forall i :: rep < i < ip - 1 ==> IsIgnorablePrefix(arch, mem[i]))
    && IsRepPrefix(mem[rep])
    && IsStringOpcode(mem[ip - 1])
  }

  ghost predicate FoundAt(mem: Memory, arch: Arch, ip: nat) {
    exists n: nat :: InsnAt(mem, arch, ip, n)
  }

  ghost predicate FoundBefore(mem: Memory, arch: Arch, ip: nat) {
    exists rep: int :: InsnBefore(mem, arch, ip, rep)
  }

  method IsStringInstructionAt(mem: Memory, arch: Arch, ip: nat) returns (r: bool)
    ensures r <==> FoundAt(mem, arch, ip)
  {
    var foundRep := false;
    var p := ip;
    while true
      invariant ip <= p
      invariant forall i :: ip <= i < p ==> i in mem
      invariant forall i :: ip <= i < p ==> IsRepPrefix(mem[i]) || IsIgnorablePrefix(arch, mem[i])
      invariant foundRep <==> exists i :: ip <= i < p && IsRepPrefix(mem[i])
      decreases set a | a in mem && a >= p
    {
      if p !in mem {
        return false;
      }
      var b := mem[p];
      if IsRepPrefix(b) {
        foundRep := true;
      } else if IsStringOpcode(b) {
        assert foundRep ==> InsnAt(mem, arch, ip, p - ip);
        return foundRep;
      } else if !IsIgnorablePrefix(arch, b) {
        return false;
      }
      ghost var ahead := set a | a in mem && a >= p;
      assert p in ahead;
      p := p + 1;
      assert (set a | a in mem && a >= p) == ahead - {p - 1};
    }
  }

  /** Address arithmetic below 0 is not modelled: nothing is mapped at address 0. */
  method IsStringInstructionBefore(mem: Memory, arch: Arch, ip: nat) returns (r: bool)
    requires ip > 0 && forall a <- mem :: a > 0
    ensures r <==> FoundBefore(mem, arch, ip)
  {
    var p := ip - 1;
    if p !in mem || !IsStringOpcode(mem[p]) {
      return false;
    }
    while true
      invariant 0 < p < ip
      invariant forall i :: p <= i < ip ==> i in mem
      invariant forall i :: p <= i < ip - 1 ==> IsIgnorablePrefix(arch, mem[i]) && !IsRepPrefix(mem[i])
      decreases p
    {
      p := p - 1;
      if p !in mem {
        return false;
      }
      if IsRepPrefix(mem[p]) {
        assert InsnBefore(mem, arch, ip, p);
        return true;
      }
      if !IsIgnorablePrefix(arch, mem[p]) {
        return false;
      }
    }
  }

  lemma {:induction false} LastRep(mem: Memory, ip: nat, n: nat) returns (rep: int)
    requires forall i :: ip <= i < ip + n ==> i in mem
    requires exists i :: ip <= i < ip + n && IsRepPrefix(mem[i])
    ensures ip <= rep < ip + n && IsRepPrefix(mem[rep])
    ensures forall i :: rep < i < ip + n ==> !IsRepPrefix(mem[i])
  {
    if IsRepPrefix(mem[ip + n - 1]) {
      rep := ip + n - 1;
    } else {
      rep := LastRep(mem, ip, n - 1);
    }
  }

  /** What the forward scanner finds at `ip` the backward scanner finds just after it. */
  lemma ScannersAgree(mem: Memory, arch: Arch, ip: nat, n: nat)
    requires InsnAt(mem, arch, ip, n)
    ensures FoundBefore(mem, arch, ip + n + 1)
  {
    var rep := LastRep(mem, ip, n);
    assert InsnBefore(mem, arch, ip + n + 1, rep);
  }

  /** The prefixes and the opcode the decoder found are in memory. */
  lemma DecodedInsnAt(mem: Memory, arch: Arch, ip: nat, buf: seq<byte>)
    requires HasBytes(mem, ip, buf) && ReachesOpcode(arch, buf)
    ensures InsnAt(mem, arch, ip, PrefixLength(arch, buf))
  {
    var n := PrefixLength(arch, buf);
    assert forall i :: ip <= i <= ip + n ==> i in mem && mem[i] == buf[i - ip] by {
      forall i | ip <= i <= ip + n
        ensures i in mem && mem[i] == buf[i - ip]
      {
        assert HasByte(mem, ip + (i - ip), buf[i - ip]);
      }
    }
    var k :| 0 <= k < n && IsRepPrefix(buf[..n][k]);
    assert IsRepPrefix(mem[ip + k]);
  }

  /** Both scanners recognise whatever the decoder decodes at `ip`, for every prefix mix it accepts. */
  lemma ScannersFollowDecoder(mem: Memory, arch: Arch, ip: nat, buf: seq<byte>)
    requires HasBytes(mem, ip, buf) && ReachesOpcode(arch, buf)
    ensures
      var n := PrefixLength(arch, buf);
      && InsnAt(mem, arch, ip, n)
      && Describe(buf[..n], buf[n]).length == n + 1
      && FoundBefore(mem, arch, ip + n + 1)
  {
    DecodedInsnAt(mem, arch, ip, buf);
    ScannersAgree(mem, arch, ip, PrefixLength(arch, buf));
  }
}
