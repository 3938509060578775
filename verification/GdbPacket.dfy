/** Packets of the gdb remote protocol: framing, escaping and chunked transfer (`gdb_connection.rs`). */
module GdbPacket {
  import opened Words

  const DOLLAR: byte := 0x24
  const HASH: byte := 0x23
  const ESCAPE: byte := 0x7d
  const STAR: byte := 0x2a
  const INTERRUPT_CHAR: byte := 0x03
  const LETTER_L: byte := 0x6c
  const LETTER_M: byte := 0x6d
  const E01: seq<byte> := [0x45, 0x30, 0x31]

  // ----- Escaping

  /** `b ^ 0x20`. */
  function FlipBit5(b: byte): byte {
    if b / 32 % 2 == 1 then b - 32 else b + 32
  }

  predicate Special(b: byte) {
    b == HASH || b == DOLLAR || b == ESCAPE || b == STAR
  }

  function EscapeByte(b: byte): seq<byte> {
    if Special(b) then [ESCAPE, FlipBit5(b)] else [b]
  }

  function Escaped(data: seq<byte>): seq<byte> {
    if data == [] then [] else EscapeByte(data[0]) + Escaped(data[1..])
  }

  /** Nothing when the data ends in the middle of an escape, where the source asserts. */
  function Unescaped(payload: seq<byte>): Option<seq<byte>> {
    if payload == [] then Some([])
    else if payload[0] != ESCAPE then Prepend([payload[0]], Unescaped(payload[1..]))
    else if |payload| == 1 then None
    else Prepend([FlipBit5(payload[1])], Unescaped(payload[2..]))
  }

  function Prepend(s: seq<byte>, r: Option<seq<byte>>): Option<seq<byte>> {
    match r
    case None => None
    case Some(t) => Some(s + t)
  }

  /** Unescaping undoes escaping, and no byte that frames a packet is left in escaped data. */
  lemma {:induction false} UnescapeInvertsEscape(data: seq<byte>)
    ensures Unescaped(Escaped(data)) == Some(data)
    ensures HASH !in Escaped(data) && DOLLAR !in Escaped(data) && STAR !in Escaped(data)
  {
    if data != [] {
      var s, t := EscapeByte(data[0]), Escaped(data[1..]);
      UnescapeInvertsEscape(data[1..]);
      assert (s + t)[|s|..] == t;
      assert [data[0]] + data[1..] == data;
    }
  }

  // ----- Framing

  function Checksum(data: seq<byte>): byte {
    if data == [] then 0 else (Checksum(data[..|data| - 1]) + data[|data| - 1]) % 256
  }

  function Sum(data: seq<byte>): nat {
    if data == [] then 0 else Sum(data[..|data| - 1]) + data[|data| - 1]
  }

  /** The wrapping additions compute the sum of the bytes modulo 256. */
  lemma {:induction false} ChecksumIsSum(data: seq<byte>)
    ensures Checksum(data) == Sum(data) % 256
  {
    if data != [] {
      ChecksumIsSum(data[..|data| - 1]);
      WrapsOnce(Sum(data[..|data| - 1]), data[|data| - 1]);
    }
  }

  lemma WrapsOnce(a: nat, b: nat)
    ensures (a % 256 + b) % 256 == (a + b) % 256
  {
    ModShift(a % 256 + b, 256, a / 256);
  }

  function HexDigit(n: nat): byte
    requires n < 16
  {
    if n < 10 then 0x30 + n else 0x61 + n - 10
  }

  function Hex(b: byte): seq<byte> {
    [HexDigit(b / 16), HexDigit(b % 16)]
  }

  function Framed(body: seq<byte>): seq<byte> {
    [DOLLAR] + body + [HASH] + Hex(Checksum(body))
  }

  function BinaryBody(prefix: seq<byte>, data: seq<byte>): seq<byte> {
    prefix + Escaped(data)
  }

  // ----- Reading a buffer of packets

  predicate StartsPacket(b: byte) {
    b == DOLLAR || b == INTERRUPT_CHAR
  }

  /** The buffer from its first packet start on. */
  function SkipToStart(buf: seq<byte>): (r: seq<byte>)
    ensures |r| <= |buf| && (r != [] ==> StartsPacket(r[0]))
  {
    if buf == [] || StartsPacket(buf[0]) then buf else SkipToStart(buf[1..])
  }

  /** The index of the first `#` (`memchr`). */
  function FindHash(buf: seq<byte>): (r: Option<nat>)
    ensures r.Some? ==> r.value < |buf| && buf[r.value] == HASH && HASH !in buf[..r.value]
    ensures r.None? <==> HASH !in buf
  {
    if buf == [] then None
    else if buf[0] == HASH then Some(0)
    else
      match FindHash(buf[1..])
      case None => None
      case Some(i) =>
        assert buf[..i + 1] == [buf[0]] + buf[1..][..i];
        Some(i + 1)
  }

  /** What the packet loop makes of the next item; the source panics on an empty packet. */
  datatype Item = Interrupt | Request(request: byte, payload: seq<byte>) | EmptyPacket

  function ItemOf(body: seq<byte>): Item {
    if body == [] then EmptyPacket else Request(body[0], body[1..])
  }

  datatype Reading = Blocked | Read(item: Item, rest: seq<byte>)

  function ReadOne(buf: seq<byte>): (r: Reading)
    ensures r.Read? ==> |r.rest| < |buf|
  {
    var s := SkipToStart(buf);
    if s == [] then Blocked
    else if s[0] == INTERRUPT_CHAR then Read(Interrupt, s[1..])
    else
      match FindHash(s)
      case None => Blocked
      case Some(end) => Read(ItemOf(s[1..end]), s[end + 1..])
  }

  /** Every item that is complete in the buffer. */
  function ReadAll(buf: seq<byte>): seq<Item>
    decreases |buf|
  {
    match ReadOne(buf)
    case Blocked => []
    case Read(item, rest) => [item] + ReadAll(rest)
  }

  // ----- What a client sends

  /** A binary packet, an interrupt, or bytes such as acknowledgements that start no packet. */
  datatype Sent = Packet(prefix: seq<byte>, data: seq<byte>) | Break | Noise(bytes: seq<byte>)

  predicate IsNoise(s: seq<byte>) {
    forall i :: 0 <= i < |s| ==> !StartsPacket(s[i])
  }

  predicate Sendable(m: Sent) {
    match m
    case Packet(prefix, data) => prefix != [] && HASH !in prefix
    case Break => true
    case Noise(bytes) => IsNoise(bytes)
  }

  function BytesOf(m: Sent): seq<byte> {
    match m
    case Packet(prefix, data) => Framed(BinaryBody(prefix, data))
    case Break => [INTERRUPT_CHAR]
    case Noise(bytes) => bytes
  }

  function Stream(ms: seq<Sent>): seq<byte> {
    if ms == [] then [] else BytesOf(ms[0]) + Stream(ms[1..])
  }

  function ItemsSent(ms: seq<Sent>): seq<Item>
    requires forall i :: 0 <= i < |ms| ==> Sendable(ms[i])
  {
    if ms == [] then []
    else
      assert Sendable(ms[0]);
      var rest := ItemsSent(ms[1..]);
      match ms[0]
      case Packet(prefix, data) => [Request(prefix[0], BinaryBody(prefix[1..], data))] + rest
      case Break => [Interrupt] + rest
      case Noise(_) => rest
  }

  lemma {:induction false} SkipsNoise(noise: seq<byte>, s: seq<byte>)
    requires IsNoise(noise)
    ensures SkipToStart(noise + s) == SkipToStart(s)
  {
    if noise == [] {
      assert noise + s == s;
    } else {
      assert (noise + s)[1..] == noise[1..] + s;
      SkipsNoise(noise[1..], s);
    }
  }

  lemma FindsHash(x: seq<byte>, s: seq<byte>)
    requires HASH !in x
    ensures FindHash(x + [HASH] + s) == Some(|x|)
  {
    assert (x + [HASH] + s)[|x|] == HASH;
  }

  lemma ReadsAt(noise: seq<byte>, frame: seq<byte>, end: nat)
    requires IsNoise(noise) && frame != [] && frame[0] == DOLLAR && FindHash(frame) == Some(end)
    ensures ReadOne(noise + frame) == Read(ItemOf(frame[1..end]), frame[end + 1..])
  {
    SkipsNoise(noise, frame);
  }

  lemma FrameParts(body: seq<byte>, s: seq<byte>)
    ensures
      var frame := [DOLLAR] + body + [HASH] + s;
      |frame| == |body| + 2 + |s| && frame[0] == DOLLAR && frame[1..|body| + 1] == body && frame[|body| + 2..] == s
  {
  }

  lemma ReadsFrame(noise: seq<byte>, body: seq<byte>, s: seq<byte>)
    requires IsNoise(noise) && HASH !in body
    ensures ReadOne(noise + ([DOLLAR] + body + [HASH] + s)) == Read(ItemOf(body), s)
  {
    FindsHash([DOLLAR] + body, s);
    FrameParts(body, s);
    ReadsAt(noise, [DOLLAR] + body + [HASH] + s, |body| + 1);
  }

  lemma ReadsBreak(noise: seq<byte>, s: seq<byte>)
    requires IsNoise(noise)
    ensures ReadOne(noise + ([INTERRUPT_CHAR] + s)) == Read(Interrupt, s)
  {
    var t := [INTERRUPT_CHAR] + s;
    SkipsNoise(noise, t);
    assert t[1..] == s;
  }

  lemma NoiseConcat(a: seq<byte>, b: seq<byte>)
    requires IsNoise(a) && IsNoise(b)
    ensures IsNoise(a + b)
  {
  }

  lemma BodyHasNoHash(prefix: seq<byte>, data: seq<byte>)
    requires HASH !in prefix
    ensures HASH !in BinaryBody(prefix, data)
  {
    UnescapeInvertsEscape(data);
  }

  lemma FrameThen(body: seq<byte>, s: seq<byte>)
    ensures Framed(body) + s == [DOLLAR] + body + [HASH] + (Hex(Checksum(body)) + s)
  {
  }

  lemma BodyItem(prefix: seq<byte>, data: seq<byte>)
    requires prefix != []
    ensures ItemOf(BinaryBody(prefix, data)) == Request(prefix[0], BinaryBody(prefix[1..], data))
  {
    assert BinaryBody(prefix, data)[1..] == BinaryBody(prefix[1..], data);
  }

  lemma ReadsPacket(noise: seq<byte>, prefix: seq<byte>, data: seq<byte>, s: seq<byte>)
    requires IsNoise(noise) && Sendable(Packet(prefix, data))
    ensures
      var body := BinaryBody(prefix, data);
      ReadOne(noise + (Framed(body) + s)) == Read(Request(prefix[0], BinaryBody(prefix[1..], data)),
        Hex(Checksum(body)) + s)
  {
    var body := BinaryBody(prefix, data);
    BodyHasNoHash(prefix, data);
    ReadsFrame(noise, body, Hex(Checksum(body)) + s);
    FrameThen(body, s);
    BodyItem(prefix, data);
  }

  lemma HexIsNoise(b: byte)
    ensures IsNoise(Hex(b))
  {
  }

  /** Reading what was sent gives exactly the packets and interrupts sent, in order; checksums and noise are skipped. */
  lemma {:induction false} StreamRoundTrip(noise: seq<byte>, ms: seq<Sent>)
    requires IsNoise(noise) && forall i :: 0 <= i < |ms| ==> Sendable(ms[i])
    ensures ReadAll(noise + Stream(ms)) == ItemsSent(ms)
    decreases |ms|
  {
    if ms == [] {
      SkipsNoise(noise, []);
    } else {
      var m, rest := ms[0], Stream(ms[1..]);
      assert Sendable(m);
      match m {
        case Packet(prefix, data) =>
          var sum := Checksum(BinaryBody(prefix, data));
          ReadsPacket(noise, prefix, data, rest);
          HexIsNoise(sum);
          StreamRoundTrip(Hex(sum), ms[1..]);
        case Break =>
          ReadsBreak(noise, rest);
          StreamRoundTrip([], ms[1..]);
          assert [] + rest == rest;
        case Noise(bytes) =>
          NoiseConcat(noise, bytes);
          assert noise + (bytes + rest) == noise + bytes + rest;
          StreamRoundTrip(noise + bytes, ms[1..]);
      }
    }
  }

  /** The prefix and the data of a request that was read back. */
  lemma PayloadRoundTrip(prefix: seq<byte>, data: seq<byte>)
    ensures BinaryBody(prefix, data)[..|prefix|] == prefix
    ensures Unescaped(BinaryBody(prefix, data)[|prefix|..]) == Some(data)
  {
    UnescapeInvertsEscape(data);
    assert BinaryBody(prefix, data)[|prefix|..] == Escaped(data);
  }

  // ----- Packets that arrive in several reads

  /** The buffer and the reads still to come, or a closed connection. */
  datatype Input = Input(buf: seq<byte>, arrivals: seq<seq<byte>>) | Closed

  /** Reads until a packet starts; a buffer without a start is dropped. */
  function WaitForStart(buf: seq<byte>, arrivals: seq<seq<byte>>): (r: Input)
    ensures r.Input? ==> r.buf != [] && StartsPacket(r.buf[0])
    decreases |arrivals|
  {
    var s := SkipToStart(buf);
    if s != [] then Input(s, arrivals)
    else if arrivals == [] then Closed
    else WaitForStart(arrivals[0], arrivals[1..])
  }

  /** What `read_packet` leaves: the buffer and the end it recorded for the packet. */
  datatype Packeted = Packeted(buf: seq<byte>, packetend: nat) | Lost

  /** Scans the bytes from `checkedlen` on and records the index found relative to it. */
  function WaitForEnd(buf: seq<byte>, arrivals: seq<seq<byte>>, checkedlen: nat): (r: Packeted)
    requires checkedlen <= |buf|
    decreases |arrivals|
  {
    match FindHash(buf[checkedlen..])
    case Some(p) => Packeted(buf, p)
    case None => if arrivals == [] then Lost else WaitForEnd(buf + arrivals[0], arrivals[1..], |buf|)
  }

  function ReadPacketOf(buf: seq<byte>, arrivals: seq<seq<byte>>): Packeted {
    match WaitForStart(buf, arrivals)
    case Closed => Lost
    case Input(s, more) => if s[0] == INTERRUPT_CHAR then Packeted(s, 1) else WaitForEnd(s, more, 0)
  }

  /** The end that processing the packet asserts: the first `#` of the buffer. */
  predicate EndIsRight(p: Packeted) {
    p.Packeted? && (FindHash(p.buf) == Some(p.packetend) || (p.buf != [] && p.buf[0] == INTERRUPT_CHAR))
  }

  lemma {:induction false} LateEndIsWrong(buf: seq<byte>, arrivals: seq<seq<byte>>, checkedlen: nat)
    requires 0 < checkedlen <= |buf| && HASH !in buf[..checkedlen] && buf[0] == DOLLAR
    ensures !EndIsRight(WaitForEnd(buf, arrivals, checkedlen))
    decreases |arrivals|
  {
    var p := FindHash(buf[checkedlen..]);
    assert buf == buf[..checkedlen] + buf[checkedlen..];
    if p.Some? {
      assert p.value >= checkedlen ==> buf[p.value] == buf[checkedlen..][..p.value][p.value - checkedlen];
    } else if arrivals != [] {
      var buf' := buf + arrivals[0];
      assert buf'[..|buf|] == buf;
      LateEndIsWrong(buf', arrivals[1..], |buf|);
    }
  }

  /**
   * The recorded end is right exactly when the whole packet was buffered as soon as its start was, or it is
   * an interrupt.
   */
  lemma ReadPacketRightIff(buf: seq<byte>, arrivals: seq<seq<byte>>)
    ensures
      var start := WaitForStart(buf, arrivals);
      EndIsRight(ReadPacketOf(buf, arrivals)) <==> start.Input? && (start.buf[0] == INTERRUPT_CHAR || HASH in start.buf)
  {
    var start := WaitForStart(buf, arrivals);
    if start.Input? && start.buf[0] != INTERRUPT_CHAR {
      var s := start.buf;
      assert s[0..] == s;
      if HASH !in s && start.arrivals != [] {
        var s' := s + start.arrivals[0];
        assert s'[..|s|] == s;
        LateEndIsWrong(s', start.arrivals[1..], |s|);
      }
    }
  }

  /** `$g` in one read and `#67` in the next. */
  lemma SplitPacketMisread()
    ensures
      var arrivals := [[DOLLAR, 0x67], [HASH, 0x36, 0x37]];
      && ReadPacketOf([], arrivals).Packeted? && !EndIsRight(ReadPacketOf([], arrivals))
  {
    var first: seq<byte>, second: seq<byte> := [DOLLAR, 0x67], [HASH, 0x36, 0x37];
    var arrivals := [first, second];
    assert arrivals[1..] == [second] && [second][1..] == [];
    assert WaitForStart([], arrivals) == WaitForStart(first, [second]) == Input(first, [second]);
    assert first[0..] == first && (first + second)[2..] == second;
    assert WaitForEnd(first, [second], 0) == WaitForEnd(first + second, [], 2) == Packeted(first + second, 0);
    ReadPacketRightIff([], arrivals);
  }

  // ----- Chunked transfer

  /** The body of the reply to a request for `len` bytes at `offset`. */
  function XferBody(data: seq<byte>, offset: nat, len: nat): (body: seq<byte>)
    ensures body != []
  {
    if offset > |data| then E01
    else if offset == |data| then [LETTER_L]
    else if offset + len < |data| then BinaryBody([LETTER_M], data[offset..offset + len])
    else BinaryBody([LETTER_L], data[offset..])
  }

  /** What a client makes of a reply: a chunk, and whether it is the last. */
  datatype Reply = Reply(last: bool, chunk: seq<byte>) | NoReply

  function DecodeReply(body: seq<byte>): Reply {
    if body == [] || (body[0] != LETTER_L && body[0] != LETTER_M) then NoReply
    else
      match Unescaped(body[1..])
      case None => NoReply
      case Some(chunk) => Reply(body[0] == LETTER_L, chunk)
  }

  lemma BinaryReply(letter: byte, chunk: seq<byte>)
    requires letter == LETTER_L || letter == LETTER_M
    ensures DecodeReply(BinaryBody([letter], chunk)) == Reply(letter == LETTER_L, chunk)
  {
    PayloadRoundTrip([letter], chunk);
  }

  /** The bytes asked for, or those up to the end of the object. */
  function Slice(data: seq<byte>, offset: nat, len: nat): Reply {
    if offset > |data| then NoReply
    else if offset + len < |data| then Reply(false, data[offset..offset + len])
    else Reply(true, data[offset..])
  }

  lemma XferReply(data: seq<byte>, offset: nat, len: nat)
    ensures DecodeReply(XferBody(data, offset, len)) == Slice(data, offset, len)
  {
    if offset < |data| {
      if offset + len < |data| {
        BinaryReply(LETTER_M, data[offset..offset + len]);
      } else {
        BinaryReply(LETTER_L, data[offset..]);
      }
    } else if offset == |data| {
      assert data[offset..] == [] && [LETTER_L][1..] == [];
    }
  }

  /** What a client collects that asks for `lens(i)`, `lens(i + 1)`, ... bytes until a reply is the last or no reply. */
  function Fetch(reply: (nat, nat) -> Reply, size: nat, offset: nat, lens: nat -> nat, i: nat): Option<seq<byte>>
    decreases size - offset
  {
    match reply(offset, lens(i))
    case NoReply => None
    case Reply(last, chunk) =>
      if last then Some(chunk)
      else if chunk == [] || offset + |chunk| > size then None
      else Prepend(chunk, Fetch(reply, size, offset + |chunk|, lens, i + 1))
  }

  lemma {:induction false} FetchGetsTheRest(reply: (nat, nat) -> Reply, data: seq<byte>, offset: nat,
                                            lens: nat -> nat, i: nat)
    requires offset <= |data| && forall k :: lens(k) > 0
    requires forall o, n {:trigger reply(o, n)} :: reply(o, n) == Slice(data, o, n)
    ensures Fetch(reply, |data|, offset, lens, i) == Some(data[offset..])
    decreases |data| - offset
  {
    var next := offset + lens(i);
    if next < |data| {
      FetchGetsTheRest(reply, data, next, lens, i + 1);
      assert data[offset..next] + data[next..] == data[offset..];
    }
  }

  /** The decoded replies of a server that holds `data`. */
  function Server(data: seq<byte>): (nat, nat) -> Reply {
    (offset: nat, len: nat) => DecodeReply(XferBody(data, offset, len))
  }

  /** Every choice of positive lengths ends with the whole object. */
  lemma TransferReassembles(data: seq<byte>, lens: nat -> nat)
    requires forall k :: lens(k) > 0
    ensures Fetch(Server(data), |data|, 0, lens, 0) == Some(data)
  {
    var reply := Server(data);
    forall o: nat, n: nat
      ensures reply(o, n) == Slice(data, o, n)
    {
      XferReply(data, o, n);
    }
    FetchGetsTheRest(reply, data, 0, lens, 0);
    assert data[0..] == data;
  }

  // ----- The connection, updated in place

  class GdbConnection {
    var inbuf: seq<byte>
    var outbuf: seq<byte>
    var packetend: nat

    constructor ()
      ensures inbuf == [] && outbuf == [] && packetend == 0
    {
      inbuf, outbuf, packetend := [], [], 0;
    }

    method WritePacketBytes(data: seq<byte>)
      modifies `outbuf
      ensures outbuf == old(outbuf) + Framed(data)
    {
      var checksum: byte := 0;
      var i := 0;
      outbuf := outbuf + [DOLLAR];
      while i < |data|
        invariant i <= |data| && checksum == Checksum(data[..i]) && outbuf == old(outbuf) + [DOLLAR]
      {
        assert data[..i + 1][..i] == data[..i];
        checksum := (checksum + data[i]) % 256;
        i := i + 1;
      }
      assert data[..i] == data;
      outbuf := outbuf + data;
      outbuf := outbuf + [HASH];
      outbuf := outbuf + Hex(checksum);
    }

    method WriteBinaryPacket(prefix: seq<byte>, data: seq<byte>)
      modifies `outbuf
      ensures outbuf == old(outbuf) + Framed(BinaryBody(prefix, data))
    {
      var buf := prefix;
      var i := 0;
      while i < |data|
        invariant i <= |data| && buf + Escaped(data[i..]) == BinaryBody(prefix, data) && outbuf == old(outbuf)
      {
        var b := data[i];
        EscapedFrom(buf, data, i);
        if Special(b) {
          buf := buf + [ESCAPE] + [FlipBit5(b)];
        } else {
          buf := buf + [b];
        }
        i := i + 1;
      }
      assert buf + [] == buf;
      WritePacketBytes(buf);
    }

    /** The sum of the offset and the length is a 64-bit number. */
    method WriteXferResponse(data: seq<byte>, offset: nat, len: nat)
      requires offset + len < TWO_64
      modifies `outbuf
      ensures outbuf == old(outbuf) + Framed(XferBody(data, offset, len))
    {
      var size := |data|;
      if offset > size {
        WritePacketBytes(E01);
      } else if offset == size {
        WritePacketBytes([LETTER_L]);
      } else if offset + len < size {
        WriteBinaryPacket([LETTER_M], data[offset..offset + len]);
      } else {
        WriteBinaryPacket([LETTER_L], data[offset..]);
      }
    }

    method SkipToPacketStart() returns (found: bool)
      modifies `inbuf
      ensures inbuf == SkipToStart(old(inbuf))
      ensures found <==> inbuf != []
    {
      var i := 0;
      while i < |inbuf|
        invariant i <= |inbuf| && inbuf == old(inbuf)
        invariant SkipToStart(inbuf[i..]) == SkipToStart(inbuf)
      {
        if StartsPacket(inbuf[i]) {
          assert SkipToStart(inbuf[i..]) == inbuf[i..];
          inbuf := inbuf[i..];
          return true;
        }
        assert inbuf[i..][1..] == inbuf[i + 1..];
        i := i + 1;
      }
      inbuf := [];
      return false;
    }

    /** Returns false when the connection closes first. */
    method ReadPacket(arrivals: seq<seq<byte>>) returns (ok: bool)
      modifies `inbuf, `packetend
      ensures ok <==> ReadPacketOf(old(inbuf), arrivals).Packeted?
      ensures ok ==> Packeted(inbuf, packetend) == ReadPacketOf(old(inbuf), arrivals)
    {
      var next := 0;
      var found := SkipToPacketStart();
      while !found
        invariant next <= |arrivals| && (found <==> inbuf != [])
        invariant WaitForStart(old(inbuf), arrivals) == if found then Input(inbuf, arrivals[next..])
                                                     else if next == |arrivals| then Closed
                                                     else WaitForStart(arrivals[next], arrivals[next + 1..])
        decreases |arrivals| - next, !found
      {
        if next == |arrivals| {
          return false;
        }
        inbuf := inbuf + arrivals[next];
        assert inbuf == arrivals[next];
        next := next + 1;
        assert arrivals[next..] == [] ||
               (arrivals[next..][0] == arrivals[next] && arrivals[next..][1..] == arrivals[next + 1..]);
        found := SkipToPacketStart();
      }
      if inbuf[0] == INTERRUPT_CHAR {
        packetend := 1;
        return true;
      }
      ok := FindPacketEnd(arrivals[next..]);
    }

    method FindPacketEnd(arrivals: seq<seq<byte>>) returns (ok: bool)
      modifies `inbuf, `packetend
      ensures ok <==> WaitForEnd(old(inbuf), arrivals, 0).Packeted?
      ensures ok ==> Packeted(inbuf, packetend) == WaitForEnd(old(inbuf), arrivals, 0)
    {
      var checkedlen, next := 0, 0;
      while true
        invariant 0 <= checkedlen <= |inbuf| && next <= |arrivals|
        invariant WaitForEnd(inbuf, arrivals[next..], checkedlen) == WaitForEnd(old(inbuf), arrivals, 0)
        decreases |arrivals| - next
      {
        var p := FindHash(inbuf[checkedlen..]);
        if p.Some? {
          packetend := p.value;
          return true;
        }
        checkedlen := |inbuf|;
        if next == |arrivals| {
          return false;
        }
        assert arrivals[next..][1..] == arrivals[next + 1..];
        inbuf := inbuf + arrivals[next];
        next := next + 1;
      }
    }

    /** Takes the item at the start of the buffer and erases it; a checksum behind it stays. */
    method ProcessPacket() returns (item: Item)
      requires inbuf != [] && StartsPacket(inbuf[0]) && EndIsRight(Packeted(inbuf, packetend))
      modifies `inbuf
      ensures ReadOne(old(inbuf)) == Read(item, inbuf)
    {
      if inbuf[0] == INTERRUPT_CHAR {
        inbuf := inbuf[1..];
        return Interrupt;
      }
      item := ItemOf(inbuf[1..packetend]);
      inbuf := inbuf[packetend + 1..];
    }

    /** Nothing where the source asserts that the byte after an escape is there. */
    static method ReadBinaryData(payload: seq<byte>) returns (r: Option<seq<byte>>)
      ensures r == Unescaped(payload)
    {
      var data: seq<byte> := [];
      var i := 0;
      PrependNothing(Unescaped(payload));
      assert payload[0..] == payload;
      while i < |payload|
        invariant i <= |payload| && Unescaped(payload) == Prepend(data, Unescaped(payload[i..]))
      {
        ghost var before, s := data, payload[i..];
        if payload[i] == ESCAPE {
          if i == |payload| - 1 {
            return None;
          }
          data := data + [FlipBit5(payload[i + 1])];
          assert s[2..] == payload[i + 2..];
          PrependTwice(before, [FlipBit5(payload[i + 1])], Unescaped(payload[i + 2..]));
          i := i + 2;
        } else {
          data := data + [payload[i]];
          assert s[1..] == payload[i + 1..];
          PrependTwice(before, [payload[i]], Unescaped(payload[i + 1..]));
          i := i + 1;
        }
      }
      assert data + [] == data;
      return Some(data);
    }
  }

  lemma EscapedFrom(buf: seq<byte>, data: seq<byte>, i: nat)
    requires i < |data|
    ensures buf + Escaped(data[i..]) == buf + EscapeByte(data[i]) + Escaped(data[i + 1..])
    ensures buf + [ESCAPE] + [FlipBit5(data[i])] == buf + [ESCAPE, FlipBit5(data[i])]
  {
    assert data[i..][1..] == data[i + 1..];
    assert buf + (EscapeByte(data[i]) + Escaped(data[i + 1..])) == buf + EscapeByte(data[i]) + Escaped(data[i + 1..]);
  }

  lemma PrependNothing(r: Option<seq<byte>>)
    ensures Prepend([], r) == r
  {
    if r.Some? {
      assert [] + r.value == r.value;
    }
  }

  lemma PrependTwice(s: seq<byte>, t: seq<byte>, r: Option<seq<byte>>)
    ensures Prepend(s, Prepend(t, r)) == Prepend(s + t, r)
  {
    if r.Some? {
      assert s + (t + r.value) == s + t + r.value;
    }
  }
}
