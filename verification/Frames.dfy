/** The wire frame: [Magic:1][Cmd:1][StreamID:4][DataLen:4][ext block][payload]. */
module Frames {
  import opened Bytes

  const MAGIC_BYTE: byte := 0x1F
  const HEADER_SIZE: nat := 10
  const EXT_HEADER_LEN: nat := 2
  const MAX_EXT_TOTAL_LEN: nat := 1024

  const CMD_PUBLISH: byte := 1
  const CMD_SUBSCRIBE: byte := 2
  const CMD_UNSUBSCRIBE: byte := 3
  const CMD_ACK: byte := 4
  const CMD_PUBLISH_BATCH: byte := 5
  const CMD_NACK: byte := 6

  // The command byte: bit 7 is MeshForwarded, bit 6 HasExtensions, the rest the opcode.

  predicate IsForwarded(cmd: byte) { cmd >= 0x80 }

  predicate HasExtensionsBit(cmd: byte) { cmd % 0x80 >= 0x40 }

  function OpcodeOf(cmd: byte): byte { cmd % 0x40 }

  function SetForwarded(cmd: byte): (r: byte)
    ensures IsForwarded(r)
    ensures OpcodeOf(r) == OpcodeOf(cmd) && (HasExtensionsBit(r) <==> HasExtensionsBit(cmd))
  {
    if cmd >= 0x80 then cmd else cmd + 0x80
  }

  function SetExtensionsBit(cmd: byte): (r: byte)
    ensures HasExtensionsBit(r)
    ensures OpcodeOf(r) == OpcodeOf(cmd) && (IsForwarded(r) <==> IsForwarded(cmd))
  {
    if cmd % 0x80 >= 0x40 then cmd else cmd + 0x40
  }

  predicate KnownOpcode(cmd: byte) { CMD_PUBLISH <= OpcodeOf(cmd) <= CMD_NACK }

  /** A parsed frame; `extensions` is empty when the frame carries no block (a nil slice in the source). */
  datatype Frame = Frame(command: byte, streamID: nat, payload: seq<byte>, extensions: seq<byte>) {
    predicate HasExtensions() { extensions != [] }
  }

  datatype FrameError =
    | ShortHeader | BadMagic | UnknownCommand | Truncated | ShortExtHeader | ExtTooLong | ExtOverrun

  datatype Result<+T, +E> = Ok(value: T) | Err(error: E)

  function DataLen(buf: seq<byte>): (n: nat)
    requires |buf| >= HEADER_SIZE
    ensures n < U32
  {
    FromLEBounds(buf[6..10]);
    FromLE(buf[6..10])
  }

  function TotalLen(buf: seq<byte>): nat
    requires |buf| >= HEADER_SIZE
  {
    HEADER_SIZE + DataLen(buf)
  }

  function ParseFrame(buf: seq<byte>): Result<Frame, FrameError>
  {
    if |buf| < HEADER_SIZE then Err(ShortHeader)
    else if buf[0] != MAGIC_BYTE then Err(BadMagic)
    else if !KnownOpcode(buf[1]) then Err(UnknownCommand)
    else
      var streamID := FromLE(buf[2..6]);
      var dataLen := DataLen(buf);
      var end := HEADER_SIZE + dataLen;
      if |buf| < end then Err(Truncated)
      else if !HasExtensionsBit(buf[1]) then
        Ok(Frame(buf[1], streamID, buf[HEADER_SIZE..end], []))
      else if dataLen < EXT_HEADER_LEN then Err(ShortExtHeader)
      else
        var extTotal := FromLE(buf[HEADER_SIZE..HEADER_SIZE + 2]);
        if extTotal > MAX_EXT_TOTAL_LEN then Err(ExtTooLong)
        else
          var extEnd := HEADER_SIZE + EXT_HEADER_LEN + extTotal;
          if extEnd > end then Err(ExtOverrun)
          else Ok(Frame(buf[1], streamID, buf[extEnd..end], buf[HEADER_SIZE..extEnd]))
  }

  function Header(cmd: byte, streamID: nat, dataLen: nat): (h: seq<byte>)
    ensures |h| == HEADER_SIZE
  {
    [MAGIC_BYTE, cmd] + LE(streamID, 4) + LE(dataLen, 4)
  }

  /** The bytes a frame with these parts occupies on the wire. */
  function Wire(cmd: byte, streamID: nat, extensions: seq<byte>, payload: seq<byte>): (w: seq<byte>)
    ensures |w| == HEADER_SIZE + |extensions| + |payload|
  {
    Header(cmd, streamID, |extensions| + |payload|) + (extensions + payload)
  }

  function WireOf(f: Frame): seq<byte>
  {
    Wire(f.command, f.streamID, f.extensions, f.payload)
  }

  /** An extension block whose length prefix covers exactly the rest of it. */
  predicate SealedBlock(ext: seq<byte>)
  {
    |ext| >= EXT_HEADER_LEN && FromLE(ext[..2]) == |ext| - EXT_HEADER_LEN <= MAX_EXT_TOTAL_LEN
  }

  /** The frames the wire can carry: exactly those ParseFrame can return. */
  predicate Carriable(f: Frame)
  {
    && KnownOpcode(f.command)
    && f.streamID < U32
    && |f.extensions| + |f.payload| < U32
    && (if HasExtensionsBit(f.command) then SealedBlock(f.extensions) else f.extensions == [])
  }

  lemma HeaderFields(cmd: byte, streamID: nat, dataLen: nat, body: seq<byte>)
    requires streamID < U32 && dataLen < U32
    ensures var w := Header(cmd, streamID, dataLen) + body;
      && w[0] == MAGIC_BYTE && w[1] == cmd && FromLE(w[2..6]) == streamID && DataLen(w) == dataLen
  {
    var w := Header(cmd, streamID, dataLen) + body;
    assert w[2..6] == LE(streamID, 4);
    assert w[6..10] == LE(dataLen, 4);
    U32RoundTrip(streamID);
    U32RoundTrip(dataLen);
  }

  lemma HeaderOf(buf: seq<byte>)
    requires |buf| >= HEADER_SIZE && buf[0] == MAGIC_BYTE
    ensures FromLE(buf[2..6]) < U32
    ensures buf[..HEADER_SIZE] == Header(buf[1], FromLE(buf[2..6]), DataLen(buf))
  {
    FromLEBounds(buf[2..6]);
    FromLEBounds(buf[6..10]);
    assert buf[..HEADER_SIZE] == [buf[0], buf[1]] + buf[2..6] + buf[6..10];
  }

  lemma Slices(h: seq<byte>, e: seq<byte>, p: seq<byte>, rest: seq<byte>)
    ensures var w := h + (e + p) + rest;
      && w == h + (e + p + rest)
      && w[|h|..|h| + |e|] == e
      && w[|h| + |e|..|h| + |e| + |p|] == p
      && w[|h|..|h| + |e| + |p|] == e + p
  {
  }

  /** Serialize then parse: every carriable frame comes back, whatever follows it in the buffer. */
  lemma ParseWire(f: Frame, rest: seq<byte>)
    requires Carriable(f)
    ensures ParseFrame(WireOf(f) + rest) == Ok(f)
  {
    hide LE, FromLE;
    var w := WireOf(f) + rest;
    var n := |f.extensions| + |f.payload|;
    var h := Header(f.command, f.streamID, n);
    HeaderFields(f.command, f.streamID, n, f.extensions + f.payload + rest);
    Slices(h, f.extensions, f.payload, rest);
    if HasExtensionsBit(f.command) {
      ExtPrefix(h, f.extensions, f.payload + rest);
      assert w == h + (f.extensions + (f.payload + rest));
    }
  }

  lemma ExtPrefix(h: seq<byte>, e: seq<byte>, tail: seq<byte>)
    requires |e| >= 2
    ensures (h + (e + tail))[|h|..|h| + 2] == e[..2]
  {
  }

  /** Parse then serialize: an accepted buffer starts with the wire form of the frame returned. */
  lemma WireParse(buf: seq<byte>)
    requires ParseFrame(buf).Ok?
    ensures Carriable(ParseFrame(buf).value)
    ensures TotalLen(buf) <= |buf|
    ensures WireOf(ParseFrame(buf).value) == buf[..TotalLen(buf)]
  {
    var f := ParseFrame(buf).value;
    HeaderOf(buf);
    if HasExtensionsBit(buf[1]) {
      assert f.extensions[..2] == buf[HEADER_SIZE..HEADER_SIZE + 2];
    }
    assert f.extensions + f.payload == buf[HEADER_SIZE..TotalLen(buf)];
    assert buf[..TotalLen(buf)] == buf[..HEADER_SIZE] + buf[HEADER_SIZE..TotalLen(buf)];
  }

  /** A buffer is accepted exactly when it begins with the wire form of some carriable frame. */
  lemma AcceptedIffWirePrefix(buf: seq<byte>)
    ensures ParseFrame(buf).Ok? <==> exists f: Frame :: Carriable(f) && WireOf(f) <= buf
  {
    if ParseFrame(buf).Ok? {
      WireParse(buf);
      assert WireOf(ParseFrame(buf).value) <= buf;
    }
    forall f: Frame | Carriable(f) && WireOf(f) <= buf
      ensures ParseFrame(buf).Ok?
    {
      ParseWire(f, buf[|WireOf(f)|..]);
      assert WireOf(f) + buf[|WireOf(f)|..] == buf;
    }
  }

  method PutHeader(b: array<byte>, cmd: byte, streamID: nat, dataLen: nat)
    requires b.Length >= HEADER_SIZE
    modifies b
    ensures b[..HEADER_SIZE] == Header(cmd, streamID, dataLen)
  {
    b[0] := MAGIC_BYTE;
    b[1] := cmd;
    assert b[..2] == [MAGIC_BYTE, cmd];
    PutLE(b, 2, streamID, 4);
    PutLE(b, 6, dataLen, 4);
  }

  /** serializeFrameSlab: fills a fresh buffer in place. */
  method SerializeFrame(cmd: byte, streamID: nat, payload: seq<byte>) returns (b: array<byte>)
    ensures fresh(b)
    ensures b[..] == Wire(cmd, streamID, [], payload)
  {
    b := new byte[HEADER_SIZE + |payload|];
    PutHeader(b, cmd, streamID, |payload|);
    CopyInto(b, HEADER_SIZE, payload);
    assert b[..] == b[..HEADER_SIZE + |payload|];
    assert [] + payload == payload;
  }

  /** serializeFrameWithExtensionsSlab: sets the extension bit and writes the block before the payload. */
  method SerializeFrameWithExtensions(cmd: byte, streamID: nat, extensions: seq<byte>, payload: seq<byte>)
    returns (b: array<byte>)
    ensures fresh(b)
    ensures b[..] == Wire(SetExtensionsBit(cmd), streamID, extensions, payload)
  {
    b := new byte[HEADER_SIZE + |extensions| + |payload|];
    PutHeader(b, SetExtensionsBit(cmd), streamID, |extensions| + |payload|);
    CopyInto(b, HEADER_SIZE, extensions);
    CopyInto(b, HEADER_SIZE + |extensions|, payload);
    assert b[..] == b[..HEADER_SIZE + |extensions| + |payload|];
  }

  // ---- Batches -------------------------------------------------------------------------------

  /** One complete frame and nothing else, as far as ParseBatchFrame looks. */
  predicate WholeFrame(p: seq<byte>)
  {
    |p| >= HEADER_SIZE && p[0] == MAGIC_BYTE && KnownOpcode(p[1]) && TotalLen(p) == |p|
  }

  predicate AllWhole(pieces: seq<seq<byte>>)
  {
    forall i :: 0 <= i < |pieces| ==> WholeFrame(pieces[i])
  }

  /** No whole frame starts the buffer. */
  ghost predicate NoFrameAtFront(rest: seq<byte>)
  {
    forall p: seq<byte> :: p <= rest ==> !WholeFrame(p)
  }

  /** ParseBatchFrame: the next complete frame of buf at offset, and where it ends. */
  function ParseBatchFrame(buf: seq<byte>, offset: nat): (r: Result<(seq<byte>, nat), FrameError>)
    requires offset <= |buf|
    ensures r.Err? ==> NoFrameAtFront(buf[offset..])
    ensures r.Ok? ==> offset < r.value.1 <= |buf| && r.value.0 == buf[offset..r.value.1] && WholeFrame(r.value.0)
  {
    var remaining := buf[offset..];
    assert forall p: seq<byte> | p <= remaining && |p| >= HEADER_SIZE :: p[6..10] == remaining[6..10];
    if |remaining| < HEADER_SIZE then Err(ShortHeader)
    else if remaining[0] != MAGIC_BYTE then Err(BadMagic)
    else if !KnownOpcode(remaining[1]) then Err(UnknownCommand)
    else
      var totalLen := TotalLen(remaining);
      if |remaining| < totalLen then Err(Truncated)
      else
        assert remaining[..totalLen] <= remaining && buf[offset..offset + totalLen] == remaining[..totalLen];
        Ok((buf[offset..offset + totalLen], offset + totalLen))
  }

  /** ParseBatch with the callback's arguments collected: the pieces visited, and whether it ran to the end. */
  method ParseBatch(batch: seq<byte>) returns (pieces: seq<seq<byte>>, ok: bool, ghost rest: seq<byte>)
    ensures AllWhole(pieces)
    ensures Concat(pieces) + rest == batch
    ensures ok <==> rest == []
    ensures !ok ==> NoFrameAtFront(rest)
  {
    pieces := [];
    var offset := 0;
    while offset < |batch|
      invariant 0 <= offset <= |batch|
      invariant AllWhole(pieces)
      invariant Concat(pieces) == batch[..offset]
    {
      var r := ParseBatchFrame(batch, offset);
      if r.Err? {
        return pieces, false, batch[offset..];
      }
      ConcatSnoc(pieces, r.value.0);
      pieces := pieces + [r.value.0];
      assert batch[..r.value.1] == batch[..offset] + r.value.0;
      offset := r.value.1;
    }
    ok, rest := true, [];
  }

  /** Whole frames are self-delimiting: of two that start the same buffer, neither is longer. */
  lemma WholeFrameUnique(a: seq<byte>, b: seq<byte>, buf: seq<byte>)
    requires WholeFrame(a) && WholeFrame(b) && a <= buf && b <= buf
    ensures a == b
  {
    assert a[6..10] == buf[6..10] == b[6..10];
  }

  /** A buffer splits into whole frames in one way only, so ParseBatch of a concatenation yields its pieces. */
  lemma {:induction false} BatchSplitUnique(a: seq<seq<byte>>, ra: seq<byte>, b: seq<seq<byte>>, rb: seq<byte>)
    requires AllWhole(a) && AllWhole(b)
    requires NoFrameAtFront(ra) && NoFrameAtFront(rb)
    requires Concat(a) + ra == Concat(b) + rb
    ensures a == b && ra == rb
  {
    var buf := Concat(a) + ra;
    if a != [] {
      assert a[0] <= buf;
    }
    if b != [] {
      assert b[0] <= buf;
    }
    assert a == [] ==> buf == ra;
    assert b == [] ==> buf == rb;
    if a != [] && b != [] {
      WholeFrameUnique(a[0], b[0], buf);
      assert Concat(a[1..]) + ra == buf[|a[0]|..];
      assert Concat(b[1..]) + rb == buf[|a[0]|..];
      BatchSplitUnique(a[1..], ra, b[1..], rb);
    }
  }

  /** The wire form of a carriable frame is one whole frame. */
  lemma WireIsWhole(f: Frame)
    requires Carriable(f)
    ensures WholeFrame(WireOf(f))
  {
    HeaderFields(f.command, f.streamID, |f.extensions| + |f.payload|, f.extensions + f.payload);
  }

  // ---- The offset suffix of consumer-group deliveries ------------------------------------------

  /** What a group member receives: the frame with the delivery offset appended to its payload. */
  function WithOffsetSuffix(buf: seq<byte>, offset: nat): seq<byte>
  {
    if |buf| < HEADER_SIZE || |buf| < TotalLen(buf) then buf
    else
      var dataLen := DataLen(buf);
      buf[..6] + LE((dataLen + 8) % U32, 4) + buf[HEADER_SIZE..HEADER_SIZE + dataLen] + LE(offset, 8)
  }

  lemma OffsetSuffixWire(f: Frame, buf: seq<byte>, offset: nat)
    requires |f.extensions| + |f.payload| + 8 < U32 && f.streamID < U32
    requires WireOf(f) <= buf
    ensures WithOffsetSuffix(buf, offset) == WireOf(f.(payload := f.payload + LE(offset, 8)))
  {
    hide LE, FromLE;
    var n := |f.extensions| + |f.payload|;
    var body := f.extensions + f.payload;
    var h := Header(f.command, f.streamID, n);
    var tail := buf[|WireOf(f)|..];
    assert buf == h + body + tail;
    HeaderFields(f.command, f.streamID, n, body + tail);
    Slices(h, f.extensions, f.payload, tail);
    assert buf[..6] == h[..6];
    assert buf[..6] + LE(n + 8, 4) == Header(f.command, f.streamID, n + 8);
    assert f.extensions + (f.payload + LE(offset, 8)) == body + LE(offset, 8);
  }

  /** The suffixed frame re-parses to the same frame with eight more payload bytes, the offset. */
  lemma OffsetSuffixParses(buf: seq<byte>, offset: nat)
    requires ParseFrame(buf).Ok? && DataLen(buf) + 8 < U32
    ensures var f := ParseFrame(buf).value;
      ParseFrame(WithOffsetSuffix(buf, offset)) == Ok(f.(payload := f.payload + LE(offset, 8)))
  {
    var f := ParseFrame(buf).value;
    WireParse(buf);
    assert WireOf(f) <= buf;
    OffsetSuffixWire(f, buf, offset);
    var g := f.(payload := f.payload + LE(offset, 8));
    ParseWire(g, []);
    assert WireOf(g) + [] == WireOf(g);
  }
}
