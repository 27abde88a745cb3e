/** The per-stream read / dispatch / grow loop, against a decoder that sees the whole stream at once. */
module StreamReader {
  import opened Bytes
  import opened Frames

  /** Authorization and the per-stream decompression budget: any verdict that depends on the frames
      already routed on this stream and the frame at hand. */
  type Gate = (seq<Frame>, Frame) -> bool

  datatype Prepared = Partial | Rejected | Ready(frame: Frame, totalLen: nat)

  /** prepareFrame on the unread bytes of the buffer. */
  function Prepare(unread: seq<byte>, maxBuf: int, gate: Gate, routed: seq<Frame>): (p: Prepared)
    ensures p.Ready? ==> HEADER_SIZE <= p.totalLen <= |unread| && p.totalLen <= maxBuf
    ensures p.Ready? ==> gate(routed, p.frame) && Carriable(p.frame) && WireOf(p.frame) == unread[..p.totalLen]
  {
    if |unread| < HEADER_SIZE then
      if |unread| > maxBuf then Rejected else Partial
    else
      var totalLen := TotalLen(unread);
      if totalLen > maxBuf then Rejected
      else if |unread| < totalLen then Partial
      else
        var r := ParseFrame(unread);
        if r.Err? || !gate(routed, r.value) then Rejected else WireParse(unread); Ready(r.value, totalLen)
  }

  datatype Decoded = Pending(frames: seq<Frame>, rest: seq<byte>) | Failed(frames: seq<Frame>)

  /** The one-shot decoder: the frames of `data` left to right, after those already `routed`. */
  function Decode(data: seq<byte>, maxBuf: int, gate: Gate, routed: seq<Frame>): Decoded
    decreases |data|
  {
    if data == [] then Pending(routed, [])
    else
      match Prepare(data, maxBuf, gate, routed)
      case Partial => Pending(routed, data)
      case Rejected => Failed(routed)
      case Ready(f, n) => Decode(data[n..], maxBuf, gate, routed + [f])
  }

  lemma ParseExtend(a: seq<byte>, b: seq<byte>)
    requires |a| >= HEADER_SIZE && |a| >= TotalLen(a)
    ensures ParseFrame(a + b) == ParseFrame(a)
  {
    var w := a + b;
    assert w[6..10] == a[6..10] && w[2..6] == a[2..6];
    var end := TotalLen(a);
    assert w[HEADER_SIZE..end] == a[HEADER_SIZE..end];
    if HasExtensionsBit(a[1]) && DataLen(a) >= EXT_HEADER_LEN {
      assert w[HEADER_SIZE..HEADER_SIZE + 2] == a[HEADER_SIZE..HEADER_SIZE + 2];
      var extEnd := HEADER_SIZE + EXT_HEADER_LEN + FromLE(a[HEADER_SIZE..HEADER_SIZE + 2]);
      if extEnd <= end {
        assert w[HEADER_SIZE..extEnd] == a[HEADER_SIZE..extEnd];
        assert w[extEnd..end] == a[extEnd..end];
      }
    }
  }

  lemma PrepareExtend(a: seq<byte>, b: seq<byte>, maxBuf: int, gate: Gate, routed: seq<Frame>)
    requires Prepare(a, maxBuf, gate, routed) != Partial
    ensures Prepare(a + b, maxBuf, gate, routed) == Prepare(a, maxBuf, gate, routed)
  {
    if |a| >= HEADER_SIZE {
      assert (a + b)[6..10] == a[6..10];
      if TotalLen(a) <= maxBuf {
        ParseExtend(a, b);
      }
    }
  }

  /** Decoding may stop anywhere and go on from the bytes left over. */
  lemma {:induction false} DecodeSplit(a: seq<byte>, b: seq<byte>, maxBuf: int, gate: Gate, routed: seq<Frame>)
    ensures var d := Decode(a, maxBuf, gate, routed);
      Decode(a + b, maxBuf, gate, routed)
      == if d.Pending? then Decode(d.rest + b, maxBuf, gate, d.frames) else d
    decreases |a|
  {
    if a == [] {
      assert a + b == b && [] + b == b;
    } else {
      var p := Prepare(a, maxBuf, gate, routed);
      if p != Partial {
        PrepareExtend(a, b, maxBuf, gate, routed);
        if p.Ready? {
          assert (a + b)[p.totalLen..] == a[p.totalLen..] + b;
          DecodeSplit(a[p.totalLen..], b, maxBuf, gate, routed + [p.frame]);
        }
      }
    }
  }

  /** Every frame admitted, in order, by a gate. */
  ghost predicate Admitted(fs: seq<Frame>, maxBuf: int, gate: Gate, routed: seq<Frame>)
  {
    forall i :: 0 <= i < |fs| ==>
      Carriable(fs[i]) && |WireOf(fs[i])| <= maxBuf && gate(routed + fs[..i], fs[i])
  }

  function Wires(fs: seq<Frame>): seq<byte>
  {
    if fs == [] then [] else WireOf(fs[0]) + Wires(fs[1..])
  }

  lemma DecodeOne(f: Frame, tail: seq<byte>, maxBuf: int, gate: Gate, routed: seq<Frame>)
    requires Carriable(f) && |WireOf(f)| <= maxBuf && gate(routed, f)
    ensures Decode(WireOf(f) + tail, maxBuf, gate, routed) == Decode(tail, maxBuf, gate, routed + [f])
  {
    var w := WireOf(f);
    var data := w + tail;
    ParseWire(f, tail);
    WireIsWhole(f);
    assert data[6..10] == w[6..10];
    assert data[|w|..] == tail;
  }

  /** A stream of admitted frames followed by a piece of one more decodes to exactly those frames. */
  lemma {:induction false} DecodeWires(fs: seq<Frame>, last: Frame, cut: nat, maxBuf: int, gate: Gate, routed: seq<Frame>)
    requires Admitted(fs, maxBuf, gate, routed)
    requires Carriable(last) && |WireOf(last)| <= maxBuf && cut < |WireOf(last)|
    ensures Decode(Wires(fs) + WireOf(last)[..cut], maxBuf, gate, routed)
      == Pending(routed + fs, WireOf(last)[..cut])
  {
    hide Decode, WireOf;
    var tail := WireOf(last)[..cut];
    if fs == [] {
      DecodePiece(last, cut, maxBuf, gate, routed);
      assert routed + fs == routed && Wires(fs) + tail == tail;
    } else {
      assert fs[..0] == [] && routed + [] == routed;
      assert Wires(fs) + tail == WireOf(fs[0]) + (Wires(fs[1..]) + tail);
      DecodeOne(fs[0], Wires(fs[1..]) + tail, maxBuf, gate, routed);
      AdmittedTail(fs, maxBuf, gate, routed);
      DecodeWires(fs[1..], last, cut, maxBuf, gate, routed + [fs[0]]);
      assert routed + [fs[0]] + fs[1..] == routed + fs;
    }
  }

  lemma DecodePiece(last: Frame, cut: nat, maxBuf: int, gate: Gate, routed: seq<Frame>)
    requires Carriable(last) && cut < |WireOf(last)| <= maxBuf
    ensures Decode(WireOf(last)[..cut], maxBuf, gate, routed) == Pending(routed, WireOf(last)[..cut])
  {
    if cut >= HEADER_SIZE {
      WireIsWhole(last);
      assert WireOf(last)[..cut][6..10] == WireOf(last)[6..10];
    }
  }

  lemma AdmittedTail(fs: seq<Frame>, maxBuf: int, gate: Gate, routed: seq<Frame>)
    requires fs != [] && Admitted(fs, maxBuf, gate, routed)
    ensures Admitted(fs[1..], maxBuf, gate, routed + [fs[0]])
  {
    forall i | 0 <= i < |fs| - 1
      ensures gate(routed + [fs[0]] + fs[1..][..i], fs[1..][i])
    {
      assert routed + [fs[0]] + fs[1..][..i] == routed + fs[..i + 1];
      assert fs[1..][i] == fs[i + 1];
    }
  }

  // ---- What the decoder does, in terms of the bytes ----------------------------------------------------------------

  /** Bytes that wait for more: none, too few for a header, or a piece of a frame within the limit. */
  predicate Waits(rest: seq<byte>, maxBuf: int)
  {
    rest == [] || if |rest| < HEADER_SIZE then |rest| <= maxBuf else |rest| < TotalLen(rest) <= maxBuf
  }

  /** Bytes that end a stream: more than the limit admits, or a whole frame that does not parse or that the gate refuses
      after the frames routed. */
  predicate Refused(rest: seq<byte>, maxBuf: int, gate: Gate, routed: seq<Frame>)
  {
    rest != [] &&
    if |rest| < HEADER_SIZE then |rest| > maxBuf
    else
      TotalLen(rest) > maxBuf
      || (TotalLen(rest) <= |rest| && (ParseFrame(rest).Err? || !gate(routed, ParseFrame(rest).value)))
  }

  /** The bytes are those of the frames, each admitted in turn, and then some that wait or are refused. */
  ghost predicate Explains(data: seq<byte>, maxBuf: int, gate: Gate, routed: seq<Frame>, fs: seq<Frame>, d: Decoded)
  {
    && Admitted(fs, maxBuf, gate, routed) && d.frames == routed + fs && Wires(fs) <= data
    && var rest := data[|Wires(fs)|..];
       if d.Pending? then d.rest == rest && Waits(rest, maxBuf) else Refused(rest, maxBuf, gate, d.frames)
  }

  lemma AdmittedCons(f: Frame, fs: seq<Frame>, maxBuf: int, gate: Gate, routed: seq<Frame>)
    requires Carriable(f) && |WireOf(f)| <= maxBuf && gate(routed, f) && Admitted(fs, maxBuf, gate, routed + [f])
    ensures Admitted([f] + fs, maxBuf, gate, routed)
  {
    hide WireOf, Carriable;
    var all := [f] + fs;
    forall i | 0 <= i < |all|
      ensures Carriable(all[i]) && |WireOf(all[i])| <= maxBuf && gate(routed + all[..i], all[i])
    {
      if i == 0 {
        assert routed + all[..0] == routed;
      } else {
        assert all[i] == fs[i - 1];
        assert routed + [f] + fs[..i - 1] == routed + all[..i];
      }
    }
  }

  lemma ExplainsCons(data: seq<byte>, maxBuf: int, gate: Gate, routed: seq<Frame>, f: Frame, fs: seq<Frame>, d: Decoded)
    requires Carriable(f) && WireOf(f) <= data && |WireOf(f)| <= maxBuf && gate(routed, f)
    requires Explains(data[|WireOf(f)|..], maxBuf, gate, routed + [f], fs, d)
    ensures Explains(data, maxBuf, gate, routed, [f] + fs, d)
  {
    hide Carriable, WireOf, Waits, Refused, Admitted;
    AdmittedCons(f, fs, maxBuf, gate, routed);
    assert ([f] + fs)[1..] == fs;
    var w, rest := WireOf(f), data[|WireOf(f)|..];
    assert routed + [f] + fs == routed + ([f] + fs);
    assert data == w + rest;
    assert data[|w + Wires(fs)|..] == rest[|Wires(fs)|..];
  }

  /** What the one-shot decoder finds: frames that were all admitted, in order, and then bytes that wait, or bytes that
      are refused if it failed. */
  lemma {:induction false} DecodeExplained(data: seq<byte>, maxBuf: int, gate: Gate, routed: seq<Frame>) returns (fs: seq<Frame>)
    ensures Explains(data, maxBuf, gate, routed, fs, Decode(data, maxBuf, gate, routed))
    decreases |data|
  {
    hide ParseFrame, WireOf, Carriable;
    fs := [];
    assert routed + [] == routed && data[0..] == data;
    if data != [] {
      var p := Prepare(data, maxBuf, gate, routed);
      if p.Ready? {
        hide Prepare, Explains;
        var more := DecodeExplained(data[p.totalLen..], maxBuf, gate, routed + [p.frame]);
        ExplainsCons(data, maxBuf, gate, routed, p.frame, more, Decode(data, maxBuf, gate, routed));
        fs := [p.frame] + more;
      }
    }
  }

  lemma DecodeStops(data: seq<byte>, maxBuf: int, gate: Gate, routed: seq<Frame>, d: Decoded)
    requires Explains(data, maxBuf, gate, routed, [], d)
    ensures Decode(data, maxBuf, gate, routed) == d
  {
    hide ParseFrame, Admitted;
    assert routed + [] == routed && data[0..] == data;
  }

  /** And there is no other account of the bytes: whatever explains them is what the decoder finds. */
  lemma {:induction false} DecodeUnique(data: seq<byte>, maxBuf: int, gate: Gate, routed: seq<Frame>, fs: seq<Frame>, d: Decoded)
    requires Explains(data, maxBuf, gate, routed, fs, d)
    ensures Decode(data, maxBuf, gate, routed) == d
    decreases fs
  {
    hide Decode, ParseFrame, WireOf, Carriable, Waits, Refused;
    if fs == [] {
      DecodeStops(data, maxBuf, gate, routed, d);
    } else {
      var w, rest := WireOf(fs[0]), data[|WireOf(fs[0])|..];
      assert fs[..0] == [] && routed + [] == routed;
      assert data == w + rest by { assert w <= Wires(fs); }
      AdmittedTail(fs, maxBuf, gate, routed);
      DecodeOne(fs[0], rest, maxBuf, gate, routed);
      assert routed + [fs[0]] + fs[1..] == routed + fs;
      assert data[|Wires(fs)|..] == rest[|Wires(fs[1..])|..];
      DecodeUnique(rest, maxBuf, gate, routed + [fs[0]], fs[1..], d);
    }
  }

  /** Every frame routed was admitted after the frames before it. */
  lemma RoutedAdmitted(data: seq<byte>, maxBuf: int, gate: Gate, routed: seq<Frame>, i: nat)
    requires |routed| <= i < |Decode(data, maxBuf, gate, routed).frames|
    ensures var frames := Decode(data, maxBuf, gate, routed).frames; gate(frames[..i], frames[i])
  {
    hide Decode, WireOf, Carriable;
    var fs := DecodeExplained(data, maxBuf, gate, routed);
    var frames := Decode(data, maxBuf, gate, routed).frames;
    assert frames[..i] == routed + fs[..i - |routed|];
  }

  /** A frame the gate refuses ends the stream, and is not routed. */
  lemma RefusedStops(f: Frame, tail: seq<byte>, maxBuf: int, gate: Gate, routed: seq<Frame>)
    requires Carriable(f) && |WireOf(f)| <= maxBuf && !gate(routed, f)
    ensures Decode(WireOf(f) + tail, maxBuf, gate, routed) == Failed(routed)
  {
    hide ParseFrame, Decode, Wire;
    var data := WireOf(f) + tail;
    ParseWire(f, tail);
    WireIsWhole(f);
    assert data[6..10] == WireOf(f)[6..10];
    assert data[0..] == data && routed + [] == routed;
    DecodeUnique(data, maxBuf, gate, routed, [], Failed(routed));
  }

  /** So does a whole frame that does not parse. */
  lemma MalformedStops(data: seq<byte>, maxBuf: int, gate: Gate, routed: seq<Frame>)
    requires |data| >= HEADER_SIZE && TotalLen(data) <= |data| && TotalLen(data) <= maxBuf && ParseFrame(data).Err?
    ensures Decode(data, maxBuf, gate, routed) == Failed(routed)
  {
    hide Decode;
    assert data[0..] == data && routed + [] == routed;
    DecodeUnique(data, maxBuf, gate, routed, [], Failed(routed));
  }

  // ---- The loop ----------------------------------------------------------------------------------------------------

  /** dispatchFrames: routes the complete frames of buf[:off] and slides the remainder to the front. */
  method DispatchFrames(buf: array<byte>, off: nat, maxBuf: int, gate: Gate, before: seq<Frame>)
    returns (newOff: nat, routed: seq<Frame>, failed: bool)
    requires off <= buf.Length
    modifies buf
    ensures routed == Decode(old(buf[..off]), maxBuf, gate, before).frames
    ensures failed <==> Decode(old(buf[..off]), maxBuf, gate, before).Failed?
    ensures newOff <= off
    ensures !failed ==> buf[..newOff] == Decode(old(buf[..off]), maxBuf, gate, before).rest
  {
    hide LE, FromLE, ParseFrame;
    var data := buf[..off];
    ghost var whole := Decode(data, maxBuf, gate, before);
    var consumed: nat := 0;
    routed := before;
    assert data[0..] == data;
    while consumed < off
      invariant consumed <= off
      invariant Decode(data[consumed..], maxBuf, gate, routed) == whole
    {
      var p := Prepare(data[consumed..], maxBuf, gate, routed);
      if p.Rejected? {
        return 0, routed, true;
      }
      if p.Partial? {
        break;
      }
      assert data[consumed..][p.totalLen..] == data[consumed + p.totalLen..];
      routed := routed + [p.frame];
      consumed := consumed + p.totalLen;
    }
    assert whole == Pending(routed, data[consumed..]);
    newOff, failed := off - consumed, false;
    SlideDown(buf, consumed, off);
    assert data[consumed..] == old(buf[consumed..off]);
  }

  /** growBuffer: a fresh buffer of twice the capacity, at most maxBuf, holding the same bytes. */
  method GrowBuffer(buf: array<byte>, maxBuf: int) returns (bigger: array<byte>)
    requires buf.Length < maxBuf
    ensures fresh(bigger)
    ensures bigger.Length == Min(2 * buf.Length, maxBuf)
    ensures bigger.Length >= buf.Length && bigger[..buf.Length] == buf[..]
  {
    bigger := new byte[Min(2 * buf.Length, maxBuf)];
    CopyInto(bigger, 0, buf[..]);
  }

  datatype End = ReadEnded | DispatchFailed | BufferExceeded

  /** drainAndMaybeGrow on a full buffer. */
  method DrainAndMaybeGrow(buf: array<byte>, off: nat, maxBuf: int, gate: Gate, before: seq<Frame>)
    returns (buf': array<byte>, newOff: nat, routed: seq<Frame>, end: Option<End>)
    requires 1 <= buf.Length == off
    modifies buf
    ensures buf' == buf || fresh(buf')
    ensures buf.Length <= buf'.Length <= Max(buf.Length, maxBuf)
    ensures newOff <= buf'.Length
    ensures var d := Decode(old(buf[..off]), maxBuf, gate, before);
      && routed == d.frames
      && (end == Some(DispatchFailed) <==> d.Failed?)
      && (end == None ==> newOff < buf'.Length && buf'[..newOff] == d.rest)
    ensures end == None || end == Some(DispatchFailed) || end == Some(BufferExceeded)
    ensures end == Some(BufferExceeded) <==> maxBuf == off < HEADER_SIZE
  {
    var failed;
    ghost var d := Decode(buf[..off], maxBuf, gate, before);
    PendingIsShort(buf[..off], maxBuf, gate, before);
    newOff, routed, failed := DispatchFrames(buf, off, maxBuf, gate, before);
    buf' := buf;
    if failed {
      return buf', newOff, routed, Some(DispatchFailed);
    }
    if newOff != buf.Length {
      return buf', newOff, routed, None;
    }
    if buf.Length >= maxBuf {
      assert |d.rest| == off;
      return buf', newOff, routed, Some(BufferExceeded);
    }
    assert buf[..] == buf[..newOff] == d.rest;
    buf' := GrowBuffer(buf, maxBuf);
    end := None;
  }

  /** What is left over is a strict piece of a frame the limit admits, or shorter than a header. */
  lemma {:induction false} PendingIsShort(data: seq<byte>, maxBuf: int, gate: Gate, routed: seq<Frame>)
    ensures var d := Decode(data, maxBuf, gate, routed);
      d.Pending? && maxBuf < HEADER_SIZE ==> d.rest == data
    ensures var d := Decode(data, maxBuf, gate, routed);
      d.Pending? ==> d.rest == [] || |d.rest| < maxBuf || (|d.rest| < HEADER_SIZE && |d.rest| == maxBuf)
    decreases |data|
  {
    if data != [] {
      var p := Prepare(data, maxBuf, gate, routed);
      if p.Ready? {
        PendingIsShort(data[p.totalLen..], maxBuf, gate, routed + [p.frame]);
      }
    }
  }

  /** Reads that each return at least one byte while there is room and data. */
  ghost predicate Steady(asks: seq<nat>)
  {
    forall i :: 0 <= i < |asks| ==> asks[i] >= 1
  }

  /** A limit no header fits in, with an initial buffer that does not exceed it. */
  predicate TooTight(cap: nat, maxBuf: int)
  {
    cap <= maxBuf < HEADER_SIZE
  }

  /** The buffer between two reads: it holds what the one-shot decoder of the bytes seen would keep. */
  ghost predicate InStep(seen: seq<byte>, held: seq<byte>, maxBuf: int, gate: Gate, routed: seq<Frame>)
  {
    && Decode(seen, maxBuf, gate, []) == Pending(routed, held)
    && Decode(held, maxBuf, gate, routed) == Pending(routed, held)
  }

  lemma InStepNone(maxBuf: int, gate: Gate)
    ensures InStep([], [], maxBuf, gate, [])
  {
  }

  lemma InStepMeans(seen: seq<byte>, held: seq<byte>, maxBuf: int, gate: Gate, routed: seq<Frame>)
    requires InStep(seen, held, maxBuf, gate, routed)
    ensures Decode(seen, maxBuf, gate, []) == Pending(routed, held)
  {
  }

  lemma TightHoldsAll(seen: seq<byte>, held: seq<byte>, maxBuf: int, gate: Gate, routed: seq<Frame>)
    requires InStep(seen, held, maxBuf, gate, routed)
    ensures maxBuf < HEADER_SIZE ==> held == seen
  {
    PendingIsShort(seen, maxBuf, gate, []);
  }

  lemma TightNeverFails(data: seq<byte>, maxBuf: int, gate: Gate, routed: seq<Frame>)
    ensures |data| <= maxBuf < HEADER_SIZE ==> Decode(data, maxBuf, gate, routed).Pending?
  {
  }

  /** One Read that returned `chunk`, and the dispatch that follows it. */
  method ReadAndDispatch(buf: array<byte>, off: nat, chunk: seq<byte>, maxBuf: int, gate: Gate, before: seq<Frame>,
                         ghost seen: seq<byte>)
    returns (newOff: nat, routed: seq<Frame>, failed: bool)
    requires off + |chunk| <= buf.Length
    requires InStep(seen, buf[..off], maxBuf, gate, before)
    modifies buf
    ensures newOff <= buf.Length
    ensures failed ==> Decode(seen + chunk, maxBuf, gate, []) == Failed(routed)
    ensures !failed ==> InStep(seen + chunk, buf[..newOff], maxBuf, gate, routed)
  {
    ghost var held := buf[..off];
    CopyInto(buf, off, chunk);
    DecodeSplit(seen, chunk, maxBuf, gate, []);
    if |chunk| > 0 {
      DecodeIdle(held + chunk, maxBuf, gate, before);
      newOff, routed, failed := DispatchFrames(buf, off + |chunk|, maxBuf, gate, before);
    } else {
      assert held + chunk == held;
      newOff, routed, failed := off, before, false;
    }
  }

  lemma TakeMore(data: seq<byte>, taken: nat, n: nat)
    requires taken + n <= |data|
    ensures data[..taken] + data[taken..][..n] == data[..taken + n]
  {
  }

  /** One turn of the loop: drain and grow when the buffer is full, then read at most `ask` bytes. */
  method ReadTurn(buf: array<byte>, off: nat, ask: nat, unread: seq<byte>, maxBuf: int, gate: Gate, before: seq<Frame>,
                  ghost seen: seq<byte>)
    returns (buf': array<byte>, newOff: nat, routed: seq<Frame>, n: nat, end: Option<End>)
    requires 1 <= buf.Length && off <= buf.Length
    requires InStep(seen, buf[..off], maxBuf, gate, before)
    modifies buf
    ensures buf' == buf || fresh(buf')
    ensures buf.Length <= buf'.Length <= Max(buf.Length, maxBuf)
    ensures newOff <= buf'.Length
    ensures n <= Min(ask, |unread|) && off + n <= buf'.Length
    ensures end == None ==> InStep(seen + unread[..n], buf'[..newOff], maxBuf, gate, routed)
    ensures end == None && ask >= 1 && unread != [] ==> n >= 1
    ensures end.Some? ==> Decode(seen + unread[..n], maxBuf, gate, []).frames == routed
    ensures end.Some? ==> end.value == if Decode(seen + unread[..n], maxBuf, gate, []).Failed?
                                       then DispatchFailed else BufferExceeded
    ensures end == Some(BufferExceeded) <==> off == buf.Length == maxBuf < HEADER_SIZE
  {
    hide Decode, LE, FromLE;
    buf', newOff, routed, n := buf, off, before, 0;
    if off == buf.Length {
      buf', newOff, routed, end := DrainAndMaybeGrow(buf, off, maxBuf, gate, before);
      if end.Some? {
        assert seen + unread[..0] == seen;
        return;
      }
    }
    n := Min(ask, Min(buf'.Length - newOff, |unread|));
    var failed;
    newOff, routed, failed := ReadAndDispatch(buf', newOff, unread[..n], maxBuf, gate, routed, seen);
    end := if failed then Some(DispatchFailed) else None;
  }

  lemma LoopExplained(data: seq<byte>, taken: nat, maxBuf: int, gate: Gate)
    requires taken <= |data|
    ensures var d := Decode(data[..taken], maxBuf, gate, []);
      && Admitted(d.frames, maxBuf, gate, []) && Wires(d.frames) <= data[..taken]
      && var rest := data[|Wires(d.frames)|..taken];
         if d.Failed? then Refused(rest, maxBuf, gate, d.frames) else Waits(rest, maxBuf)
  {
    hide Decode, Admitted, Wires, Waits, Refused;
    var fs := DecodeExplained(data[..taken], maxBuf, gate, []);
    assert [] + fs == fs;
    assert data[..taken][|Wires(fs)|..] == data[|Wires(fs)|..taken];
  }

  /** runStreamReadLoop over a stream that would deliver `data`, the i-th Read returning at most asks[i]
      bytes; the loop ends with the read error that follows the last of them.

      Whatever the chunking: the frames routed are those of the one-shot decoder on the bytes read, each of them
      admitted by the gate and nothing between them; the loop stops on a dispatch error exactly when that decoder
      fails, on bytes that are refused; and the buffer stays within its bound. The
      "unread buffer size exceeded" teardown needs a limit below the header size that the initial buffer does
      not exceed, and then it is certain once enough bytes arrive. */
  method RunStreamReadLoop(data: seq<byte>, asks: seq<nat>, initial: array<byte>, maxBuf: int, gate: Gate)
    returns (routed: seq<Frame>, end: End, taken: nat, peak: nat)
    requires initial.Length >= 1
    modifies initial
    ensures taken <= |data|
    ensures routed == Decode(data[..taken], maxBuf, gate, []).frames
    ensures end == DispatchFailed <==> Decode(data[..taken], maxBuf, gate, []).Failed?
    ensures Admitted(routed, maxBuf, gate, []) && Wires(routed) <= data[..taken]
    ensures var rest := data[|Wires(routed)|..taken];
      if end == DispatchFailed then Refused(rest, maxBuf, gate, routed) else Waits(rest, maxBuf)
    ensures end == BufferExceeded ==> TooTight(initial.Length, maxBuf)
    ensures TooTight(initial.Length, maxBuf) && Steady(asks) && |asks| > maxBuf && |data| >= maxBuf
      ==> end == BufferExceeded
    ensures peak <= Max(initial.Length, maxBuf)
    ensures end == ReadEnded && Steady(asks) ==> taken >= Min(|asks|, |data|)
  {
    hide Decode, InStep, LE, FromLE, ParseFrame, Admitted, Wires, Waits, Refused;
    var buf := initial;
    var off: nat := 0;
    routed, taken, peak := [], 0, buf.Length;
    assert data[..0] == [] && buf[..0] == [];
    InStepNone(maxBuf, gate);
    for i := 0 to |asks|
      invariant buf == initial || fresh(buf)
      invariant initial.Length <= buf.Length == peak <= Max(initial.Length, maxBuf)
      invariant off <= buf.Length
      invariant taken <= |data|
      invariant InStep(data[..taken], buf[..off], maxBuf, gate, routed)
      invariant Steady(asks) ==> taken >= Min(i, |data|)
      invariant TooTight(initial.Length, maxBuf) && Steady(asks) && |data| >= maxBuf ==> i <= maxBuf
    {
      TightHoldsAll(data[..taken], buf[..off], maxBuf, gate, routed);
      assert maxBuf < HEADER_SIZE ==> off == taken;
      var n, stop;
      buf, off, routed, n, stop := ReadTurn(buf, off, asks[i], data[taken..], maxBuf, gate, routed, data[..taken]);
      TakeMore(data, taken, n);
      taken, peak := taken + n, buf.Length;
      if stop.Some? {
        if stop.value == DispatchFailed {
          TightNeverFails(data[..taken], maxBuf, gate, []);
        }
        LoopExplained(data, taken, maxBuf, gate);
        return routed, stop.value, taken, peak;
      }
    }
    end := ReadEnded;
    InStepMeans(data[..taken], buf[..off], maxBuf, gate, routed);
    LoopExplained(data, taken, maxBuf, gate);
  }

  /** Decoding the leftovers again, with nothing new, routes nothing. */
  lemma {:induction false} DecodeIdle(data: seq<byte>, maxBuf: int, gate: Gate, routed: seq<Frame>)
    ensures var d := Decode(data, maxBuf, gate, routed);
      d.Pending? ==> Decode(d.rest, maxBuf, gate, d.frames) == d
    decreases |data|
  {
    if data != [] {
      var p := Prepare(data, maxBuf, gate, routed);
      if p.Ready? {
        DecodeIdle(data[p.totalLen..], maxBuf, gate, routed + [p.frame]);
      }
    }
  }

  /** Frames already routed are never taken back: a longer read only adds frames. */
  lemma {:induction false} DecodeGrows(data: seq<byte>, maxBuf: int, gate: Gate, routed: seq<Frame>)
    ensures routed <= Decode(data, maxBuf, gate, routed).frames
    decreases |data|
  {
    if data != [] {
      var p := Prepare(data, maxBuf, gate, routed);
      if p.Ready? {
        DecodeGrows(data[p.totalLen..], maxBuf, gate, routed + [p.frame]);
        assert routed <= routed + [p.frame];
      }
    }
  }

  /** What any run has routed is a prefix of what the whole stream decodes to, and all of it once a dispatch
      error has been met. */
  lemma ReadPrefix(data: seq<byte>, taken: nat, maxBuf: int, gate: Gate)
    requires taken <= |data|
    ensures Decode(data[..taken], maxBuf, gate, []).frames <= Decode(data, maxBuf, gate, []).frames
    ensures Decode(data[..taken], maxBuf, gate, []).Failed? ==>
      Decode(data, maxBuf, gate, []) == Decode(data[..taken], maxBuf, gate, [])
  {
    assert data == data[..taken] + data[taken..];
    DecodeSplit(data[..taken], data[taken..], maxBuf, gate, []);
    var d := Decode(data[..taken], maxBuf, gate, []);
    if d.Pending? {
      DecodeGrows(d.rest + data[taken..], maxBuf, gate, d.frames);
    }
  }
}
