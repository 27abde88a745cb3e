/** The log as a file that is written and rotated. */
module LogFile {
  import opened Bytes
  import opened AppendLog
  import opened LogReplay

  const WRITE_BUFFER: nat := 16 + 65536

  // ---- Writing -------------------------------------------------------------------------------------------------

  /** The frames WriteFrame's buffer has room for. */
  predicate Writable(c: Cipher, frame: seq<byte>)
  {
    if c.Plain? then 4 + |frame| <= WRITE_BUFFER else 16 + |frame| + 16 <= WRITE_BUFFER
  }

  /** Twelve bytes: the session's random prefix and a counter, most significant byte first. */
  function Nonce(prefix: seq<byte>, counter: nat): seq<byte>
  {
    prefix + Reverse(LE(counter, 8))
  }

  function Reverse(s: seq<byte>): (r: seq<byte>)
    ensures |r| == |s|
  {
    if s == [] then [] else Reverse(s[1..]) + [s[0]]
  }

  /** The bodies a run of writes appends, counting the nonce up from n. */
  function Bodies(c: Cipher, prefix: seq<byte>, n: nat, frames: seq<seq<byte>>): seq<seq<byte>>
  {
    if frames == [] then []
    else Bodies(c, prefix, n, frames[..|frames| - 1]) + [Body(c, Nonce(prefix, n + |frames|), frames[|frames| - 1])]
  }

  /** The bytes of a record: four of length, then the frame, or the nonce and the ciphertext. */
  function Layout(c: Cipher, nonce: seq<byte>, frame: seq<byte>): seq<byte>
  {
    match c
    case Plain => LE(|frame|, 4) + frame
    case Sealed(seal, _) => LE(|nonce| + |seal(nonce, frame)|, 4) + nonce + seal(nonce, frame)
  }

  lemma LayoutIs(c: Cipher, nonce: seq<byte>, frame: seq<byte>)
    ensures Record(Body(c, nonce, frame)) == Layout(c, nonce, frame)
  {
    hide LE;
  }

  /** A nonce is the prefix and the counter, most significant byte first. */
  lemma NonceIs(prefix: seq<byte>, counter: nat, i: nat)
    requires |prefix| == 4 && i < 8
    ensures Nonce(prefix, counter)[..4] == prefix && |Nonce(prefix, counter)| == 12
    ensures Nonce(prefix, counter)[11 - i] == LE(counter, 8)[i]
  {
    hide LE;
    ReversedAt(LE(counter, 8), i);
  }

  lemma {:induction false} ReversedAt(s: seq<byte>, i: nat)
    requires i < |s|
    ensures Reverse(s)[|s| - 1 - i] == s[i]
  {
    if i > 0 {
      ReversedAt(s[1..], i - 1);
    }
  }

  class Log {
    const cipher: Cipher
    const prefix: seq<byte>
    var nonce: nat
    var file: seq<byte>

    constructor (c: Cipher, p: seq<byte>, existing: seq<byte>)
      ensures cipher == c && prefix == p && nonce == 0 && file == existing
    {
      cipher, prefix, nonce, file := c, p, 0, existing;
    }

    /** WriteFrame: the record is laid out in a pooled buffer and written in one go. A frame that is too long for the
        buffer makes a slice expression panic: `fits` is false and nothing is written. */
    method WriteFrame(frame: seq<byte>) returns (fits: bool)
      requires Sound(cipher) && |prefix| == 4
      modifies this
      ensures fits <==> Writable(cipher, frame)
      ensures nonce == if cipher.Plain? then old(nonce) else old(nonce) + 1
      ensures file == if fits then old(file) + Record(Body(cipher, Nonce(prefix, old(nonce) + 1), frame)) else old(file)
      ensures fits ==> file == old(file) + Layout(cipher, Nonce(prefix, old(nonce) + 1), frame)
    {
      hide LE, Nonce;
      LayoutIs(cipher, Nonce(prefix, nonce + 1), frame);
      var buf := new byte[WRITE_BUFFER];
      if cipher.Sealed? {
        nonce := nonce + 1;
        var fresh_ := Nonce(prefix, nonce);
        NonceLength(prefix, nonce);
        CopyInto(buf, 4, fresh_);
        var out := cipher.seal(fresh_, frame);
        var cipherLen := 12 + |out|;
        PutLE(buf, 0, cipherLen, 4);
        if 4 + cipherLen > buf.Length {
          return false;
        }
        CopyInto(buf, 4, fresh_);
        CopyInto(buf, 16, out);
        file := file + buf[..4 + cipherLen];
        assert [] + LE(cipherLen, 4) + fresh_ + out == LE(cipherLen, 4) + (fresh_ + out);
      } else {
        PutLE(buf, 0, |frame|, 4);
        if 4 + |frame| > buf.Length {
          return false;
        }
        CopyInto(buf, 4, frame);
        file := file + buf[..4 + |frame|];
        assert [] + LE(|frame|, 4) + frame == LE(|frame|, 4) + frame;
      }
      fits := true;
    }

    /** The rewriting half of Rotate: every replayed frame is written, in order. */
    method WriteAll(frames: seq<seq<byte>>)
      requires Sound(cipher) && |prefix| == 4 && nonce == 0 && AllWritable(cipher, frames)
      modifies this
      ensures file == old(file) + Records(Bodies(cipher, prefix, 0, frames))
    {
      hide Records, Record, Sound, Nonce, Body;
      RecordsUnfold([]);
      assert frames[..0] == [] && file + [] == file;
      for i := 0 to |frames|
        invariant cipher.Sealed? ==> nonce == i
        invariant file == old(file) + Records(Bodies(cipher, prefix, 0, frames[..i]))
      {
        assert frames[..i + 1][..i] == frames[..i];
        RecordsSnoc(Bodies(cipher, prefix, 0, frames[..i]), Body(cipher, Nonce(prefix, i + 1), frames[i]));
        PlainNonce(cipher, prefix, nonce + 1, i + 1, frames[i]);
        var fits := WriteFrame(frames[i]);
      }
      assert frames[..|frames|] == frames;
    }

    /** Rotate: a file at or over maxSize is replayed into the temporary file, which then takes its place. `stale`
        is what the temporary file holds already: it is opened for appending and never truncated. A replay that stalls
        keeps the rotation from ever returning: `done` is false and the file stays. */
    method Rotate(maxSize: nat, stale: seq<byte>, tmpPrefix: seq<byte>, ask: nat -> nat) returns (done: bool)
      requires Sound(cipher) && |tmpPrefix| == 4
      modifies this`file
      ensures maxSize == 0 || |old(file)| < maxSize ==> done && file == old(file)
      ensures maxSize > 0 && |old(file)| >= maxSize ==>
        match Replayed(cipher, old(file), ask)
        case Stalled(_) => !done && file == old(file)
        case Ended(frames) => done && file == stale + Records(Bodies(cipher, tmpPrefix, 0, frames))
    {
      hide Records, Sound, AllWritable, Bodies, Replayed;
      if maxSize == 0 || |file| < maxSize {
        return true;
      }
      var out := Replay(cipher, file, ask);
      if out.Stalled? {
        return false;
      }
      ReplayedFits(cipher, file, ask);
      FitsWritable(cipher, out.frames);
      var tmp := new Log(cipher, tmpPrefix, stale);
      tmp.WriteAll(out.frames);
      file := tmp.file;
      done := true;
    }
  }

  lemma {:induction false} ReverseInjective(a: seq<byte>, b: seq<byte>)
    requires |a| == |b| && Reverse(a) == Reverse(b)
    ensures a == b
  {
    if a != [] {
      var p, q := Reverse(a[1..]), Reverse(b[1..]);
      assert (p + [a[0]])[..|p|] == p && (q + [b[0]])[..|q|] == q;
      assert (p + [a[0]])[|p|] == a[0] && (q + [b[0]])[|q|] == b[0];
      ReverseInjective(a[1..], b[1..]);
      assert a == [a[0]] + a[1..] && b == [b[0]] + b[1..];
    }
  }

  /** No two records of a session are sealed with the same nonce. */
  lemma NoncesDistinct(prefix: seq<byte>, m: nat, n: nat)
    requires m < U64 && n < U64
    ensures Nonce(prefix, m) == Nonce(prefix, n) <==> m == n
  {
    hide LE, FromLE, Reverse;
    var a, b := LE(m, 8), LE(n, 8);
    if Nonce(prefix, m) == Nonce(prefix, n) {
      assert Nonce(prefix, m)[|prefix|..] == Reverse(a) && Nonce(prefix, n)[|prefix|..] == Reverse(b);
      ReverseInjective(a, b);
      U64RoundTrip(m);
      U64RoundTrip(n);
    }
  }

  lemma NonceLength(prefix: seq<byte>, counter: nat)
    requires |prefix| == 4
    ensures |Nonce(prefix, counter)| == 12
  {
  }

  /** Without a cipher the nonce is of no consequence. */
  lemma PlainNonce(c: Cipher, prefix: seq<byte>, m: nat, n: nat, frame: seq<byte>)
    requires c.Plain? || m == n
    ensures Body(c, Nonce(prefix, m), frame) == Body(c, Nonce(prefix, n), frame)
  {
  }

  /** Written frames come back: the bodies of any frames replay to those frames. */
  lemma {:induction false} WrittenReplays(c: Cipher, prefix: seq<byte>, n: nat, frames: seq<seq<byte>>)
    requires Sound(c) && |prefix| == 4
    ensures Decoded(c, Bodies(c, prefix, n, frames)) == frames
    ensures |Bodies(c, prefix, n, frames)| == |frames|
    ensures forall i :: 0 <= i < |frames| ==>
      |Bodies(c, prefix, n, frames)[i]| == if c.Plain? then |frames[i]| else |frames[i]| + 28
  {
    hide Body, Nonce, Decrypt, Sound;
    if frames != [] {
      var init, f := frames[..|frames| - 1], frames[|frames| - 1];
      WrittenReplays(c, prefix, n, init);
      var done, b := Bodies(c, prefix, n, init), Body(c, Nonce(prefix, n + |frames|), f);
      NonceLength(prefix, n + |frames|);
      DecryptBody(c, Nonce(prefix, n + |frames|), f);
      DecodedConcat(c, done, [b]);
      assert Decoded(c, [b]) == [f] + Decoded(c, []);
      assert init + [f] == frames;
    }
  }

  // ---- What a replay hands over ------------------------------------------------------------------------------------

  ghost predicate AllWritable(c: Cipher, frames: seq<seq<byte>>)
  {
    forall i :: 0 <= i < |frames| ==> Writable(c, frames[i])
  }

  /** The size a frame takes on disk, without the length. */
  function BodySize(c: Cipher, m: nat): nat { if c.Plain? then m else m + 28 }

  ghost predicate AllLoggable(c: Cipher, frames: seq<seq<byte>>)
  {
    forall i :: 0 <= i < |frames| ==> 0 < BodySize(c, |frames[i]|) && 4 + BodySize(c, |frames[i]|) <= REPLAY_BUFFER
  }

  lemma FitsWritable(c: Cipher, frames: seq<seq<byte>>)
    requires AllLoggable(c, frames)
    ensures AllWritable(c, frames)
  {
  }

  lemma DecryptSize(c: Cipher, body: seq<byte>)
    requires Sound(c)
    ensures Decrypt(c, body).Some? ==> |body| == BodySize(c, |Decrypt(c, body).value|)
  {
  }

  lemma {:induction false} ChunkFits(c: Cipher, buf: seq<byte>, at: nat)
    requires Sound(c) && at <= |buf| <= REPLAY_BUFFER
    ensures AllLoggable(c, Chunk(c, buf, at).1)
    decreases |buf| - at
  {
    hide Chunk, Sound, Decrypt, FromLE, Resync;
    ChunkEnds(c, buf, at);
    if |buf| - at >= 4 {
      var recLen := RecLen(buf, at);
      if Implausible(recLen) {
        ChunkSkips(c, buf, at);
        ChunkFits(c, buf, Resync(buf, at));
      } else if |buf| - at >= 4 + recLen {
        ChunkTakes(c, buf, at);
        DecryptSize(c, buf[at + 4..at + 4 + recLen]);
        ChunkFits(c, buf, at + 4 + recLen);
      }
    }
  }

  lemma {:induction false} ReplayFits(c: Cipher, file: seq<byte>, ask: nat -> nat, turn: nat, pos: nat, held: seq<byte>,
                                      frames: seq<seq<byte>>)
    requires Sound(c) && pos <= |file| && |held| <= REPLAY_BUFFER && AllLoggable(c, frames)
    ensures AllLoggable(c, ReplayFrom(c, file, ask, turn, pos, held, frames).frames)
    decreases |file| - pos
  {
    hide Chunk, Sound, ReplayFrom;
    if |held| == REPLAY_BUFFER {
      FullTurn(c, file, ask, turn, pos, held, frames);
    } else {
      var n := ReadSize(ask(turn), REPLAY_BUFFER - |held|, |file| - pos);
      var buf := held + file[pos..pos + n];
      var r := Chunk(c, buf, 0);
      Turn(c, file, ask, turn, pos, held, frames, n, buf, r.0, r.1);
      ChunkFits(c, buf, 0);
      if pos < |file| {
        ReplayFits(c, file, ask, turn + 1, pos + n, buf[r.0..], frames + r.1);
      }
    }
  }

  /** Whatever a file holds, the frames it replays to can be written again and replayed again. */
  lemma ReplayedFits(c: Cipher, file: seq<byte>, ask: nat -> nat)
    requires Sound(c)
    ensures AllLoggable(c, Replayed(c, file, ask).frames)
  {
    ReplayFits(c, file, ask, 0, 0, [], []);
  }
}
