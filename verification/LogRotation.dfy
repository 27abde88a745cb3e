/** What rotating a log preserves, given what an earlier attempt left in the temporary file. */
module LogRotation {
  import opened Bytes
  import opened Lists
  import Frames
  import opened AppendLog
  import opened LogReplay
  import opened LogFile

  // ---- What is written replays ---------------------------------------------------------------------------------

  lemma BodiesFit(c: Cipher, prefix: seq<byte>, frames: seq<seq<byte>>)
    requires Sound(c) && |prefix| == 4 && AllLoggable(c, frames)
    ensures AllFit(Bodies(c, prefix, 0, frames)) && Decoded(c, Bodies(c, prefix, 0, frames)) == frames
  {
    hide Sound, Bodies, Decoded;
    WrittenReplays(c, prefix, 0, frames);
  }

  lemma NoTail()
    ensures Torn([], [0])
  {
  }

  /** A log made of any frames that fit the replay buffer replays to those frames, for every chunking. */
  lemma WrittenLogReplays(c: Cipher, prefix: seq<byte>, frames: seq<seq<byte>>, ask: nat -> nat)
    requires Sound(c) && |prefix| == 4 && AllLoggable(c, frames)
    ensures Replayed(c, Records(Bodies(c, prefix, 0, frames)), ask) == Ended(frames)
  {
    hide Sound, Bodies, Decoded, Records, Replayed, AllLoggable, Torn;
    BodiesFit(c, prefix, frames);
    var bs := Bodies(c, prefix, 0, frames);
    NoTail();
    WholeLogReplays(c, bs, [], [0], ask);
    assert Records(bs) + [] == Records(bs);
  }

  /** The longest frames the writer takes stop the replay: it hands over nothing and never ends. */
  lemma WritableFrameStalls(frame: seq<byte>, ask: nat -> nat)
    requires |frame| == 65533
    ensures Writable(Plain, frame)
    ensures Replayed(Plain, Record(frame), ask) == Stalled([])
  {
    hide Replayed, Record, Records, Decoded, Torn;
    NoTail();
    ReplayEndsIff(Plain, [frame], [], [0], ask);
    OneRecord(frame);
    assert Record(frame) + [] == Record(frame);
    assert !Fits([frame][0]);
    assert [frame][..0] == [];
    DecodedNone(Plain);
  }

  lemma OneRecord(body: seq<byte>)
    ensures Records([body]) == Record(body)
  {
    assert Record(body) + Records([]) == Record(body);
  }

  // ---- Rotation onto whole records -------------------------------------------------------------------------------

  /** When the temporary file held whole records, the rotated log replays to those and then to everything the old log
      did; so it replays to what the old one did exactly when the leftover replays to nothing. */
  lemma RotatePreservesReplay(c: Cipher, file: seq<byte>, ask: nat -> nat, prefix: seq<byte>, left: seq<seq<byte>>, again: nat -> nat)
    requires Sound(c) && |prefix| == 4 && AllFit(left) && Replayed(c, file, ask).Ended?
    ensures var frames := Replayed(c, file, ask).frames;
      var rotated := Replayed(c, Records(left) + Records(Bodies(c, prefix, 0, frames)), again);
      && rotated == Ended(Decoded(c, left) + frames)
      && (rotated == Ended(frames) <==> Decoded(c, left) == [])
  {
    hide Sound, Bodies, Decoded, Records, Replayed, AllLoggable, Torn;
    var frames := Replayed(c, file, ask).frames;
    ReplayedFits(c, file, ask);
    OntoRecords(c, prefix, left, frames, again);
    assert |Decoded(c, left) + frames| == |Decoded(c, left)| + |frames|;
    assert [] + frames == frames;
  }

  lemma OntoRecords(c: Cipher, prefix: seq<byte>, left: seq<seq<byte>>, frames: seq<seq<byte>>, ask: nat -> nat)
    requires Sound(c) && |prefix| == 4 && AllFit(left) && AllLoggable(c, frames)
    ensures Replayed(c, Records(left) + Records(Bodies(c, prefix, 0, frames)), ask) == Ended(Decoded(c, left) + frames)
  {
    hide Sound, Bodies, Decoded, Records, Replayed, AllLoggable, Torn;
    var bs := Bodies(c, prefix, 0, frames);
    BodiesFit(c, prefix, frames);
    var all := left + bs;
    RecordsSplit(all, |left|);
    assert all[..|left|] == left && all[|left|..] == bs;
    DecodedConcat(c, left, bs);
    NoTail();
    WholeLogReplays(c, all, [], [0], ask);
    assert Records(all) + [] == Records(all);
  }

  // ---- Rotation onto a torn record --------------------------------------------------------------------------------

  ghost predicate NoneOf(frames: seq<seq<byte>>, m: nat) { forall i :: 0 <= i < |frames| ==> |frames[i]| != m }

  lemma NoneOfConcat(a: seq<seq<byte>>, b: seq<seq<byte>>, m: nat)
    requires NoneOf(a, m) && NoneOf(b, m)
    ensures NoneOf(a + b, m)
  {
  }

  /** Too few bytes for a record of that size give no frame of that size. */
  lemma {:induction false} ChunkShort(c: Cipher, buf: seq<byte>, at: nat, m: nat)
    requires Sound(c) && at <= |buf| && |buf| - at < 4 + BodySize(c, m)
    ensures NoneOf(Chunk(c, buf, at).1, m)
    decreases |buf| - at
  {
    hide Chunk, Sound, Decrypt, FromLE, Resync;
    ChunkEnds(c, buf, at);
    if |buf| - at >= 4 {
      var recLen := RecLen(buf, at);
      if Implausible(recLen) {
        ChunkSkips(c, buf, at);
        ChunkShort(c, buf, Resync(buf, at), m);
      } else if |buf| - at >= 4 + recLen {
        ChunkTakes(c, buf, at);
        DecryptSize(c, buf[at + 4..at + 4 + recLen]);
        ChunkShort(c, buf, at + 4 + recLen, m);
      }
    }
  }

  /** What the replay still hands over from some state on. */
  ghost predicate NoneLater(out: Outcome, frames: seq<seq<byte>>, m: nat)
  {
    frames <= out.frames && NoneOf(out.frames[|frames|..], m)
  }

  lemma NoneLaterMore(out: Outcome, frames: seq<seq<byte>>, more: seq<seq<byte>>, m: nat)
    requires NoneLater(out, frames + more, m) && NoneOf(more, m)
    ensures NoneLater(out, frames, m)
  {
    assert frames <= frames + more <= out.frames;
    assert out.frames[|frames|..] == more + out.frames[|frames + more|..];
  }

  lemma NoneLaterEnd(frames: seq<seq<byte>>, more: seq<seq<byte>>, m: nat)
    requires NoneOf(more, m)
    ensures NoneLater(Ended(frames + more), frames, m)
  {
    assert (frames + more)[|frames|..] == more;
  }

  lemma {:induction false} ReplayShort(c: Cipher, file: seq<byte>, ask: nat -> nat, turn: nat, pos: nat, held: seq<byte>,
                                       frames: seq<seq<byte>>, m: nat)
    requires Sound(c) && pos <= |file| && |held| <= REPLAY_BUFFER
    requires |held| + |file| - pos < 4 + BodySize(c, m)
    ensures NoneLater(ReplayFrom(c, file, ask, turn, pos, held, frames), frames, m)
    decreases |file| - pos
  {
    hide Chunk, Sound, ReplayFrom;
    if |held| == REPLAY_BUFFER {
      FullTurn(c, file, ask, turn, pos, held, frames);
    } else {
      var n := ReadSize(ask(turn), REPLAY_BUFFER - |held|, |file| - pos);
      var buf := held + file[pos..pos + n];
      var r := Chunk(c, buf, 0);
      Turn(c, file, ask, turn, pos, held, frames, n, buf, r.0, r.1);
      ChunkShort(c, buf, 0, m);
      if pos < |file| {
        ReplayShort(c, file, ask, turn + 1, pos + n, buf[r.0..], frames + r.1, m);
        NoneLaterMore(ReplayFrom(c, file, ask, turn, pos, held, frames), frames, r.1, m);
      }
    }
  }

  /** A record behind a torn one. Of a torn record with its length there, it must not have that length. Of a shorter
      piece, its length must not be a multiple of 256, and it must not start with the frame magic, by which a
      resynchronization would find it, unless reads are so slow that it is decided before the record is there. */
  predicate Exposed(body: seq<byte>, tail: seq<byte>, last: seq<byte>, slow: bool)
  {
    && Fits(body)
    && (if |tail| >= 4 then |body| != |last| else |body| % 256 != 0 && (slow || body[0] != Frames.MAGIC_BYTE))
  }

  /** Reads of one byte at a time. */
  ghost predicate Slow(ask: nat -> nat) { forall i: nat :: ask(i) == 1 }

  /** Decoding has not been put off at a length that is none. */
  predicate Settling(buf: seq<byte>, at: nat)
    requires at <= |buf|
  {
    |buf| - at <= 4 || !Implausible(RecLen(buf, at))
  }

  predicate Waiting(held: seq<byte>) { |held| < 4 || !Implausible(RecLen(held, 0)) }

  lemma FourBytes(s: seq<byte>)
    requires |s| == 4
    ensures var a: int, b: int, d: int, e: int := s[0], s[1], s[2], s[3];
      FromLE(s) == a + 256 * b + 65536 * d + 16777216 * e
  {
    assert s[1..][1..] == s[2..] && s[2..][1..] == s[3..] && s[3..][1..] == s[4..];
    assert FromLE(s[3..]) == s[3] && FromLE(s[2..]) == s[2] as int + 256 * FromLE(s[3..]);
    assert FromLE(s[1..]) == s[1] as int + 256 * FromLE(s[2..]);
  }

  lemma SmallLE(n: nat)
    requires n < 65536
    ensures LE(n, 4) == [n % 256, n / 256, 0, 0]
  {
    assert LE(n, 4) == [n % 256] + LE(n / 256, 3);
    assert LE(n / 256, 3) == [n / 256 % 256] + LE(n / 256 / 256, 2);
    assert LE(0, 2) == [0] + LE(0, 1) && LE(0, 1) == [0] + LE(0, 0);
  }

  /** Up to three bytes of a length before a record make another, larger length of it. */
  lemma ShiftedLength(t: seq<byte>, n: nat)
    requires 1 <= |t| <= 3 && 0 < n < 65536 && n % 256 != 0
    ensures FromLE((t + LE(n, 4))[..4]) > n
  {
    SmallLE(n);
    var s := (t + LE(n, 4))[..4];
    FourBytes(s);
    if |t| == 1 {
      assert s == [t[0], n % 256, n / 256, 0];
    } else if |t| == 2 {
      assert s == [t[0], t[1], n % 256, n / 256];
    } else {
      assert s == [t[0], t[1], t[2], n % 256];
    }
  }

  /** What follows the whole records of the leftover: a torn record, or any bytes too few for a length, and the first
      record rewritten. */
  ghost predicate Tear(c: Cipher, tail: seq<byte>, last: seq<byte>, body: seq<byte>, m: nat, slow: bool)
  {
    tail != [] && (|tail| >= 4 ==> Torn(tail, last)) && Exposed(body, tail, last, slow) && |body| == BodySize(c, m)
  }

  lemma ResyncShort(buf: seq<byte>, pos: nat)
    requires pos + 4 <= |buf|
    ensures |buf| - pos == 4 ==> Resync(buf, pos) == |buf|
  {
  }

  /** A record taken at `at` that is not of the size looked for and ends behind the tear. */
  lemma TakesAnother(c: Cipher, buf: seq<byte>, at: nat, m: nat)
    requires Sound(c) && at + 4 <= |buf| && !Implausible(RecLen(buf, at)) && RecLen(buf, at) != BodySize(c, m)
    requires at + 4 + RecLen(buf, at) <= |buf| && |buf| - at - 4 - RecLen(buf, at) < 4 + BodySize(c, m)
    ensures NoneOf(Chunk(c, buf, at).1, m) && Chunk(c, buf, at).0 >= at + 4 + RecLen(buf, at)
  {
    hide Chunk, Sound, Decrypt, FromLE;
    ChunkTakes(c, buf, at);
    DecryptSize(c, buf[at + 4..at + 4 + RecLen(buf, at)]);
    ChunkShort(c, buf, at + 4 + RecLen(buf, at), m);
  }

  /** The length read i bytes into the tear. */
  lemma TearLength(buf: seq<byte>, at: nat, tail: seq<byte>, body: seq<byte>, i: nat)
    requires at + i + 4 <= |buf| && buf[at..] <= tail + Record(body) && i < |tail| <= 3
    requires 0 < |body| < 65536 && |body| % 256 != 0
    ensures RecLen(buf, at + i) > |body|
  {
    hide LE, FromLE;
    var t := tail[i..];
    ShiftedLength(t, |body|);
    var x := tail + Record(body);
    assert Record(body)[..4] == LE(|body|, 4);
    assert buf[at + i..at + i + 4] == buf[at..][i..i + 4] == x[i..i + 4];
    assert x[i..i + 4] == (t + LE(|body|, 4))[..4];
  }

  lemma BehindTear(buf: seq<byte>, at: nat, tail: seq<byte>, body: seq<byte>)
    requires at <= |buf| && buf[at..] <= tail + Record(body) && body != []
    ensures at + |tail| + 4 < |buf| ==> buf[at + |tail| + 4] == body[0]
  {
    var x := tail + Record(body);
    if at + |tail| + 4 < |buf| {
      assert buf[at + |tail| + 4] == buf[at..][|tail| + 4] == x[|tail| + 4];
    }
  }

  /** A longer tear: the torn record takes the bytes it lacks from the one behind it. */
  lemma LongTear(c: Cipher, buf: seq<byte>, at: nat, tail: seq<byte>, last: seq<byte>, body: seq<byte>, m: nat, slow: bool)
    requires Sound(c) && Tear(c, tail, last, body, m, slow) && |tail| >= 4 && at <= |buf| && buf[at..] <= tail + Record(body)
    ensures var r := Chunk(c, buf, at); NoneOf(r.1, m) && (r == (at, []) || r.0 - at > |tail|)
  {
    hide Chunk, Sound, FromLE, LE;
    ChunkEnds(c, buf, at);
    if |buf| - at >= 4 {
      assert buf[at..at + 4] == buf[at..][..4] == tail[..4] == Record(last)[..4];
      RecordLength(buf, at, last);
      if |buf| - at >= 4 + |last| {
        TakesAnother(c, buf, at, m);
      }
    }
  }

  /** A short tear whose length is no length: resynchronizing does not stop at the record behind it. */
  lemma ShortTearSkips(c: Cipher, buf: seq<byte>, at: nat, tail: seq<byte>, body: seq<byte>, m: nat)
    requires Sound(c) && at + 4 <= |buf| && |tail| < 4 && buf[at..] <= tail + Record(body)
    requires Fits(body) && |body| % 256 != 0 && |body| == BodySize(c, m)
    requires Implausible(RecLen(buf, at)) && (body[0] != Frames.MAGIC_BYTE || |buf| - at == 4)
    ensures var r := Chunk(c, buf, at); NoneOf(r.1, m) && r.0 - at > |tail|
  {
    hide Chunk, Sound, FromLE, LE, Resync, Record;
    RecordSize(body);
    ChunkSkips(c, buf, at);
    ResyncIsFirst(buf, at);
    BehindTear(buf, at, tail, body);
    ResyncShort(buf, at);
    var next := Resync(buf, at);
    if next - at > |tail| {
      ChunkShort(c, buf, next, m);
    } else {
      TearLength(buf, at, tail, body, next - at);
      TakesAnother(c, buf, next, m);
    }
  }

  /** A short tear: the length read is another, or none. */
  lemma ShortTear(c: Cipher, buf: seq<byte>, at: nat, tail: seq<byte>, last: seq<byte>, body: seq<byte>, m: nat, slow: bool)
    requires Sound(c) && Tear(c, tail, last, body, m, slow) && |tail| < 4 && at <= |buf| && buf[at..] <= tail + Record(body)
    requires slow ==> Settling(buf, at)
    ensures var r := Chunk(c, buf, at); NoneOf(r.1, m) && (r == (at, []) || r.0 - at > |tail|)
  {
    hide Chunk, Sound, FromLE, LE, Record, NoneOf, Torn;
    RecordSize(body);
    ChunkEnds(c, buf, at);
    if |buf| - at >= 4 {
      var len := RecLen(buf, at);
      if Implausible(len) {
        ShortTearSkips(c, buf, at, tail, body, m);
      } else if |buf| - at >= 4 + len {
        TearLength(buf, at, tail, body, 0);
        TakesAnother(c, buf, at, m);
      } else {
        NoneAtAll(m);
      }
    } else {
      NoneAtAll(m);
    }
  }

  lemma NoneAtAll(m: nat)
    ensures NoneOf([], m)
  {
  }

  lemma TearChunk(c: Cipher, buf: seq<byte>, at: nat, tail: seq<byte>, last: seq<byte>, body: seq<byte>, m: nat, slow: bool)
    requires Sound(c) && Tear(c, tail, last, body, m, slow) && at <= |buf| && buf[at..] <= tail + Record(body)
    requires slow ==> Settling(buf, at)
    ensures var r := Chunk(c, buf, at); NoneOf(r.1, m) && (r == (at, []) || r.0 - at > |tail|)
  {
    hide Chunk, Sound, Tear, Record;
    if |tail| >= 4 {
      LongTear(c, buf, at, tail, last, body, m, slow);
    } else {
      ShortTear(c, buf, at, tail, last, body, m, slow);
    }
  }

  lemma TornFull(c: Cipher, held: seq<byte>, frames: seq<seq<byte>>, left: seq<seq<byte>>, m: nat)
    requires |held| == REPLAY_BUFFER && AllFit(left) && (left != [] ==> |held| < |Record(left[0])|)
    ensures NoneLater(Stalled(frames), frames + Decoded(c, left), m)
  {
    assert left == [];
    assert frames + [] == frames;
  }

  /** A record of the leftover that is not complete yet has bytes to come. */
  lemma MoreToCome(buf: seq<byte>, more: seq<byte>, left: seq<seq<byte>>, rest: seq<byte>, j: nat)
    requires j < |left| && |Records(left[..j])| <= |buf| && |buf| - |Records(left[..j])| < |Record(left[j])|
    requires buf + more == Records(left) + rest
    ensures more != [] && buf[|Records(left[..j])|..] + more == Records(left[j..]) + rest
  {
    hide Records, Record;
    RecordsSplit(left, j);
    RecordsUnfold(left[j..]);
    assert left[j..][0] == left[j];
    Associate(Records(left[..j]), Records(left[j..]), rest);
    DropFront(buf, more, Records(left[..j]), Records(left[j..]) + rest);
    assert |buf| < |Records(left)|;
  }

  lemma TornBehind(c: Cipher, file: seq<byte>, ask: nat -> nat, turn: nat, pos: nat, held: seq<byte>, frames: seq<seq<byte>>,
                   left: seq<seq<byte>>, tail: seq<byte>, last: seq<byte>, body: seq<byte>, m: nat, slow: bool, n: nat, buf: seq<byte>)
    requires Sound(c) && pos <= |file| && |held| < REPLAY_BUFFER && Tear(c, tail, last, body, m, slow)
    requires n == ReadSize(ask(turn), REPLAY_BUFFER - |held|, |file| - pos) && buf == held + file[pos..pos + n]
    requires buf + file[pos + n..] == Records(left) + (tail + Record(body))
    requires |Records(left)| <= |buf| && buf[|Records(left)|..] <= tail + Record(body)
    requires Chunk(c, buf, 0) == (Chunk(c, buf, |Records(left)|).0, Decoded(c, left) + Chunk(c, buf, |Records(left)|).1)
    requires slow ==> Settling(buf, |Records(left)|)
    ensures pos == |file| || Chunk(c, buf, |Records(left)|) != (|Records(left)|, []) ==>
      NoneLater(ReplayFrom(c, file, ask, turn, pos, held, frames), frames + Decoded(c, left), m)
  {
    hide Chunk, Sound, ReplayFrom, Records, Decoded, Tear, Record, NoneOf, NoneLater;
    var at := |Records(left)|;
    var q, r := Chunk(c, buf, at), Chunk(c, buf, 0);
    TearChunk(c, buf, at, tail, last, body, m, slow);
    Turn(c, file, ask, turn, pos, held, frames, n, buf, r.0, r.1);
    var out := ReplayFrom(c, file, ask, turn, pos, held, frames);
    Associate(frames, Decoded(c, left), q.1);
    if pos == |file| {
      NoneLaterEnd(frames + Decoded(c, left), q.1, m);
    } else if q.0 - at > |tail| {
      assert |buf| + |file[pos + n..]| == at + |tail| + |Record(body)|;
      RecordSize(body);
      assert |body| == BodySize(c, m) by { TearSize(c, tail, last, body, m, slow); }
      ReplayShort(c, file, ask, turn + 1, pos + n, buf[r.0..], frames + r.1, m);
      NoneLaterMore(out, frames + Decoded(c, left), q.1, m);
    }
  }

  lemma TearSize(c: Cipher, tail: seq<byte>, last: seq<byte>, body: seq<byte>, m: nat, slow: bool)
    requires Tear(c, tail, last, body, m, slow)
    ensures |body| == BodySize(c, m)
  {
  }

  /** The replay of whole records, a torn one and a record behind it: after the frames of the whole records no frame of
      the size of the one behind the tear ever comes. */
  lemma {:induction false} TornReplay(c: Cipher, file: seq<byte>, ask: nat -> nat, turn: nat, pos: nat, held: seq<byte>,
                                      frames: seq<seq<byte>>, left: seq<seq<byte>>, tail: seq<byte>, last: seq<byte>,
                                      body: seq<byte>, m: nat, slow: bool)
    requires Sound(c) && pos <= |file| && |held| <= REPLAY_BUFFER && AllFit(left) && Tear(c, tail, last, body, m, slow)
    requires held + file[pos..] == Records(left) + (tail + Record(body))
    requires left != [] ==> |held| < |Record(left[0])|
    requires slow ==> Slow(ask) && (left == [] ==> Waiting(held))
    ensures NoneLater(ReplayFrom(c, file, ask, turn, pos, held, frames), frames + Decoded(c, left), m)
    decreases |file| - pos, 1
  {
    hide Chunk, Sound, ReplayFrom, Records, Record, Decoded, Tear, NoneLater, AllFit, AllPlausible;
    if |held| == REPLAY_BUFFER {
      FullTurn(c, file, ask, turn, pos, held, frames);
      TornFull(c, held, frames, left, m);
    } else {
      var n := ReadSize(ask(turn), REPLAY_BUFFER - |held|, |file| - pos);
      var buf := held + file[pos..pos + n];
      Advance(held, file, pos, n, Records(left) + (tail + Record(body)));
      assert buf[0..] == buf;
      FitPlausible(left);
      var j := ChunkOfRecords(c, left, tail + Record(body), buf, 0);
      var r := Chunk(c, buf, 0);
      Turn(c, file, ask, turn, pos, held, frames, n, buf, r.0, r.1);
      if j < |left| {
        MoreToCome(buf, file[pos + n..], left, tail + Record(body), j);
        TornWithin(c, file, ask, turn + 1, pos + n, buf[r.0..], frames, left, tail, last, body, m, slow, j);
      } else {
        assert left[..j] == left;
        if slow {
          SlowSettles(held, file, pos, n, left);
        }
        TornPast(c, file, ask, turn, pos, held, frames, left, tail, last, body, m, slow, n, buf);
      }
    }
  }

  /** One byte more leaves the decision where it was. */
  lemma SlowSettles(held: seq<byte>, file: seq<byte>, pos: nat, n: nat, left: seq<seq<byte>>)
    requires pos + n <= |file| && n <= 1 && |Records(left)| <= |held| + n
    requires if left == [] then Waiting(held) else |held| < |Record(left[0])|
    ensures Settling(held + file[pos..pos + n], |Records(left)|)
  {
    hide FromLE, Record;
    RecordsUnfold(left);
    var buf := held + file[pos..pos + n];
    if left == [] && |held| >= 4 {
      assert buf[0..4] == held[0..4];
    }
  }

  /** A length that is none is not waited on. */
  lemma StillWaits(c: Cipher, buf: seq<byte>, at: nat)
    requires at <= |buf| && Chunk(c, buf, at).0 == at
    ensures Waiting(buf[at..])
  {
    hide FromLE, Chunk;
    if |buf| - at >= 4 {
      assert buf[at..][0..4] == buf[at..at + 4];
      ChunkSkips(c, buf, at);
    }
  }

  /** The whole records are decoded. */
  lemma {:induction false} TornPast(c: Cipher, file: seq<byte>, ask: nat -> nat, turn: nat, pos: nat, held: seq<byte>,
                                    frames: seq<seq<byte>>, left: seq<seq<byte>>, tail: seq<byte>, last: seq<byte>,
                                    body: seq<byte>, m: nat, slow: bool, n: nat, buf: seq<byte>)
    requires Sound(c) && pos <= |file| && |held| < REPLAY_BUFFER && Tear(c, tail, last, body, m, slow)
    requires n == ReadSize(ask(turn), REPLAY_BUFFER - |held|, |file| - pos) && buf == held + file[pos..pos + n]
    requires buf + file[pos + n..] == Records(left) + (tail + Record(body))
    requires |Records(left)| <= |buf| && buf[|Records(left)|..] <= tail + Record(body)
    requires Chunk(c, buf, 0) == (Chunk(c, buf, |Records(left)|).0, Decoded(c, left) + Chunk(c, buf, |Records(left)|).1)
    requires slow ==> Slow(ask) && Settling(buf, |Records(left)|)
    ensures NoneLater(ReplayFrom(c, file, ask, turn, pos, held, frames), frames + Decoded(c, left), m)
    decreases |file| - pos, 0
  {
    hide Chunk, Sound, ReplayFrom, Records, Record, Decoded, Tear, NoneLater;
    TornBehind(c, file, ask, turn, pos, held, frames, left, tail, last, body, m, slow, n, buf);
    var at := |Records(left)|;
    if pos < |file| && Chunk(c, buf, at) == (at, []) {
      assert Decoded(c, left) + [] == Decoded(c, left);
      Turn(c, file, ask, turn, pos, held, frames, n, buf, at, Decoded(c, left));
      DropFront(buf, file[pos + n..], Records(left), tail + Record(body));
      StillWaits(c, buf, at);
      TornAtTear(c, file, ask, turn + 1, pos + n, buf[at..], frames + Decoded(c, left), tail, last, body, m, slow);
    }
  }

  /** The next turn starts within the whole records. */
  lemma {:induction false} TornWithin(c: Cipher, file: seq<byte>, ask: nat -> nat, turn: nat, pos: nat, held: seq<byte>,
                                      frames: seq<seq<byte>>, left: seq<seq<byte>>, tail: seq<byte>, last: seq<byte>,
                                      body: seq<byte>, m: nat, slow: bool, j: nat)
    requires Sound(c) && pos <= |file| && |held| <= REPLAY_BUFFER && AllFit(left) && Tear(c, tail, last, body, m, slow)
    requires j < |left| && held + file[pos..] == Records(left[j..]) + (tail + Record(body))
    requires |held| < |Record(left[j])|
    requires slow ==> Slow(ask)
    ensures NoneLater(ReplayFrom(c, file, ask, turn, pos, held, frames + Decoded(c, left[..j])), frames + Decoded(c, left), m)
    decreases |file| - pos, 2
  {
    hide Sound, ReplayFrom, Records, Record, Decoded, Tear, NoneLater, AllFit;
    FitFrom(left, j);
    TornReplay(c, file, ask, turn, pos, held, frames + Decoded(c, left[..j]), left[j..], tail, last, body, m, slow);
    assert left == left[..j] + left[j..];
    DecodedConcat(c, left[..j], left[j..]);
    Associate(frames, Decoded(c, left[..j]), Decoded(c, left[j..]));
  }

  /** The next turn starts at the tear. */
  lemma {:induction false} TornAtTear(c: Cipher, file: seq<byte>, ask: nat -> nat, turn: nat, pos: nat, held: seq<byte>,
                                      frames: seq<seq<byte>>, tail: seq<byte>, last: seq<byte>, body: seq<byte>, m: nat, slow: bool)
    requires Sound(c) && pos <= |file| && |held| <= REPLAY_BUFFER && Tear(c, tail, last, body, m, slow)
    requires held + file[pos..] == tail + Record(body)
    requires slow ==> Slow(ask) && Waiting(held)
    ensures NoneLater(ReplayFrom(c, file, ask, turn, pos, held, frames), frames, m)
    decreases |file| - pos, 2
  {
    hide Sound, ReplayFrom, Record, Tear, NoneLater;
    assert Records([]) + (tail + Record(body)) == tail + Record(body);
    assert frames + Decoded(c, []) == frames;
    TornReplay(c, file, ask, turn, pos, held, frames, [], tail, last, body, m, slow);
  }

  lemma FitPlausible(bodies: seq<seq<byte>>)
    requires AllFit(bodies)
    ensures AllPlausible(bodies)
  {
  }

  lemma FitFrom(bodies: seq<seq<byte>>, j: nat)
    requires AllFit(bodies) && j <= |bodies|
    ensures AllFit(bodies[j..]) && bodies[|bodies|..] == []
  {
  }

  /** A torn record in the leftover takes the record behind it along: when that record is exposed, its frame is not
      among what the rotated log replays to after the whole records of the leftover. */
  lemma TornLeftoverLosesFrame(c: Cipher, left: seq<seq<byte>>, tail: seq<byte>, last: seq<byte>, nonce: seq<byte>,
                               frame: seq<byte>, ask: nat -> nat, slow: bool)
    requires Sound(c) && |nonce| == 12 && AllFit(left) && Torn(tail, last) && Fits(last) && tail != []
    requires Exposed(Body(c, nonce, frame), tail, last, slow) && (slow ==> Slow(ask))
    ensures var out := Replayed(c, Records(left) + tail + Record(Body(c, nonce, frame)), ask);
      && Decoded(c, left) <= out.frames
      && frame !in out.frames[|Decoded(c, left)|..]
  {
    hide Sound, ReplayFrom, Records, Decoded, Body, Record, Torn, Exposed, Slow;
    var body := Body(c, nonce, frame);
    DecryptBody(c, nonce, frame);
    var file := Records(left) + tail + Record(body);
    assert [] + file[0..] == file;
    Associate(Records(left), tail, Record(body));
    if left != [] {
      RecordSize(left[0]);
    }
    TornReplay(c, file, ask, 0, 0, [], [], left, tail, last, body, |frame|, slow);
    assert [] + Decoded(c, left) == Decoded(c, left);
  }

  /** An input: a crash left the four bytes of a length, which replay to nothing; the frame rotated behind them comes
      back as its own record's first bytes. */
  lemma TornLeftoverCase(ask: nat -> nat)
    ensures Replayed(Plain, LE(5, 4), ask) == Ended([])
    ensures Replayed(Plain, LE(5, 4) + Record([0x1F]), ask) == Ended([LE(1, 4) + [0x1F]])
  {
    hide Replayed, LE;
    var last: seq<byte> := [0, 0, 0, 0, 0];
    assert Record(last)[..4] == LE(5, 4);
    assert Records([]) + LE(5, 4) == LE(5, 4);
    WholeLogReplays(Plain, [], LE(5, 4), last, ask);
    var garbage: seq<byte> := LE(1, 4) + [0x1F];
    OneRecord(garbage);
    NoTail();
    assert Record(garbage) + [] == LE(5, 4) + Record([0x1F]);
    WholeLogReplays(Plain, [garbage], [], [0], ask);
    DecodedCons(Plain, garbage, []);
    assert [garbage] + [] == [garbage];
  }

  // ---- When a leftover does no harm -------------------------------------------------------------------------------

  /** What the broker logs: frames, which start with the magic. */
  ghost predicate AllFrames(c: Cipher, frames: seq<seq<byte>>)
  {
    AllLoggable(c, frames) && forall i :: 0 <= i < |frames| ==> frames[i] != [] && frames[i][0] == Frames.MAGIC_BYTE
  }

  /** Whatever frames the log held and however it is read, the rotated log replays to what the old one did. */
  ghost predicate Harmless(c: Cipher, prefix: seq<byte>, stale: seq<byte>)
  {
    forall frames: seq<seq<byte>>, ask: nat -> nat ::
      AllFrames(c, frames) ==> Replayed(c, stale + Records(Bodies(c, prefix, 0, frames)), ask) == Ended(frames)
  }

  lemma NoneWritten(c: Cipher, prefix: seq<byte>, stale: seq<byte>)
    ensures stale + Records(Bodies(c, prefix, 0, [])) == stale && AllFrames(c, [])
  {
  }

  lemma OneWritten(c: Cipher, prefix: seq<byte>, frame: seq<byte>)
    ensures Records(Bodies(c, prefix, 0, [frame])) == Record(Body(c, Nonce(prefix, 1), frame))
  {
    hide Record, Nonce, Body;
    var b := Body(c, Nonce(prefix, 1), frame);
    assert [frame][..0] == [];
    assert Bodies(c, prefix, 0, [frame]) == [b];
    OneRecord(b);
  }

  /** A frame of one or two bytes is exposed behind any torn record, to slow reads. */
  lemma SomeExposed(c: Cipher, prefix: seq<byte>, tail: seq<byte>, last: seq<byte>) returns (frame: seq<byte>)
    requires Sound(c) && |prefix| == 4
    ensures AllFrames(c, [frame]) && Exposed(Body(c, Nonce(prefix, 1), frame), tail, last, true)
  {
    hide LE;
    frame := if BodySize(c, 1) == |last| then [Frames.MAGIC_BYTE, 0] else [Frames.MAGIC_BYTE];
    NonceLength(prefix, 1);
    DecryptBody(c, Nonce(prefix, 1), frame);
  }

  /** A leftover, whole records and perhaps a torn one, does no harm to any rotation exactly when it has no torn record
      and its whole ones replay to nothing. */
  lemma HarmlessIff(c: Cipher, prefix: seq<byte>, left: seq<seq<byte>>, tail: seq<byte>, last: seq<byte>)
    requires Sound(c) && |prefix| == 4 && AllFit(left) && Torn(tail, last) && Fits(last)
    ensures Harmless(c, prefix, Records(left) + tail) <==> tail == [] && Decoded(c, left) == []
  {
    hide Sound, Records, Decoded, Replayed, Torn, AllLoggable, Bodies, Body, Exposed;
    var stale := Records(left) + tail;
    var one: nat -> nat := i => 1;
    if tail == [] && Decoded(c, left) == [] {
      forall frames: seq<seq<byte>>, ask: nat -> nat | AllFrames(c, frames)
        ensures Replayed(c, stale + Records(Bodies(c, prefix, 0, frames)), ask) == Ended(frames)
      {
        OntoRecords(c, prefix, left, frames, ask);
        assert stale == Records(left) && [] + frames == frames;
      }
    } else if Decoded(c, left) != [] {
      NoneWritten(c, prefix, stale);
      TailShort(tail, last);
      WholeLogReplays(c, left, tail, last, one);
      assert Replayed(c, stale + Records(Bodies(c, prefix, 0, [])), one) != Ended([]);
    } else {
      var frame := SomeExposed(c, prefix, tail, last);
      OneWritten(c, prefix, frame);
      NonceLength(prefix, 1);
      TornLeftoverLosesFrame(c, left, tail, last, Nonce(prefix, 1), frame, one, true);
      assert frame in [frame];
      assert Replayed(c, stale + Records(Bodies(c, prefix, 0, [frame])), one) != Ended([frame]);
    }
  }

  lemma TailShort(tail: seq<byte>, last: seq<byte>)
    requires Torn(tail, last) && Fits(last)
    ensures |tail| < REPLAY_BUFFER
  {
  }

  // ---- Any leftover -----------------------------------------------------------------------------------------------

  /** What is in the buffer, and what has been handed over, once some bytes have been replayed one at a time. */
  function SlowState(c: Cipher, bytes: seq<byte>): (s: (seq<byte>, seq<seq<byte>>))
    ensures |s.0| <= REPLAY_BUFFER
  {
    if bytes == [] then ([], [])
    else
      var s := SlowState(c, bytes[..|bytes| - 1]);
      if |s.0| == REPLAY_BUFFER then s
      else
        var buf := s.0 + [bytes[|bytes| - 1]];
        var r := Chunk(c, buf, 0);
        (buf[r.0..], s.1 + r.1)
  }

  /** A slow replay of the bytes and anything behind them passes through that state. */
  lemma {:induction false} SlowPasses(c: Cipher, bytes: seq<byte>, rest: seq<byte>, ask: nat -> nat)
    requires Slow(ask)
    ensures var s := SlowState(c, bytes);
      Replayed(c, bytes + rest, ask) == ReplayFrom(c, bytes + rest, ask, |bytes|, |bytes|, s.0, s.1)
  {
    hide Chunk, ReplayFrom;
    if bytes != [] {
      var init, x := bytes[..|bytes| - 1], bytes[|bytes| - 1];
      var file := bytes + rest;
      assert init + ([x] + rest) == file;
      SlowPasses(c, init, [x] + rest, ask);
      var s := SlowState(c, init);
      if |s.0| == REPLAY_BUFFER {
        FullTurn(c, file, ask, |init|, |init|, s.0, s.1);
        FullTurn(c, file, ask, |bytes|, |bytes|, s.0, s.1);
      } else {
        var buf := s.0 + [x];
        assert file[|init|..|init| + 1] == [x];
        var r := Chunk(c, buf, 0);
        Turn(c, file, ask, |init|, |init|, s.0, s.1, 1, buf, r.0, r.1);
      }
    }
  }

  /** Decoding stops where it would stop at once. */
  lemma {:induction false} ChunkStops(c: Cipher, buf: seq<byte>, at: nat)
    requires at <= |buf|
    ensures var end := Chunk(c, buf, at).0; Chunk(c, buf, end) == (end, [])
    decreases |buf| - at
  {
    hide Chunk, Resync, FromLE, Decrypt;
    ChunkEnds(c, buf, at);
    if |buf| - at >= 4 {
      var len := RecLen(buf, at);
      if Implausible(len) {
        ChunkSkips(c, buf, at);
        ChunkStops(c, buf, Resync(buf, at));
      } else if |buf| - at >= 4 + len {
        ChunkTakes(c, buf, at);
        ChunkStops(c, buf, at + 4 + len);
      }
    }
  }

  /** A record whose length is there but not all of its body. */
  predicate Lacking(held: seq<byte>) { |held| >= 4 ==> !Implausible(RecLen(held, 0)) && |held| < 4 + RecLen(held, 0) }

  lemma StopsLacking(c: Cipher, buf: seq<byte>)
    ensures Lacking(buf[Chunk(c, buf, 0).0..])
  {
    hide Chunk, FromLE, Resync, Decrypt;
    var end := Chunk(c, buf, 0).0;
    ChunkStops(c, buf, 0);
    if |buf| - end >= 4 {
      assert buf[end..][0..4] == buf[end..end + 4];
      ChunkSkips(c, buf, end);
      if !Implausible(RecLen(buf, end)) && |buf| - end >= 4 + RecLen(buf, end) {
        ChunkTakes(c, buf, end);
      }
    }
  }

  lemma {:induction false} SlowLacking(c: Cipher, bytes: seq<byte>)
    ensures Lacking(SlowState(c, bytes).0)
  {
    hide Chunk, Lacking;
    if bytes == [] {
      assert Lacking([]) by { NothingLacking(); }
    } else {
      var init := bytes[..|bytes| - 1];
      SlowLacking(c, init);
      StopsLacking(c, SlowState(c, init).0 + [bytes[|bytes| - 1]]);
    }
  }

  lemma NothingLacking()
    ensures Lacking([])
  {
  }

  /** Bytes that lack the rest of a record are a torn one of that length. */
  lemma LackingTorn(held: seq<byte>) returns (last: seq<byte>)
    requires Lacking(held)
    ensures |held| >= 4 ==> Torn(held, last)
  {
    hide LE, FromLE;
    last := [0];
    if |held| >= 4 {
      var len := RecLen(held, 0);
      last := held[4..] + seq(len - (|held| - 4), _ => 0);
      FromLERoundTrip(held[0..4]);
      assert Record(last)[..4] == held[..4] && Record(last)[4..|held|] == held[4..];
    }
  }

  /** Whatever bytes several interrupted rotations left: they do harm to some rotation unless replaying them byte by
      byte hands over nothing and leaves nothing waiting in the buffer. */
  lemma HarmlessNeeds(c: Cipher, prefix: seq<byte>, stale: seq<byte>)
    requires Sound(c) && |prefix| == 4 && Harmless(c, prefix, stale)
    ensures SlowState(c, stale) == ([], [])
  {
    hide Sound, Replayed, ReplayFrom, SlowState, Harmless, AllFrames, Bodies, Records, Body, Record, Torn, Exposed, Chunk, Lacking;
    var one: nat -> nat := i => 1;
    var s := SlowState(c, stale);
    NoneWritten(c, prefix, stale);
    HarmlessOne(c, prefix, stale, [], one);
    SlowPasses(c, stale, [], one);
    assert stale + [] == stale;
    EndOfFile(c, stale, one, s.0, s.1);
    assert s.1 == [];
    SlowLacking(c, stale);
    if s.0 != [] {
      var last := LackingTorn(s.0);
      var frame := SomeExposed(c, prefix, s.0, last);
      HarmlessOne(c, prefix, stale, [frame], one);
      OneWritten(c, prefix, frame);
      NonceLength(prefix, 1);
      var body := Body(c, Nonce(prefix, 1), frame);
      DecryptBody(c, Nonce(prefix, 1), frame);
      var file := stale + Record(body);
      SlowPasses(c, stale, Record(body), one);
      assert s.0 + file[|stale|..] == s.0 + Record(body);
      LackingWaits(s.0);
      TornAtTear(c, file, one, |stale|, |stale|, s.0, [], s.0, last, body, |frame|, true);
      NotAmong(Replayed(c, file, one), frame);
    }
  }

  lemma NotAmong(out: Outcome, frame: seq<byte>)
    requires NoneLater(out, [], |frame|)
    ensures out.frames != [frame]
  {
    if out.frames != [] {
      assert out.frames[0..][0] == out.frames[0];
    }
  }

  lemma HarmlessOne(c: Cipher, prefix: seq<byte>, stale: seq<byte>, frames: seq<seq<byte>>, ask: nat -> nat)
    requires Harmless(c, prefix, stale) && AllFrames(c, frames)
    ensures Replayed(c, stale + Records(Bodies(c, prefix, 0, frames)), ask) == Ended(frames)
  {
  }

  /** At the end of the file what was handed over stays so. */
  lemma EndOfFile(c: Cipher, file: seq<byte>, ask: nat -> nat, held: seq<byte>, frames: seq<seq<byte>>)
    requires |held| <= REPLAY_BUFFER
    ensures ReplayFrom(c, file, ask, |file|, |file|, held, frames) == Ended([]) ==> frames == []
  {
  }

  lemma LackingWaits(held: seq<byte>)
    requires Lacking(held)
    ensures Waiting(held)
  {
  }

  /** An input for which that is not enough: four zero bytes are dropped by slow reads, but dropped together with the
      first byte of the record behind them when that byte is read along, and the record is lost. */
  lemma ZeroLengthCase(prefix: seq<byte>)
    ensures SlowState(Plain, [0, 0, 0, 0]) == ([], []) && !Harmless(Plain, prefix, [0, 0, 0, 0])
  {
    hide ReplayFrom, Chunk, Harmless, FromLE, Bodies, Records, SlowState;
    ZerosDropped();
    var zeros: seq<byte>, frame: seq<byte>, five: nat -> nat := [0, 0, 0, 0], [Frames.MAGIC_BYTE], i => 5;
    var file: seq<byte> := [0, 0, 0, 0, 1, 0, 0, 0, Frames.MAGIC_BYTE];
    OneWritten(Plain, prefix, frame);
    SmallLE(1);
    assert zeros + Record(frame) == file;
    LosesFrame(file, five);
    assert AllFrames(Plain, [frame]);
    if Harmless(Plain, prefix, zeros) {
      HarmlessOne(Plain, prefix, zeros, [frame], five);
    }
  }

  lemma LosesFrame(file: seq<byte>, ask: nat -> nat)
    requires file == [0, 0, 0, 0, 1, 0, 0, 0, Frames.MAGIC_BYTE] && forall i: nat :: ask(i) == 5
    ensures Replayed(Plain, file, ask) == Ended([])
  {
    hide ReplayFrom, Chunk, FromLE;
    var a: seq<byte>, b: seq<byte> := [0, 0, 0, 0, 1], [0, 0, 0, Frames.MAGIC_BYTE];
    assert [] + file[0..5] == a && [] + file[5..9] == b && [] + file[9..9] == [] && a[5..] == [] && b[4..] == [];
    var none: seq<seq<byte>> := [];
    assert none + [] == none;
    FourBytes(a[0..4]);
    FourBytes(b[0..4]);
    AllDropped(a);
    AllDropped(b);
    ChunkEnds(Plain, [], 0);
    Turn(Plain, file, ask, 0, 0, [], [], 5, a, 5, []);
    Turn(Plain, file, ask, 1, 5, [], [], 4, b, 4, []);
    Turn(Plain, file, ask, 2, 9, [], [], 0, [], 0, []);
  }

  lemma ZerosDropped()
    ensures SlowState(Plain, [0, 0, 0, 0]) == ([], [])
  {
    hide Chunk, FromLE, SlowState;
    var z: seq<byte> := [0, 0, 0, 0];
    var none: seq<seq<byte>> := [];
    assert z[..0] == [] && z[..3] + [0] == z && none + [] == none;
    SlowStart();
    for i := 0 to 3
      invariant SlowState(Plain, z[..i]) == (z[..i], [])
    {
      assert z[..i] + [0] == z[..i + 1] && z[..i + 1][0..] == z[..i + 1];
      ChunkEnds(Plain, z[..i + 1], 0);
      SlowStep(Plain, z[..i], 0);
    }
    FourBytes(z[0..4]);
    AllDropped(z);
    SlowStep(Plain, z[..3], 0);
    assert z[4..] == [];
  }

  lemma SlowStart()
    ensures SlowState(Plain, []) == ([], [])
  {
  }

  lemma SlowStep(c: Cipher, bytes: seq<byte>, x: byte)
    ensures var s := SlowState(c, bytes);
      |s.0| < REPLAY_BUFFER ==>
        var r := Chunk(c, s.0 + [x], 0); SlowState(c, bytes + [x]) == ((s.0 + [x])[r.0..], s.1 + r.1)
  {
    hide Chunk;
    assert (bytes + [x])[..|bytes|] == bytes;
  }

  /** A length that is none, with at most one byte behind it: the buffer is dropped. */
  lemma AllDropped(buf: seq<byte>)
    requires 4 <= |buf| <= 5 && Implausible(RecLen(buf, 0))
    ensures Chunk(Plain, buf, 0) == (|buf|, [])
  {
    hide FromLE;
    assert Resync(buf, 0) == |buf|;
  }
}
