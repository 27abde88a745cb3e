/** The append-only log: its records, and what one chunk of it decodes to. */
module AppendLog {
  import opened Bytes
  import opened Lists
  import Frames

  const MAX_RECORD: nat := 10 * 1024 * 1024
  const REPLAY_BUFFER: nat := 64 * 1024

  /** AES-256-GCM as a pair of functions, or no encryption. */
  datatype Cipher =
    | Plain
    | Sealed(seal: (seq<byte>, seq<byte>) -> seq<byte>, open: (seq<byte>, seq<byte>) -> Option<seq<byte>>)

  ghost predicate Sound(c: Cipher)
  {
    c.Sealed? ==>
      forall nonce: seq<byte>, plain: seq<byte> ::
        && |c.seal(nonce, plain)| == |plain| + 16 && c.open(nonce, c.seal(nonce, plain)) == Some(plain)
        && (c.open(nonce, plain).Some? ==> |c.open(nonce, plain).value| + 16 == |plain|)
  }

  // ---- Records -------------------------------------------------------------------------------------------------

  function Record(body: seq<byte>): (r: seq<byte>)
    ensures |r| == 4 + |body|
  {
    LE(|body|, 4) + body
  }

  function Records(bodies: seq<seq<byte>>): seq<byte>
  {
    if bodies == [] then [] else Record(bodies[0]) + Records(bodies[1..])
  }

  /** The body WriteFrame stores for a frame. */
  function Body(c: Cipher, nonce: seq<byte>, frame: seq<byte>): seq<byte>
  {
    if c.Plain? then frame else nonce + c.seal(nonce, frame)
  }

  /** decryptReplayRecord. */
  function Decrypt(c: Cipher, body: seq<byte>): Option<seq<byte>>
  {
    if c.Plain? then Some(body)
    else if |body| < 12 + 16 then None
    else c.open(body[..12], body[12..])
  }

  lemma DecryptBody(c: Cipher, nonce: seq<byte>, frame: seq<byte>)
    requires Sound(c) && |nonce| == 12
    ensures Decrypt(c, Body(c, nonce, frame)) == Some(frame)
    ensures |Body(c, nonce, frame)| == if c.Plain? then |frame| else |frame| + 28
  {
    if c.Sealed? {
      var s := c.seal(nonce, frame);
      assert (nonce + s)[..12] == nonce && (nonce + s)[12..] == s;
    }
  }

  /** The frames a list of record bodies replays to: those that decrypt, in order. */
  function Decoded(c: Cipher, bodies: seq<seq<byte>>): seq<seq<byte>>
  {
    if bodies == [] then []
    else (match Decrypt(c, bodies[0]) case None => [] case Some(f) => [f]) + Decoded(c, bodies[1..])
  }

  /** Records the replay buffer can hold, prefix included. */
  predicate Fits(body: seq<byte>) { 0 < |body| && 4 + |body| <= REPLAY_BUFFER }

  predicate AllFit(bodies: seq<seq<byte>>) { forall i :: 0 <= i < |bodies| ==> Fits(bodies[i]) }

  /** Records whose length a replay takes for one. */
  predicate Plausible(body: seq<byte>) { 0 < |body| <= MAX_RECORD }

  predicate AllPlausible(bodies: seq<seq<byte>>) { forall i :: 0 <= i < |bodies| ==> Plausible(bodies[i]) }

  // ---- Decoding one chunk --------------------------------------------------------------------------------------

  predicate Implausible(recLen: nat) { recLen == 0 || recLen > MAX_RECORD }

  function RecLen(buf: seq<byte>, i: nat): nat
    requires i + 4 <= |buf|
  {
    FromLE(buf[i..i + 4])
  }

  /** resyncToNextRecord: the next position that looks like a record holding a frame, or the end of the scan. */
  method ResyncToNextRecord(buf: seq<byte>, pos: nat) returns (next: nat)
    requires pos + 4 <= |buf|
    ensures next == Resync(buf, pos)
  {
    var maxScan := Min(pos + 1024, |buf|);
    var i := pos + 1;
    while i + 4 < maxScan
      invariant pos < i
      invariant ScanFrom(buf, i, maxScan) == Resync(buf, pos)
    {
      var recLen := RecLen(buf, i);
      if !Implausible(recLen) {
        if i + 4 + recLen <= |buf| && buf[i + 4] == Frames.MAGIC_BYTE {
          return i;
        }
      }
      i := i + 1;
    }
    return maxScan;
  }

  function ScanFrom(buf: seq<byte>, i: nat, maxScan: nat): (r: nat)
    requires maxScan <= |buf|
    ensures r <= maxScan && (i <= maxScan ==> i <= r)
    decreases maxScan - i
  {
    if i + 4 >= maxScan then maxScan
    else if !Implausible(RecLen(buf, i)) && i + 4 + RecLen(buf, i) <= |buf| && buf[i + 4] == Frames.MAGIC_BYTE then i
    else ScanFrom(buf, i + 1, maxScan)
  }

  /** A position that looks like a record with a frame in it, all of it in the buffer. */
  predicate Likely(buf: seq<byte>, i: nat)
  {
    i + 4 < |buf| && 0 < RecLen(buf, i) <= MAX_RECORD && i + 4 + RecLen(buf, i) <= |buf| && buf[i + 4] == Frames.MAGIC_BYTE
  }

  lemma {:induction false} ScanIsFirst(buf: seq<byte>, i: nat, maxScan: nat)
    requires maxScan <= |buf|
    ensures var r := ScanFrom(buf, i, maxScan);
      && (r < maxScan ==> r >= i && r + 4 < maxScan && Likely(buf, r))
      && forall j: nat :: i <= j < r && j + 4 < maxScan ==> !Likely(buf, j)
    decreases maxScan - i
  {
    hide FromLE;
    if i + 4 < maxScan {
      ScanIsFirst(buf, i + 1, maxScan);
    }
  }

  /** Resynchronizing stops at the first likely position behind this one, within 1024 bytes, or at the end of those. */
  lemma ResyncIsFirst(buf: seq<byte>, pos: nat)
    requires pos + 4 <= |buf|
    ensures var r, end := Resync(buf, pos), Min(pos + 1024, |buf|);
      && pos < r <= end && (r < end ==> r + 4 < end && Likely(buf, r))
      && forall j: nat :: pos < j < r && j + 4 < end ==> !Likely(buf, j)
  {
    hide FromLE;
    ScanIsFirst(buf, pos + 1, Min(pos + 1024, |buf|));
  }

  function Resync(buf: seq<byte>, pos: nat): (r: nat)
    requires pos + 4 <= |buf|
    ensures pos < r <= |buf|
  {
    ScanFrom(buf, pos + 1, Min(pos + 1024, |buf|))
  }

  /** decodeReplayChunk: how far it gets from `at`, and the frames it hands over. */
  function Chunk(c: Cipher, buf: seq<byte>, at: nat): (r: (nat, seq<seq<byte>>))
    requires at <= |buf|
    ensures at <= r.0 <= |buf|
    decreases |buf| - at
  {
    if |buf| - at < 4 then (at, [])
    else
      var recLen := RecLen(buf, at);
      if Implausible(recLen) then Chunk(c, buf, Resync(buf, at))
      else if |buf| - at < 4 + recLen then (at, [])
      else
        var (end, frames) := Chunk(c, buf, at + 4 + recLen);
        (end, (match Decrypt(c, buf[at + 4..at + 4 + recLen]) case None => [] case Some(f) => [f]) + frames)
  }

  lemma ChunkEnds(c: Cipher, buf: seq<byte>, at: nat)
    requires at <= |buf|
    ensures |buf| - at < 4 || (!Implausible(RecLen(buf, at)) && |buf| - at < 4 + RecLen(buf, at)) ==>
      Chunk(c, buf, at) == (at, [])
  {
  }

  lemma ChunkSkips(c: Cipher, buf: seq<byte>, at: nat)
    requires at + 4 <= |buf|
    ensures Implausible(RecLen(buf, at)) ==> Chunk(c, buf, at) == Chunk(c, buf, Resync(buf, at))
  {
  }

  lemma ChunkTakes(c: Cipher, buf: seq<byte>, at: nat)
    requires at + 4 <= |buf| && !Implausible(RecLen(buf, at)) && at + 4 + RecLen(buf, at) <= |buf|
    ensures var next := at + 4 + RecLen(buf, at);
      var rest, d := Chunk(c, buf, next), Decrypt(c, buf[at + 4..next]);
      Chunk(c, buf, at) == (rest.0, if d.Some? then [d.value] + rest.1 else rest.1)
  {
    var rest := Chunk(c, buf, at + 4 + RecLen(buf, at)).1;
    assert [] + rest == rest;
  }

  method DecodeReplayChunk(c: Cipher, buf: seq<byte>) returns (consumed: nat, frames: seq<seq<byte>>)
    ensures (consumed, frames) == Chunk(c, buf, 0)
  {
    hide FromLE, Decrypt, Resync, Chunk;
    consumed, frames := 0, [];
    ghost var whole := Chunk(c, buf, 0);
    assert [] + whole.1 == whole.1;
    while consumed < |buf|
      invariant consumed <= |buf|
      invariant whole == (Chunk(c, buf, consumed).0, frames + Chunk(c, buf, consumed).1)
    {
      var remaining := |buf| - consumed;
      ChunkEnds(c, buf, consumed);
      if remaining < 4 {
        break;
      }
      var recLen := RecLen(buf, consumed);
      if Implausible(recLen) {
        ChunkSkips(c, buf, consumed);
        consumed := ResyncToNextRecord(buf, consumed);
        continue;
      }
      if remaining < 4 + recLen {
        break;
      }
      var plain := Decrypt(c, buf[consumed + 4..consumed + 4 + recLen]);
      ChunkTakes(c, buf, consumed);
      ghost var rest := Chunk(c, buf, consumed + 4 + recLen).1;
      if plain.Some? {
        assert frames + ([plain.value] + rest) == frames + [plain.value] + rest;
        frames := frames + [plain.value];
      }
      consumed := consumed + 4 + recLen;
    }
    ChunkEnds(c, buf, consumed);
    assert frames + [] == frames;
  }

  // ---- Logs ----------------------------------------------------------------------------------------------------

  /** What a crash can leave after the last complete record: a proper prefix of one more. */
  predicate Torn(tail: seq<byte>, last: seq<byte>)
  {
    Plausible(last) && |tail| < |Record(last)| && tail <= Record(last)
  }

  lemma RecordLength(buf: seq<byte>, at: nat, body: seq<byte>)
    requires at + 4 <= |buf| && |body| < U32 && buf[at..at + 4] == Record(body)[..4]
    ensures RecLen(buf, at) == |body|
  {
    U32RoundTrip(|body|);
    assert Record(body)[..4] == LE(|body|, 4);
  }

  lemma PieceOfRecord(c: Cipher, buf: seq<byte>, at: nat, body: seq<byte>)
    requires at <= |buf| && 0 < |body| <= MAX_RECORD
    requires |buf| - at < |Record(body)| && buf[at..] <= Record(body)
    ensures Chunk(c, buf, at) == (at, [])
  {
    if |buf| - at >= 4 {
      assert buf[at..at + 4] == buf[at..][..4] == Record(body)[..4];
      RecordLength(buf, at, body);
    }
  }

  lemma WholeRecord(buf: seq<byte>, at: nat, body: seq<byte>, rest: seq<byte>)
    requires at <= |buf| && |body| < U32 && |Record(body)| <= |buf| - at && buf[at..] <= Record(body) + rest
    ensures RecLen(buf, at) == |body|
    ensures buf[at + 4..at + 4 + |body|] == body
    ensures buf[at + 4 + |body|..] <= rest
  {
    var r := Record(body);
    var s := buf[at..];
    assert s[..4] == r[..4] && buf[at..at + 4] == s[..4];
    RecordLength(buf, at, body);
    assert s[4..4 + |body|] == r[4..] == body;
    assert buf[at + 4..at + 4 + |body|] == s[4..4 + |body|];
    assert buf[at + 4 + |body|..] == s[4 + |body|..];
    assert (r + rest)[|r|..] == rest;
  }

  lemma RecordsUnfold(bodies: seq<seq<byte>>)
    ensures Records([]) == []
    ensures bodies != [] ==> Records(bodies) == Record(bodies[0]) + Records(bodies[1..])
  {
  }

  /** Whatever part of some records and what follows them the buffer holds, from a record boundary on: the complete
      records are decoded, and if those are all, decoding goes on behind them. */
  lemma {:induction false} ChunkOfRecords(c: Cipher, bodies: seq<seq<byte>>, rest: seq<byte>, buf: seq<byte>, at: nat)
    returns (j: nat)
    requires AllPlausible(bodies) && at <= |buf| && buf[at..] <= Records(bodies) + rest
    ensures j <= |bodies| && at + |Records(bodies[..j])| <= |buf|
    ensures var end := at + |Records(bodies[..j])|;
      if j < |bodies| then
        && Chunk(c, buf, at) == (end, Decoded(c, bodies[..j]))
        && |buf| - end < |Record(bodies[j])|
      else
        && buf[end..] <= rest
        && Chunk(c, buf, at) == (Chunk(c, buf, end).0, Decoded(c, bodies) + Chunk(c, buf, end).1)
    decreases bodies
  {
    hide FromLE, LE, Decrypt, Record, Records, Chunk, Decoded;
    RecordsUnfold(bodies);
    DecodedNone(c);
    j := 0;
    assert bodies[..0] == [];
    if bodies == [] {
      assert Records(bodies) + rest == rest;
      assert [] + Chunk(c, buf, at).1 == Chunk(c, buf, at).1;
    } else {
      var b, more := bodies[0], bodies[1..];
      assert Plausible(b) && AllPlausible(more);
      assert Records(bodies) + rest == Record(b) + (Records(more) + rest);
      if |buf| - at < |Record(b)| {
        assert buf[at..] <= Record(b);
        PieceOfRecord(c, buf, at, b);
      } else {
        WholeRecord(buf, at, b, Records(more) + rest);
        ChunkTakes(c, buf, at);
        var k := ChunkOfRecords(c, more, rest, buf, at + 4 + |b|);
        j := k + 1;
        assert bodies[..j] == [b] + more[..k];
        assert bodies[..j][1..] == more[..k] && bodies == [b] + more;
        RecordsUnfold(bodies[..j]);
        DecodedCons(c, b, more[..k]);
        if k == |more| {
          assert more[..k] == more;
          var d, behind := Decrypt(c, b), Chunk(c, buf, at + |Records(bodies[..j])|).1;
          if d.Some? {
            Associate([d.value], Decoded(c, more), behind);
          }
        }
      }
    }
  }

  /** Decoding finds its way back: behind bytes that start with no length and hold nothing that looks like a record, it
      goes on at the first whole record with a frame in it, if that is within 1024 bytes, and decodes all of them. */
  lemma GarbageSkipped(c: Cipher, garbage: seq<byte>, bodies: seq<seq<byte>>)
    requires 4 <= |garbage| && |garbage| + 4 < 1024 && bodies != [] && AllPlausible(bodies)
    requires var buf := garbage + Records(bodies);
      Implausible(RecLen(buf, 0)) && Likely(buf, |garbage|) && forall j: nat :: 0 < j < |garbage| ==> !Likely(buf, j)
    ensures var buf := garbage + Records(bodies); Chunk(c, buf, 0) == (|buf|, Decoded(c, bodies))
  {
    hide FromLE, Records, Decoded, Chunk, Resync, Likely;
    var buf := garbage + Records(bodies);
    assert |garbage| + 4 < |buf| by { LikelyInside(buf, |garbage|); }
    ResyncIsFirst(buf, 0);
    ChunkSkips(c, buf, 0);
    assert Resync(buf, 0) == |garbage|;
    assert buf[|garbage|..] == Records(bodies) + [];
    var j := ChunkOfRecords(c, bodies, [], buf, |garbage|);
    AllInside(c, bodies, buf, |garbage|, j);
  }

  lemma LikelyInside(buf: seq<byte>, i: nat)
    requires Likely(buf, i)
    ensures i + 4 < |buf|
  {
  }

  lemma AllInside(c: Cipher, bodies: seq<seq<byte>>, buf: seq<byte>, at: nat, j: nat)
    requires at <= |buf| && buf[at..] == Records(bodies) && j <= |bodies|
    requires j < |bodies| ==> |buf| - (at + |Records(bodies[..j])|) < |Record(bodies[j])|
    requires j == |bodies| ==>
      Chunk(c, buf, at) == (Chunk(c, buf, at + |Records(bodies)|).0, Decoded(c, bodies) + Chunk(c, buf, at + |Records(bodies)|).1)
    ensures Chunk(c, buf, at) == (|buf|, Decoded(c, bodies))
  {
    hide Records, Record, Decoded, Chunk;
    assert |buf| == at + |Records(bodies)|;
    RecordsSplit(bodies, j);
    RecordsUnfold(bodies[j..]);
    ChunkEnds(c, buf, |buf|);
    assert Decoded(c, bodies) + [] == Decoded(c, bodies);
  }

  lemma DecodedCons(c: Cipher, b: seq<byte>, more: seq<seq<byte>>)
    ensures Decoded(c, [b] + more)
      == var d := Decrypt(c, b); if d.Some? then [d.value] + Decoded(c, more) else Decoded(c, more)
  {
    assert ([b] + more)[1..] == more;
  }

  /** The same for a log with a torn record at its end, of which nothing is decoded. */
  lemma ChunkOfLog(c: Cipher, bodies: seq<seq<byte>>, tail: seq<byte>, last: seq<byte>, buf: seq<byte>)
    returns (j: nat)
    requires AllPlausible(bodies) && Torn(tail, last) && buf <= Records(bodies) + tail
    ensures j <= |bodies|
    ensures Chunk(c, buf, 0) == (|Records(bodies[..j])|, Decoded(c, bodies[..j]))
    ensures j < |bodies| ==> |buf| - |Records(bodies[..j])| < |Record(bodies[j])|
  {
    hide Chunk, Records, Record, Decoded;
    assert buf[0..] == buf;
    j := ChunkOfRecords(c, bodies, tail, buf, 0);
    if j == |bodies| {
      var end := |Records(bodies[..j])|;
      assert bodies[..j] == bodies;
      PieceOfRecord(c, buf, end, last);
      assert Decoded(c, bodies) + [] == Decoded(c, bodies);
    }
  }

  lemma {:induction false} RecordsSplit(bodies: seq<seq<byte>>, j: nat)
    requires j <= |bodies|
    ensures Records(bodies) == Records(bodies[..j]) + Records(bodies[j..])
  {
    hide Record, Records;
    RecordsUnfold(bodies[..j]);
    if j == 0 {
      assert bodies[..0] == [] && bodies[0..] == bodies;
      assert [] + Records(bodies) == Records(bodies);
    } else {
      RecordsUnfold(bodies);
      RecordsSplit(bodies[1..], j - 1);
      assert bodies[..j][1..] == bodies[1..][..j - 1] && bodies[j..] == bodies[1..][j - 1..];
      Associate(Record(bodies[0]), Records(bodies[1..][..j - 1]), Records(bodies[j..]));
    }
  }

  lemma {:induction false} DecodedConcat(c: Cipher, a: seq<seq<byte>>, b: seq<seq<byte>>)
    ensures Decoded(c, a + b) == Decoded(c, a) + Decoded(c, b)
  {
    if a == [] {
      assert a + b == b;
    } else {
      assert (a + b)[1..] == a[1..] + b;
      DecodedConcat(c, a[1..], b);
    }
  }

  lemma DecodedNone(c: Cipher)
    ensures Decoded(c, []) == []
  {
  }

  lemma {:induction false} RecordsSnoc(bodies: seq<seq<byte>>, b: seq<byte>)
    ensures Records(bodies + [b]) == Records(bodies) + Record(b)
  {
    hide Record;
    RecordsSplit(bodies + [b], |bodies|);
    assert (bodies + [b])[..|bodies|] == bodies && (bodies + [b])[|bodies|..] == [b];
    assert Records([b]) == Record(b) + Records([]);
  }
}
