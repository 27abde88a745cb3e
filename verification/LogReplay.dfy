/** Replaying a log file through a fixed buffer, for every way reads may chunk it. */
module LogReplay {
  import opened Bytes
  import opened Lists
  import opened AppendLog

  /** How a replay goes on: to the end of the file, or for ever without progress, once the buffer is full of a record
      that does not fit: the next read then has no room, returns nothing and no error, and the loop turns idle. */
  datatype Outcome = Ended(frames: seq<seq<byte>>) | Stalled(frames: seq<seq<byte>>)

  /** What a Read into the free part of the buffer returns: at least one byte while there is room and data. */
  function ReadSize(ask: nat, room: nat, left: nat): (n: nat)
    ensures n <= room && n <= left && (room > 0 && left > 0 ==> n >= 1)
  {
    Min(Max(1, ask), Min(room, left))
  }

  /** The loop from a position of the file, with `held` in the buffer and `frames` handed over. */
  function ReplayFrom(c: Cipher, file: seq<byte>, ask: nat -> nat, turn: nat, pos: nat, held: seq<byte>, frames: seq<seq<byte>>): Outcome
    requires pos <= |file| && |held| <= REPLAY_BUFFER
    decreases |file| - pos
  {
    if |held| == REPLAY_BUFFER then Stalled(frames)
    else
      var n := ReadSize(ask(turn), REPLAY_BUFFER - |held|, |file| - pos);
      var buf := held + file[pos..pos + n];
      var r := Chunk(c, buf, 0);
      if pos == |file| then Ended(frames + r.1)
      else ReplayFrom(c, file, ask, turn + 1, pos + n, buf[r.0..], frames + r.1)
  }

  /** One turn of the loop with room in the buffer. */
  lemma Turn(c: Cipher, file: seq<byte>, ask: nat -> nat, turn: nat, pos: nat, held: seq<byte>, frames: seq<seq<byte>>,
             n: nat, buf: seq<byte>, consumed: nat, more: seq<seq<byte>>)
    requires pos <= |file| && |held| < REPLAY_BUFFER && n == ReadSize(ask(turn), REPLAY_BUFFER - |held|, |file| - pos)
    requires buf == held + file[pos..pos + n] && (consumed, more) == Chunk(c, buf, 0)
    ensures ReplayFrom(c, file, ask, turn, pos, held, frames)
      == if pos == |file| then Ended(frames + more)
         else ReplayFrom(c, file, ask, turn + 1, pos + n, buf[consumed..], frames + more)
  {
  }

  lemma FullTurn(c: Cipher, file: seq<byte>, ask: nat -> nat, turn: nat, pos: nat, held: seq<byte>, frames: seq<seq<byte>>)
    requires pos <= |file| && |held| == REPLAY_BUFFER
    ensures ReplayFrom(c, file, ask, turn, pos, held, frames) == Stalled(frames)
  {
  }

  /** The replay of a file; the i-th Read returns at most ask(i) bytes. */
  function Replayed(c: Cipher, file: seq<byte>, ask: nat -> nat): Outcome { ReplayFrom(c, file, ask, 0, 0, [], []) }

  /** Replay: read into the free part of the buffer, decode, slide the rest down. */
  method Replay(c: Cipher, file: seq<byte>, ask: nat -> nat) returns (out: Outcome)
    ensures out == Replayed(c, file, ask)
  {
    hide Chunk, ReplayFrom;
    if |file| == 0 {
      ChunkEnds(c, [], 0);
      assert [] + file[0..0] == [];
      Turn(c, file, ask, 0, 0, [], [], 0, [], 0, []);
      return Ended([]);
    }
    var frames: seq<seq<byte>> := [];
    var buf := new byte[REPLAY_BUFFER];
    var off: nat, pos: nat, turn: nat := 0, 0, 0;
    assert buf[..0] == [];
    while true
      invariant off <= REPLAY_BUFFER == buf.Length && pos <= |file|
      invariant ReplayFrom(c, file, ask, turn, pos, buf[..off], frames) == Replayed(c, file, ask)
      decreases |file| - pos
    {
      if off == REPLAY_BUFFER {
        FullTurn(c, file, ask, turn, pos, buf[..off], frames);
        return Stalled(frames);
      }
      ghost var held := buf[..off];
      var eof := pos == |file|;
      var n := ReadSize(ask(turn), REPLAY_BUFFER - off, |file| - pos);
      CopyInto(buf, off, file[pos..pos + n]);
      off, pos, turn := off + n, pos + n, turn + 1;
      var consumed, more := DecodeReplayChunk(c, buf[..off]);
      Turn(c, file, ask, turn - 1, pos - n, held, frames, n, buf[..off], consumed, more);
      frames := frames + more;
      if eof {
        return Ended(frames);
      }
      assert buf[..off][consumed..] == buf[consumed..off];
      SlideDown(buf, consumed, off);
      off := off - consumed;
    }
  }

  // ---- Logs ------------------------------------------------------------------------------------------------------

  /** How many records, from the first on, fit the buffer. */
  function Leading(bodies: seq<seq<byte>>): (j: nat)
    ensures j <= |bodies| && (j < |bodies| ==> !Fits(bodies[j]))
    ensures forall i :: 0 <= i < j ==> Fits(bodies[i])
  {
    if bodies == [] || !Fits(bodies[0]) then 0 else 1 + Leading(bodies[1..])
  }

  lemma {:induction false} LeadingSplit(bodies: seq<seq<byte>>, j: nat)
    requires j <= |bodies| && AllFit(bodies[..j])
    ensures Leading(bodies) == j + Leading(bodies[j..])
  {
    if j == 0 {
      assert bodies[0..] == bodies;
    } else {
      assert Fits(bodies[..j][0]);
      assert bodies[1..][..j - 1] == bodies[..j][1..] && bodies[1..][j - 1..] == bodies[j..];
      LeadingSplit(bodies[1..], j - 1);
    }
  }

  /** Records that fit the buffer together fit it each. */
  lemma {:induction false} TogetherFit(bodies: seq<seq<byte>>)
    requires AllPlausible(bodies) && |Records(bodies)| <= REPLAY_BUFFER
    ensures AllFit(bodies)
  {
    hide Records, Record;
    if bodies != [] {
      RecordsUnfold(bodies);
      RecordSize(bodies[0]);
      assert Plausible(bodies[0]) && forall i :: 0 <= i < |bodies[1..]| ==> bodies[1..][i] == bodies[i + 1];
      TogetherFit(bodies[1..]);
      forall i | 0 <= i < |bodies| ensures Fits(bodies[i]) {
        if i > 0 {
          assert Fits(bodies[1..][i - 1]);
        }
      }
    }
  }

  lemma RecordSize(body: seq<byte>)
    ensures |Record(body)| == 4 + |body|
  {
  }

  /** What the replay of a log comes to: everything, when each record fits the buffer and the torn one at the end, if
      any, does not fill it; else the records before the first that does not fit, and a stall. */
  function LogOutcome(c: Cipher, bodies: seq<seq<byte>>, tail: seq<byte>, frames: seq<seq<byte>>): Outcome
  {
    if Leading(bodies) == |bodies| && |tail| < REPLAY_BUFFER then Ended(frames + Decoded(c, bodies))
    else Stalled(frames + Decoded(c, bodies[..Leading(bodies)]))
  }

  lemma Advance(held: seq<byte>, file: seq<byte>, pos: nat, n: nat, ahead: seq<byte>)
    requires pos + n <= |file| && held + file[pos..] == ahead
    ensures held + file[pos..pos + n] <= ahead
    ensures held + file[pos..pos + n] + file[pos + n..] == ahead
  {
    assert file[pos..] == file[pos..pos + n] + file[pos + n..];
  }

  lemma DropFront(buf: seq<byte>, more: seq<byte>, a: seq<byte>, b: seq<byte>)
    requires buf + more == a + b && |a| <= |buf|
    ensures buf[|a|..] + more == b
  {
    assert (buf + more)[|a|..] == b;
  }

  lemma OutcomeSplit(c: Cipher, bodies: seq<seq<byte>>, tail: seq<byte>, frames: seq<seq<byte>>, j: nat)
    requires j <= |bodies| && AllFit(bodies[..j])
    ensures LogOutcome(c, bodies, tail, frames)
      == LogOutcome(c, bodies[j..], tail, frames + Decoded(c, bodies[..j]))
  {
    hide Decoded;
    LeadingSplit(bodies, j);
    var k := Leading(bodies[j..]);
    assert bodies == bodies[..j] + bodies[j..] && bodies[..j + k] == bodies[..j] + bodies[j..][..k];
    DecodedConcat(c, bodies[..j], bodies[j..]);
    DecodedConcat(c, bodies[..j], bodies[j..][..k]);
    Associate(frames, Decoded(c, bodies[..j]), Decoded(c, bodies[j..]));
    Associate(frames, Decoded(c, bodies[..j]), Decoded(c, bodies[j..][..k]));
  }

  lemma {:induction false} ReplayLogFrom(c: Cipher, file: seq<byte>, ask: nat -> nat, turn: nat, pos: nat, held: seq<byte>,
                                         frames: seq<seq<byte>>, bodies: seq<seq<byte>>, tail: seq<byte>, last: seq<byte>)
    requires pos <= |file| && |held| <= REPLAY_BUFFER
    requires AllPlausible(bodies) && Torn(tail, last) && held + file[pos..] == Records(bodies) + tail
    requires bodies != [] ==> |held| < |Record(bodies[0])|
    ensures ReplayFrom(c, file, ask, turn, pos, held, frames) == LogOutcome(c, bodies, tail, frames)
    decreases |file| - pos
  {
    hide Chunk, Records, Record, Decoded, Torn, LogOutcome, ReplayFrom;
    if |held| == REPLAY_BUFFER {
      FullTurn(c, file, ask, turn, pos, held, frames);
      FullBuffer(c, file, pos, held, frames, bodies, tail);
    } else {
      var n := ReadSize(ask(turn), REPLAY_BUFFER - |held|, |file| - pos);
      var buf := held + file[pos..pos + n];
      Advance(held, file, pos, n, Records(bodies) + tail);
      var j := ChunkOfLog(c, bodies, tail, last, buf);
      var a := Records(bodies[..j]);
      Turn(c, file, ask, turn, pos, held, frames, n, buf, |a|, Decoded(c, bodies[..j]));
      RecordsSplit(bodies, j);
      Associate(a, Records(bodies[j..]), tail);
      TogetherFit(bodies[..j]);
      OutcomeSplit(c, bodies, tail, frames, j);
      if pos == |file| {
        assert buf == held && held + [] == held;
        WholeHeld(c, held, frames, bodies, tail, j);
      } else {
        DropFront(buf, file[pos + n..], a, Records(bodies[j..]) + tail);
        ReplayLogFrom(c, file, ask, turn + 1, pos + n, buf[|a|..], frames + Decoded(c, bodies[..j]), bodies[j..], tail, last);
      }
    }
  }

  /** A full buffer without a complete record in it. */
  lemma FullBuffer(c: Cipher, file: seq<byte>, pos: nat, held: seq<byte>, frames: seq<seq<byte>>,
                   bodies: seq<seq<byte>>, tail: seq<byte>)
    requires pos <= |file| && |held| == REPLAY_BUFFER && held + file[pos..] == Records(bodies) + tail
    requires bodies != [] ==> |held| < |Record(bodies[0])|
    ensures LogOutcome(c, bodies, tail, frames) == Stalled(frames)
  {
    DecodedNone(c);
    assert frames + [] == frames;
    if bodies == [] {
      assert Records(bodies) + tail == tail;
    } else {
      assert bodies[..0] == [];
    }
  }

  /** At the end of the file, nothing is left but the torn record. */
  lemma WholeHeld(c: Cipher, held: seq<byte>, frames: seq<seq<byte>>, bodies: seq<seq<byte>>, tail: seq<byte>, j: nat)
    requires |held| < REPLAY_BUFFER && held == Records(bodies) + tail && j <= |bodies|
    requires bodies != [] ==> |held| < |Record(bodies[0])|
    ensures bodies == [] && LogOutcome(c, bodies, tail, frames) == Ended(frames + Decoded(c, bodies[..j]))
  {
    RecordsUnfold(bodies);
    assert bodies == [] ==> Records(bodies) + tail == tail;
  }

  /** The replay of any log, whatever the chunking. */
  lemma ReplayLog(c: Cipher, bodies: seq<seq<byte>>, tail: seq<byte>, last: seq<byte>, ask: nat -> nat)
    requires AllPlausible(bodies) && Torn(tail, last)
    ensures Replayed(c, Records(bodies) + tail, ask) == LogOutcome(c, bodies, tail, [])
  {
    hide Records, LogOutcome, ReplayFrom, Torn;
    var file := Records(bodies) + tail;
    assert [] + file[0..] == file;
    if bodies != [] {
      RecordSize(bodies[0]);
    }
    ReplayLogFrom(c, file, ask, 0, 0, [], [], bodies, tail, last);
  }

  /** Records that fit, with any proper prefix of one more behind them that does not fill the buffer, replay to exactly
      the complete records, in order; and the replay ends. */
  lemma WholeLogReplays(c: Cipher, bodies: seq<seq<byte>>, tail: seq<byte>, last: seq<byte>, ask: nat -> nat)
    requires AllFit(bodies) && Torn(tail, last) && |tail| < REPLAY_BUFFER
    ensures Replayed(c, Records(bodies) + tail, ask) == Ended(Decoded(c, bodies))
  {
    hide Records, Decoded, Torn, Replayed;
    ReplayLog(c, bodies, tail, last, ask);
    assert [] + Decoded(c, bodies) == Decoded(c, bodies);
  }

  /** The replay of a log reaches the end exactly when every record fits the buffer and the torn one does not fill it;
      otherwise the records before the first that does not fit are all it ever hands over. */
  lemma ReplayEndsIff(c: Cipher, bodies: seq<seq<byte>>, tail: seq<byte>, last: seq<byte>, ask: nat -> nat)
    requires AllPlausible(bodies) && Torn(tail, last)
    ensures Replayed(c, Records(bodies) + tail, ask).Ended? <==> AllFit(bodies) && |tail| < REPLAY_BUFFER
    ensures Replayed(c, Records(bodies) + tail, ask).Stalled? ==>
      Replayed(c, Records(bodies) + tail, ask).frames == Decoded(c, bodies[..Leading(bodies)])
  {
    hide Records, Decoded, Torn, Replayed;
    ReplayLog(c, bodies, tail, last, ask);
    assert forall d: seq<seq<byte>> :: [] + d == d;
  }
}
