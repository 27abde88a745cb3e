/** The backfill worker: the records of one topic, counted over a replayed log and sent again. */
module Backfill {
  import opened Bytes
  import opened Frames
  import Topics
  import opened Publishing
  import opened Routing

  // ---- The worker -------------------------------------------------------------------------------------------------

  /** A replayed record that counts for the topic. */
  predicate Counts(record: seq<byte>, topic: Text)
  {
    && ParseFrame(record).Ok?
    && ParseFrame(record).value.command == CMD_PUBLISH
    && TopicOf(ParseFrame(record).value) == topic
  }

  function OfTopic(records: seq<seq<byte>>, topic: Text): seq<seq<byte>>
  {
    if records == [] then []
    else
      var init, last := OfTopic(records[..|records| - 1], topic), records[|records| - 1];
      if Counts(last, topic) then init + [last] else init
  }

  /** A replayed record's own expiry, from the clock at its replay. */
  function ReplayExpiry(record: seq<byte>, now: int): int
  {
    match ParseFrame(record)
    case Err(_) => 0
    case Ok(f) => match Topics.ParsePublishTopic(f.payload).0 case None => 0 case Some(ms) => now + 1_000_000 * ms
  }

  /** The message the k-th record of the topic is sent as: a plain publish of the topic with offset k. */
  function Resent(record: seq<byte>, topic: Text, k: nat, now: int): Message
  {
    Message(Wire(CMD_PUBLISH, 0, [], topic), k, ReplayExpiry(record, now))
  }

  /** Records start+1 to end of the topic, numbered from 1, as far as the log goes; the clock reads now(k) at record k. */
  function Window(mine: seq<seq<byte>>, topic: Text, start: nat, end: nat, now: nat -> int): (r: seq<Message>)
    ensures |r| == Max(0, Min(end, |mine|) - start)
    ensures forall i :: 0 <= i < |r| ==> r[i] == Resent(mine[start + i], topic, start + 1 + i, now(start + 1 + i))
  {
    if mine == [] then []
    else
      var init := Window(mine[..|mine| - 1], topic, start, end, now);
      if start < |mine| <= end then init + [Resent(mine[|mine| - 1], topic, |mine|, now(|mine|))] else init
  }

  /** A record of a plain publish is sent again as the frame its live subscribers were given, under its number, and with
      the TTL of its payload counted from its replay. */
  lemma ResentIs(f: Frame, topic: Text, k: nat, now: int)
    requires Carriable(f)
    ensures Counts(WireOf(f), topic) <==> f.command == CMD_PUBLISH && TopicOf(f) == topic
    ensures Counts(WireOf(f), topic) ==>
      Resent(WireOf(f), topic, k, now)
      == Message(LocalFrame(f), k, if PayloadTTL(f).Some? then now + 1_000_000 * PayloadTTL(f).value else 0)
  {
    hide ParseFrame, Wire, Topics.ParsePublishTopic;
    ParseWire(f, []);
    assert WireOf(f) + [] == WireOf(f);
  }

  /** The plain publishes of a topic among some frames. */
  function PlainOf(fs: seq<Frame>, topic: Text): (r: seq<Frame>)
    ensures forall i :: 0 <= i < |r| ==> r[i] in fs && r[i].command == CMD_PUBLISH && TopicOf(r[i]) == topic
  {
    if fs == [] then []
    else
      var init, last := PlainOf(fs[..|fs| - 1], topic), fs[|fs| - 1];
      if last.command == CMD_PUBLISH && TopicOf(last) == topic then init + [last] else init
  }

  lemma {:induction false} OfTopicWires(fs: seq<Frame>, topic: Text)
    requires forall i :: 0 <= i < |fs| ==> Carriable(fs[i])
    ensures OfTopic(WireAll(fs), topic) == WireAll(PlainOf(fs, topic))
  {
    hide Carriable, WireOf, Counts, TopicOf;
    if fs != [] {
      var init, last := fs[..|fs| - 1], fs[|fs| - 1];
      OfTopicWires(init, topic);
      ResentIs(last, topic, 0, 0);
      assert WireAll(fs)[..|fs| - 1] == WireAll(init);
      var mine := PlainOf(init, topic);
      assert (mine + [last])[..|mine|] == mine;
    }
  }

  /** Over a log of any frames, the backfill sends the plain publishes of the topic that are numbered start+1 to end among
      them, in order, each as the frame its live subscribers were given and under its number. */
  lemma BackfillSends(fs: seq<Frame>, topic: Text, start: nat, end: nat, now: nat -> int, i: nat)
    requires forall j :: 0 <= j < |fs| ==> Carriable(fs[j])
    requires start + i < Min(end, |PlainOf(fs, topic)|)
    ensures var sent := Window(OfTopic(WireAll(fs), topic), topic, start, end, now);
      && |sent| == Min(end, |PlainOf(fs, topic)|) - start
      && sent[i].frame == LocalFrame(PlainOf(fs, topic)[start + i]) && sent[i].offset == start + 1 + i
  {
    hide WireOf, Window, OfTopic, LocalFrame, Resent, WireAll, PlainOf, Carriable, TopicOf, Counts, PayloadTTL;
    var f := PlainOf(fs, topic)[start + i];
    var j :| 0 <= j < |fs| && fs[j] == f;
    OfTopicWires(fs, topic);
    ResentIs(f, topic, start + 1 + i, now(start + 1 + i));
  }

  /** runBackfillWorker over the records a replay hands it: the topic's records are counted, and those whose number lies
      in (start, end] are sent, in order, under that number. */
  method RunBackfillWorker(records: seq<seq<byte>>, topic: Text, startOffset: nat, endOffset: nat, now: nat -> int)
    returns (sent: seq<Message>)
    ensures sent == Window(OfTopic(records, topic), topic, startOffset, endOffset, now)
  {
    hide ParseFrame, TopicOf, ReplayExpiry;
    sent := [];
    var currentMsgOffset: nat := 0;
    assert records[..0] == [];
    for i := 0 to |records|
      invariant currentMsgOffset == |OfTopic(records[..i], topic)|
      invariant sent == Window(OfTopic(records[..i], topic), topic, startOffset, endOffset, now)
    {
      assert records[..i + 1][..i] == records[..i];
      var parsed := ParseFrame(records[i]);
      if parsed.Err? {
        continue;
      }
      var frame := parsed.value;
      if frame.command == CMD_PUBLISH && TopicOf(frame) == topic {
        ghost var mine := OfTopic(records[..i], topic);
        assert (mine + [records[i]])[..|mine|] == mine;
        currentMsgOffset := currentMsgOffset + 1;
        if currentMsgOffset > startOffset && currentMsgOffset <= endOffset {
          sent := sent + [Resent(records[i], topic, currentMsgOffset, now(currentMsgOffset))];
        }
      }
    }
    assert records[..|records|] == records;
  }
}
