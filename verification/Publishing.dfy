/** The publish paths: topic, priority, offset, recipients and queues; one message at a time and as a batch. */
module Publishing {
  import opened Bytes
  import opened Frames
  import Extensions
  import Topics
  import opened Fifo
  import opened Routing

  const MAX_PAYLOAD_SIZE: nat := 0x10_0000

  /** What a subscriber queue holds for one message. */
  datatype Message = Message(frame: seq<byte>, offset: nat, expiresAt: int)

  /** One enqueue: who, at which priority, which message of which topic. */
  datatype Delivery = Delivery(slot: nat, level: nat, topic: Text, offset: nat)

  datatype Config = Config(queueSize: nat, policy: Policy, priorityTTLs: seq<nat>)

  /** The router's state, for queues of M; `sent` is the history of enqueues. */
  datatype Broker<M> = Broker(table: Table, offsets: map<Text, nat>, queues: seq<seq<seq<M>>>, sent: seq<Delivery>)

  predicate WellFormed<M>(b: Broker<M>)
  {
    |b.queues| == Size(b.table) && forall i :: 0 <= i < |b.queues| ==> |b.queues[i]| == LEVELS
  }

  /** The state after some enqueues, and the slots that overflowed under the disconnect policy. */
  datatype Dispatched<M> = Dispatched(b: Broker<M>, gone: seq<nat>)

  function LastOffset<M>(b: Broker<M>, topic: Text): nat { if topic in b.offsets then b.offsets[topic] else 0 }

  /** nextTopicOffset. */
  function NextOffset<M>(b: Broker<M>, topic: Text): nat { (LastOffset(b, topic) + 1) % U64 }

  function EnqueueOne<M>(c: Config, d: Dispatched<M>, slot: nat, level: nat, m: M, topic: Text, offset: nat): Dispatched<M>
  {
    var b := d.b;
    if slot >= |b.queues| || level >= |b.queues[slot]| then d
    else
      var r := Push(b.queues[slot][level], m, c.queueSize, c.policy);
      Dispatched(b.(queues := b.queues[slot := b.queues[slot][level := r.queue]],
                    sent := b.sent + [Delivery(slot, level, topic, offset)]),
                 if r.disconnect then d.gone + [slot] else d.gone)
  }

  function EnqueueAll<M>(c: Config, d: Dispatched<M>, ts: seq<nat>, level: nat, m: M, topic: Text, offset: nat): Dispatched<M>
  {
    if ts == [] then d
    else EnqueueOne(c, EnqueueAll(c, d, ts[..|ts| - 1], level, m, topic, offset), ts[|ts| - 1], level, m, topic, offset)
  }

  /** One message to its recipients: the offset is drawn, the groups move on, every target is enqueued to. */
  function Dispatch<M>(c: Config, d: Dispatched<M>, topic: Text, level: nat, m: M): Dispatched<M>
  {
    var b := d.b;
    var b1 := b.(offsets := b.offsets[topic := NextOffset(b, topic)], table := AfterDispatch(b.table, topic));
    EnqueueAll(c, d.(b := b1), Targets(b.table, topic), level, m, topic, NextOffset(b, topic))
  }

  function DisconnectAll<M>(b: Broker<M>, gone: seq<nat>): Broker<M>
    decreases gone
  {
    if gone == [] then b else DisconnectAll(b.(table := Deactivate(b.table, gone[0])), gone[1..])
  }

  function LevelOf(f: Frame): (p: nat)
    ensures p < LEVELS
  {
    if f.HasExtensions() then Extensions.PriorityOf(f.extensions) else Extensions.DEFAULT_PRIORITY
  }

  function TopicOf(f: Frame): Text { Topics.ParsePublishTopic(f.payload).1 }

  /** The expiry: the priority's TTL when there is one, else the payload's, else none. */
  function ExpiryOf(c: Config, f: Frame, now: int): int
  {
    var level := LevelOf(f);
    if level < |c.priorityTTLs| && c.priorityTTLs[level] > 0 then now + c.priorityTTLs[level]
    else match Topics.ParsePublishTopic(f.payload).0 case None => 0 case Some(ms) => now + 1_000_000 * ms
  }

  /** The TTL in a publish payload, in milliseconds. */
  function PayloadTTL(f: Frame): Option<int> { Topics.ParsePublishTopic(f.payload).0 }

  predicate HasPriorityTTL(c: Config, f: Frame) { LevelOf(f) < |c.priorityTTLs| && c.priorityTTLs[LevelOf(f)] > 0 }

  lemma TopicShorter(f: Frame)
    ensures |TopicOf(f)| <= |f.payload|
  {
  }

  /** The frame a subscriber receives: re-serialized with the bare topic, extensions kept, no mesh bit. */
  function LocalFrame(f: Frame): seq<byte>
  {
    if f.HasExtensions() then Wire(SetExtensionsBit(CMD_PUBLISH), 0, f.extensions, TopicOf(f))
    else Wire(CMD_PUBLISH, 0, [], TopicOf(f))
  }

  /** publishLocal. */
  function PublishLocal(c: Config, b: Broker<Message>, f: Frame, now: int): Broker<Message>
  {
    if |f.payload| > MAX_PAYLOAD_SIZE then b
    else
      var m := Message(LocalFrame(f), NextOffset(b, TopicOf(f)), ExpiryOf(c, f, now));
      var d := Dispatch(c, Dispatched(b, []), TopicOf(f), LevelOf(f), m);
      DisconnectAll(d.b, d.gone)
  }

  // ---- Batches ---------------------------------------------------------------------------------------------

  /** The pieces ParseBatch visits. */
  function Pieces(buf: seq<byte>): seq<seq<byte>>
    decreases |buf|
  {
    if buf == [] then []
    else
      var r := ParseBatchFrame(buf, 0);
      if r.Err? then [] else [r.value.0] + Pieces(buf[r.value.1..])
  }

  /** One sub-frame of a batch: skipped when malformed, else dispatched as the bytes it arrived in. */
  function BatchOne(c: Config, d: Dispatched<Message>, piece: seq<byte>): Dispatched<Message>
  {
    match ParseFrame(piece)
    case Err(_) => d
    case Ok(sub) => Dispatch(c, d, TopicOf(sub), LevelOf(sub), Message(piece, NextOffset(d.b, TopicOf(sub)), 0))
  }

  function BatchAll(c: Config, d: Dispatched<Message>, pieces: seq<seq<byte>>): Dispatched<Message>
    decreases pieces
  {
    if pieces == [] then d else BatchAll(c, BatchOne(c, d, pieces[0]), pieces[1..])
  }

  /** PublishBatch, what it does locally. */
  function PublishBatch(c: Config, b: Broker<Message>, payload: seq<byte>): Broker<Message>
  {
    if |payload| > MAX_PAYLOAD_SIZE then b
    else
      var d := BatchAll(c, Dispatched(b, []), Pieces(payload));
      DisconnectAll(d.b, d.gone)
  }

  /** publishLocal of each frame in order; the clock may move between them. */
  function PublishEach(c: Config, b: Broker<Message>, fs: seq<Frame>, now: int -> int): Broker<Message>
  {
    if fs == [] then b
    else PublishLocal(c, PublishEach(c, b, fs[..|fs| - 1], now), fs[|fs| - 1], now(|fs| - 1))
  }

  // ---- Batch refines sequence ---------------------------------------------------------------------------------

  function OffsetsOf(q: seq<Message>): (r: seq<nat>)
    ensures |r| == |q| && forall i :: 0 <= i < |q| ==> r[i] == q[i].offset
  {
    if q == [] then [] else [q[0].offset] + OffsetsOf(q[1..])
  }

  function LevelsOf(qs: seq<seq<Message>>): (r: seq<seq<nat>>)
    ensures |r| == |qs| && forall i :: 0 <= i < |qs| ==> r[i] == OffsetsOf(qs[i])
  {
    if qs == [] then [] else [OffsetsOf(qs[0])] + LevelsOf(qs[1..])
  }

  function QueuesOf(qs: seq<seq<seq<Message>>>): (r: seq<seq<seq<nat>>>)
    ensures |r| == |qs| && forall i :: 0 <= i < |qs| ==> r[i] == LevelsOf(qs[i])
  {
    if qs == [] then [] else [LevelsOf(qs[0])] + QueuesOf(qs[1..])
  }

  /** The state with each queued message reduced to its offset: recipients, priorities, offsets, counters and queue
      occupancy stay, the bytes and the expiry go. */
  function Erase(b: Broker<Message>): Broker<nat>
  {
    Broker(b.table, b.offsets, QueuesOf(b.queues), b.sent)
  }

  function EraseD(d: Dispatched<Message>): Dispatched<nat> { Dispatched(Erase(d.b), d.gone) }

  lemma ErasePush(q: seq<Message>, m: Message, cap: nat, policy: Policy)
    ensures OffsetsOf(Push(q, m, cap, policy).queue) == Push(OffsetsOf(q), m.offset, cap, policy).queue
    ensures Push(q, m, cap, policy).disconnect == Push(OffsetsOf(q), m.offset, cap, policy).disconnect
  {
  }

  lemma EraseOne(c: Config, d: Dispatched<Message>, slot: nat, level: nat, m: Message, topic: Text)
    ensures EraseD(EnqueueOne(c, d, slot, level, m, topic, m.offset))
      == EnqueueOne(c, EraseD(d), slot, level, m.offset, topic, m.offset)
  {
    var b := d.b;
    if slot < |b.queues| && level < |b.queues[slot]| {
      var q := b.queues[slot][level];
      ErasePush(q, m, c.queueSize, c.policy);
      var r := Push(q, m, c.queueSize, c.policy);
      var e := Push(OffsetsOf(q), m.offset, c.queueSize, c.policy);
      var qs' := b.queues[slot := b.queues[slot][level := r.queue]];
      assert LevelsOf(b.queues[slot][level := r.queue]) == LevelsOf(b.queues[slot])[level := e.queue];
      assert QueuesOf(qs') == QueuesOf(b.queues)[slot := LevelsOf(b.queues[slot])[level := e.queue]];
    }
  }

  lemma {:induction false} EraseAll(c: Config, d: Dispatched<Message>, ts: seq<nat>, level: nat, m: Message, topic: Text)
    ensures EraseD(EnqueueAll(c, d, ts, level, m, topic, m.offset))
      == EnqueueAll(c, EraseD(d), ts, level, m.offset, topic, m.offset)
  {
    hide EnqueueOne, EraseD;
    if ts != [] {
      EraseAll(c, d, ts[..|ts| - 1], level, m, topic);
      EraseOne(c, EnqueueAll(c, d, ts[..|ts| - 1], level, m, topic, m.offset), ts[|ts| - 1], level, m, topic);
    }
  }

  lemma EraseDispatch(c: Config, d: Dispatched<Message>, topic: Text, level: nat, m: Message)
    requires m.offset == NextOffset(d.b, topic)
    ensures EraseD(Dispatch(c, d, topic, level, m)) == Dispatch(c, EraseD(d), topic, level, m.offset)
  {
    hide EnqueueAll, Targets, AfterDispatch;
    var b := d.b;
    var b1 := b.(offsets := b.offsets[topic := NextOffset(b, topic)], table := AfterDispatch(b.table, topic));
    EraseAll(c, d.(b := b1), Targets(b.table, topic), level, m, topic);
  }

  /** Enqueueing only adds to the slots to disconnect, and under the drop policies adds none. */
  lemma {:induction false} GoneGrows<M>(c: Config, d: Dispatched<M>, ts: seq<nat>, level: nat, m: M, topic: Text, offset: nat)
    ensures d.gone <= EnqueueAll(c, d, ts, level, m, topic, offset).gone
    ensures c.policy != Disconnect ==> EnqueueAll(c, d, ts, level, m, topic, offset).gone == d.gone
  {
    if ts != [] {
      GoneGrows(c, d, ts[..|ts| - 1], level, m, topic, offset);
    }
  }

  lemma BatchOneGone(c: Config, d: Dispatched<Message>, piece: seq<byte>)
    ensures d.gone <= BatchOne(c, d, piece).gone
    ensures c.policy != Disconnect ==> BatchOne(c, d, piece).gone == d.gone
  {
    hide EnqueueAll, Targets, AfterDispatch, ParseFrame, LevelOf, TopicOf;
    var r := ParseFrame(piece);
    if r.Ok? {
      var b, topic := d.b, TopicOf(r.value);
      var m := Message(piece, NextOffset(b, topic), 0);
      var b1 := b.(offsets := b.offsets[topic := m.offset], table := AfterDispatch(b.table, topic));
      GoneGrows(c, d.(b := b1), Targets(b.table, topic), LevelOf(r.value), m, topic, m.offset);
    }
  }

  /** The slots a batch disconnects in the end. */
  function BatchGone(c: Config, b: Broker<Message>, payload: seq<byte>): seq<nat>
  {
    BatchAll(c, Dispatched(b, []), Pieces(payload)).gone
  }

  lemma {:induction false} BatchAllGone(c: Config, d: Dispatched<Message>, pieces: seq<seq<byte>>)
    ensures c.policy != Disconnect ==> BatchAll(c, d, pieces).gone == d.gone
    decreases pieces
  {
    hide BatchOne;
    if pieces != [] {
      BatchOneGone(c, d, pieces[0]);
      BatchAllGone(c, BatchOne(c, d, pieces[0]), pieces[1..]);
    }
  }

  /** Under the two drop policies no batch disconnects anybody. */
  lemma DropPoliciesKeepAll(c: Config, b: Broker<Message>, payload: seq<byte>)
    requires c.policy != Disconnect
    ensures BatchGone(c, b, payload) == []
  {
    BatchAllGone(c, Dispatched(b, []), Pieces(payload));
  }

  /** The erased effect of one publish frame, however it arrives. */
  function DispatchErased(c: Config, e: Broker<nat>, f: Frame): Dispatched<nat>
  {
    Dispatch(c, Dispatched(e, []), TopicOf(f), LevelOf(f), NextOffset(e, TopicOf(f)))
  }

  lemma LocalErased(c: Config, b: Broker<Message>, f: Frame, now: int)
    requires |f.payload| <= MAX_PAYLOAD_SIZE && DispatchErased(c, Erase(b), f).gone == []
    ensures Erase(PublishLocal(c, b, f, now)) == DispatchErased(c, Erase(b), f).b
  {
    hide EnqueueAll, Targets, AfterDispatch;
    var m := Message(LocalFrame(f), NextOffset(b, TopicOf(f)), ExpiryOf(c, f, now));
    EraseDispatch(c, Dispatched(b, []), TopicOf(f), LevelOf(f), m);
  }

  lemma BatchErased(c: Config, d: Dispatched<Message>, f: Frame)
    requires Carriable(f) && d.gone == []
    ensures EraseD(BatchOne(c, d, WireOf(f))) == DispatchErased(c, Erase(d.b), f)
  {
    hide EnqueueAll, Targets, AfterDispatch, ParseFrame, WireOf, LevelOf, TopicOf;
    ParseWire(f, []);
    assert WireOf(f) + [] == WireOf(f);
    EraseDispatch(c, d, TopicOf(f), LevelOf(f), Message(WireOf(f), NextOffset(d.b, TopicOf(f)), 0));
  }

  function WireAll(fs: seq<Frame>): (r: seq<seq<byte>>)
    ensures |r| == |fs| && forall i :: 0 <= i < |fs| ==> r[i] == WireOf(fs[i])
  {
    if fs == [] then [] else WireAll(fs[..|fs| - 1]) + [WireOf(fs[|fs| - 1])]
  }

  lemma {:induction false} BatchAllSnoc(c: Config, d: Dispatched<Message>, pieces: seq<seq<byte>>, last: seq<byte>)
    ensures BatchAll(c, d, pieces + [last]) == BatchOne(c, BatchAll(c, d, pieces), last)
    decreases pieces
  {
    hide BatchOne;
    if pieces == [] {
      assert pieces + [last] == [last];
      assert BatchAll(c, d, [last]) == BatchAll(c, BatchOne(c, d, last), []);
    } else {
      assert (pieces + [last])[1..] == pieces[1..] + [last];
      BatchAllSnoc(c, BatchOne(c, d, pieces[0]), pieces[1..], last);
    }
  }

  lemma {:induction false} BatchIsEach(c: Config, b: Broker<Message>, fs: seq<Frame>, now: int -> int)
    requires forall i :: 0 <= i < |fs| ==> Carriable(fs[i]) && |fs[i].payload| <= MAX_PAYLOAD_SIZE
    requires BatchAll(c, Dispatched(b, []), WireAll(fs)).gone == []
    ensures Erase(BatchAll(c, Dispatched(b, []), WireAll(fs)).b) == Erase(PublishEach(c, b, fs, now))
  {
    hide PublishLocal, BatchOne, Erase, WireOf, Carriable, DispatchErased;
    if fs != [] {
      var init, last := fs[..|fs| - 1], fs[|fs| - 1];
      var d := BatchAll(c, Dispatched(b, []), WireAll(init));
      BatchAllSnoc(c, Dispatched(b, []), WireAll(init), WireOf(last));
      BatchOneGone(c, d, WireOf(last));
      BatchIsEach(c, b, init, now);
      BatchErased(c, d, last);
      LocalErased(c, PublishEach(c, b, init, now), last, now(|fs| - 1));
    }
  }

  lemma {:induction false} PiecesOfConcat(pieces: seq<seq<byte>>)
    requires AllWhole(pieces)
    ensures Pieces(Concat(pieces)) == pieces
  {
    if pieces != [] {
      var buf := Concat(pieces);
      assert pieces[0] <= buf && WholeFrame(pieces[0]);
      assert buf[0..] == buf;
      var r := ParseBatchFrame(buf, 0);
      assert r.Ok?;
      assert r.value.0 <= buf;
      WholeFrameUnique(pieces[0], r.value.0, buf);
      assert buf[|pieces[0]|..] == Concat(pieces[1..]);
      PiecesOfConcat(pieces[1..]);
    }
  }

  /** The pieces of any batch are whole frames, one after another from its start, and what is left behind the last starts
      no frame. */
  lemma {:induction false} PiecesAre(buf: seq<byte>)
    ensures AllWhole(Pieces(buf)) && Concat(Pieces(buf)) <= buf && NoFrameAtFront(buf[|Concat(Pieces(buf))|..])
    decreases |buf|
  {
    hide ParseBatchFrame, WholeFrame, Concat, NoFrameAtFront;
    assert buf[0..] == buf;
    ConcatCons([], []);
    if buf == [] {
      NoFrameInNone();
    } else {
      var r := ParseBatchFrame(buf, 0);
      if r.Ok? {
        var first, rest := r.value.0, buf[r.value.1..];
        PiecesAre(rest);
        assert buf == first + rest;
        ConcatCons(first, Pieces(rest));
        assert buf[|Concat(Pieces(buf))|..] == rest[|Concat(Pieces(rest))|..];
      }
    }
  }

  lemma ConcatCons(x: seq<byte>, xs: seq<seq<byte>>)
    ensures Concat([x] + xs) == x + Concat(xs) && Concat([]) == []
  {
    assert ([x] + xs)[1..] == xs;
  }

  lemma NoFrameInNone()
    ensures NoFrameAtFront([])
  {
  }

  lemma {:induction false} BatchAllConcat(c: Config, d: Dispatched<Message>, a: seq<seq<byte>>, b: seq<seq<byte>>)
    ensures BatchAll(c, d, a + b) == BatchAll(c, BatchAll(c, d, a), b)
    decreases a
  {
    hide BatchOne;
    if a == [] {
      assert a + b == b;
    } else {
      assert (a + b)[1..] == a[1..] + b;
      BatchAllConcat(c, BatchOne(c, d, a[0]), a[1..], b);
    }
  }

  /** A sub-frame that does not parse is as if it were not there; the ones around it are published. */
  lemma MalformedSkipped(c: Config, d: Dispatched<Message>, a: seq<seq<byte>>, bad: seq<byte>, b: seq<seq<byte>>)
    requires ParseFrame(bad).Err?
    ensures BatchAll(c, d, a + [bad] + b) == BatchAll(c, d, a + b)
  {
    hide ParseFrame, Dispatch, TopicOf, LevelOf;
    BatchAllConcat(c, d, a + [bad], b);
    BatchAllSnoc(c, d, a, bad);
    BatchAllConcat(c, d, a, b);
  }

  lemma PieceFits(pieces: seq<seq<byte>>, i: nat)
    requires i < |pieces|
    ensures |pieces[i]| <= |Concat(pieces)|
    decreases pieces
  {
    if i > 0 {
      PieceFits(pieces[1..], i - 1);
      assert pieces[i] == pieces[1..][i - 1];
    }
  }

  /** A batch is its messages one after another: unless it disconnects somebody, publishing the concatenation of any
      frames as a batch gives the same recipients, priorities, offsets, group counters and queue occupancy as
      publishing each frame in order. */
  lemma BatchRefinesSequence(c: Config, b: Broker<Message>, fs: seq<Frame>, now: int -> int)
    requires forall i :: 0 <= i < |fs| ==> Carriable(fs[i])
    requires |Concat(WireAll(fs))| <= MAX_PAYLOAD_SIZE
    requires BatchGone(c, b, Concat(WireAll(fs))) == []
    ensures Erase(PublishBatch(c, b, Concat(WireAll(fs)))) == Erase(PublishEach(c, b, fs, now))
  {
    hide PublishLocal, BatchOne, Erase, PublishEach, BatchAll, Pieces;
    forall i | 0 <= i < |fs|
      ensures WholeFrame(WireAll(fs)[i]) && |fs[i].payload| <= MAX_PAYLOAD_SIZE
    {
      WireIsWhole(fs[i]);
      PieceFits(WireAll(fs), i);
    }
    PiecesOfConcat(WireAll(fs));
    BatchIsEach(c, b, fs, now);
  }

  // ---- Batch equals sequence ------------------------------------------------------------------------------------------

  /** A publish as the broker itself would write it: stream 0, no mesh bit, nothing to strip from the topic. */
  predicate Bare(f: Frame)
  {
    && f.command == (if f.HasExtensions() then SetExtensionsBit(CMD_PUBLISH) else CMD_PUBLISH)
    && f.streamID == 0 && Topics.Settled(f.payload)
  }

  /** A batch passes a frame on in the bytes it came in; those are the ones a single publish would have written exactly
      when the frame is bare. */
  lemma SameBytesIff(f: Frame)
    requires Carriable(f)
    ensures WireOf(f) == LocalFrame(f) <==> Bare(f)
  {
    hide ParseFrame, Wire, SealedBlock;
    Topics.SettledIff(f.payload);
    TopicShorter(f);
    var g := Frame(if f.HasExtensions() then SetExtensionsBit(CMD_PUBLISH) else CMD_PUBLISH, 0, TopicOf(f), f.extensions);
    assert LocalFrame(f) == WireOf(g);
    ParseWire(f, []);
    ParseWire(g, []);
    assert WireOf(f) + [] == WireOf(f) && WireOf(g) + [] == WireOf(g);
  }

  /** A subscriber gets the same message, bytes, offset and expiry, from a batch as from a single publish exactly when the
      frame is bare and its priority sets no expiry. */
  lemma SameMessageIff(c: Config, f: Frame, offset: nat, now: int)
    requires Carriable(f)
    ensures Message(WireOf(f), offset, 0) == Message(LocalFrame(f), offset, ExpiryOf(c, f, now)) <==>
      Bare(f) && (HasPriorityTTL(c, f) ==> now + c.priorityTTLs[LevelOf(f)] == 0)
  {
    hide LocalFrame, WireOf, Topics.ParsePublishTopic;
    SameBytesIff(f);
    Topics.SettledIff(f.payload);
  }

  ghost predicate AllBare(c: Config, fs: seq<Frame>)
  {
    forall i :: 0 <= i < |fs| ==> Carriable(fs[i]) && Bare(fs[i]) && !HasPriorityTTL(c, fs[i])
  }

  lemma OneEquals(c: Config, b: Broker<Message>, f: Frame, now: int)
    requires Carriable(f) && Bare(f) && !HasPriorityTTL(c, f) && |f.payload| <= MAX_PAYLOAD_SIZE
    requires BatchOne(c, Dispatched(b, []), WireOf(f)).gone == []
    ensures BatchOne(c, Dispatched(b, []), WireOf(f)) == Dispatched(PublishLocal(c, b, f, now), [])
  {
    hide ParseFrame, LocalFrame, WireOf, Dispatch, TopicOf, LevelOf, ExpiryOf, Carriable, Bare, HasPriorityTTL;
    ParseWire(f, []);
    assert WireOf(f) + [] == WireOf(f);
    SameMessageIff(c, f, NextOffset(b, TopicOf(f)), now);
  }

  lemma {:induction false} BatchIsEqual(c: Config, b: Broker<Message>, fs: seq<Frame>, now: int -> int)
    requires AllBare(c, fs) && forall i :: 0 <= i < |fs| ==> |fs[i].payload| <= MAX_PAYLOAD_SIZE
    requires BatchAll(c, Dispatched(b, []), WireAll(fs)).gone == []
    ensures BatchAll(c, Dispatched(b, []), WireAll(fs)) == Dispatched(PublishEach(c, b, fs, now), [])
  {
    hide PublishLocal, BatchOne, WireOf, Carriable, Bare, HasPriorityTTL;
    if fs != [] {
      var init, last := fs[..|fs| - 1], fs[|fs| - 1];
      var d := BatchAll(c, Dispatched(b, []), WireAll(init));
      BatchAllSnoc(c, Dispatched(b, []), WireAll(init), WireOf(last));
      BatchOneGone(c, d, WireOf(last));
      BatchIsEqual(c, b, init, now);
      OneEquals(c, PublishEach(c, b, init, now), last, now(|fs| - 1));
    }
  }

  /** For bare frames without a priority expiry, a batch that disconnects nobody leaves the very state that publishing
      its frames in order does, every queued message included. */
  lemma BatchEqualsSequence(c: Config, b: Broker<Message>, fs: seq<Frame>, now: int -> int)
    requires AllBare(c, fs) && |Concat(WireAll(fs))| <= MAX_PAYLOAD_SIZE
    requires BatchGone(c, b, Concat(WireAll(fs))) == []
    ensures PublishBatch(c, b, Concat(WireAll(fs))) == PublishEach(c, b, fs, now)
  {
    hide PublishLocal, BatchOne, PublishEach, BatchAll, Pieces, Bare, HasPriorityTTL;
    forall i | 0 <= i < |fs|
      ensures WholeFrame(WireAll(fs)[i]) && |fs[i].payload| <= MAX_PAYLOAD_SIZE
    {
      WireIsWhole(fs[i]);
      PieceFits(WireAll(fs), i);
    }
    PiecesOfConcat(WireAll(fs));
    BatchIsEqual(c, b, fs, now);
  }
}
