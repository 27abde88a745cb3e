/** What one publish does to the subscribers: exactly the scan's recipients are enqueued to, nobody else is touched. */
module Deliveries {
  import opened Bytes
  import opened Frames
  import opened Fifo
  import opened Routing
  import opened Publishing
  import Extensions
  import Wildcard

  /** One delivery per recipient, in order. */
  function ToAll(ts: seq<nat>, level: nat, topic: Text, offset: nat): seq<Delivery>
  {
    if ts == [] then [] else ToAll(ts[..|ts| - 1], level, topic, offset) + [Delivery(ts[|ts| - 1], level, topic, offset)]
  }

  predicate InRange(ts: seq<nat>, n: nat) { forall k :: 0 <= k < |ts| ==> ts[k] < n }

  /** A message pushed n times. */
  function PushTimes<M>(c: Config, q: seq<M>, m: M, n: nat): seq<M>
  {
    if n == 0 then q else Push(PushTimes(c, q, m, n - 1), m, c.queueSize, c.policy).queue
  }

  function Occurs(ts: seq<nat>, slot: nat): nat { multiset(ts)[slot] }

  lemma OccursSnoc(ts: seq<nat>, x: nat, slot: nat)
    ensures Occurs(ts + [x], slot) == Occurs(ts, slot) + if x == slot then 1 else 0
  {
  }

  lemma OccursNone(slot: nat)
    ensures Occurs([], slot) == 0
  {
  }

  lemma EnqueueOneSends<M>(c: Config, d: Dispatched<M>, slot: nat, level: nat, m: M, topic: Text, offset: nat)
    requires WellFormed(d.b) && level < LEVELS && slot < Size(d.b.table)
    ensures var b := EnqueueOne(c, d, slot, level, m, topic, offset).b;
      && WellFormed(b) && b.table == d.b.table && b.offsets == d.b.offsets
      && b.sent == d.b.sent + [Delivery(slot, level, topic, offset)]
      && forall i, l :: 0 <= i < |b.queues| && 0 <= l < LEVELS ==>
        b.queues[i][l] == if i == slot && l == level then Push(d.b.queues[i][l], m, c.queueSize, c.policy).queue
                          else d.b.queues[i][l]
  {
  }

  lemma {:induction false} EnqueueAllSends<M>(c: Config, d: Dispatched<M>, ts: seq<nat>, level: nat, m: M, topic: Text, offset: nat)
    requires WellFormed(d.b) && level < LEVELS && InRange(ts, Size(d.b.table))
    ensures var b := EnqueueAll(c, d, ts, level, m, topic, offset).b;
      && WellFormed(b) && b.table == d.b.table && b.offsets == d.b.offsets
      && b.sent == d.b.sent + ToAll(ts, level, topic, offset)
      && forall i, l :: 0 <= i < |b.queues| && 0 <= l < LEVELS ==>
        b.queues[i][l] == if l == level then PushTimes(c, d.b.queues[i][l], m, Occurs(ts, i)) else d.b.queues[i][l]
  {
    hide EnqueueOne, Occurs, Push;
    if ts == [] {
      forall i: nat ensures Occurs(ts, i) == 0 { OccursNone(i); }
      assert d.b.sent + [] == d.b.sent;
    } else {
      var init, x := ts[..|ts| - 1], ts[|ts| - 1];
      EnqueueAllSends(c, d, init, level, m, topic, offset);
      EnqueueOneSends(c, EnqueueAll(c, d, init, level, m, topic, offset), x, level, m, topic, offset);
      assert init + [x] == ts;
      forall i: nat ensures Occurs(ts, i) == Occurs(init, i) + if x == i then 1 else 0 { OccursSnoc(init, x, i); }
    }
  }

  lemma {:induction false} DisconnectKeeps<M>(b: Broker<M>, gone: seq<nat>)
    ensures var r := DisconnectAll(b, gone); r.queues == b.queues && r.sent == b.sent && r.offsets == b.offsets
    decreases gone
  {
    if gone != [] {
      DisconnectKeeps(b.(table := Deactivate(b.table, gone[0])), gone[1..]);
    }
  }

  lemma SlotsInRange(n: nat, f: nat -> bool)
    ensures InRange(Slots(n, f), n)
  {
    forall k | 0 <= k < |Slots(n, f)| ensures Slots(n, f)[k] < n {
      SlotsContain(n, f, Slots(n, f)[k]);
    }
  }

  /** The recipients of the scan. */
  function Recipients(t: Table, topic: Text): seq<nat>
  {
    ScanExact(t, topic) + ScanWild(t, topic) + Picks(t, Get(t.groups, topic))
  }

  lemma RecipientsInRange(t: Table, topic: Text)
    requires Exact(t)
    ensures Targets(t, topic) == Recipients(t, topic) && InRange(Recipients(t, topic), Size(t))
  {
    hide Slots, IndexExact, WildcardsExact, GroupsExact;
    TargetsAreScan(t, topic);
    SlotsInRange(Size(t), (i: nat) => Alone(t, topic, i) && i < |t.active| && t.active[i]);
    SlotsInRange(Size(t),
      (i: nat) => Wild(t, i) && i < |t.active| && t.active[i] && Wildcard.Matches(t.topics[i], topic));
  }

  /** n more messages than the queue has room for, under the policy that disconnects. */
  predicate Overflows<M>(c: Config, q: seq<M>, n: nat) { c.policy == Disconnect && n > 0 && |q| + n > c.queueSize }

  lemma {:induction false} PushTimesSize<M>(c: Config, q: seq<M>, m: M, n: nat)
    requires c.policy == Disconnect
    ensures |PushTimes(c, q, m, n)| == if |q| >= c.queueSize then |q| else Min(|q| + n, c.queueSize)
  {
    if n > 0 {
      PushTimesSize(c, q, m, n - 1);
    }
  }

  /** The slots an enqueue run notes for disconnection are those that overflow. */
  lemma {:induction false} EnqueueAllGone<M>(c: Config, d: Dispatched<M>, ts: seq<nat>, level: nat, m: M, topic: Text, offset: nat, i: nat)
    requires WellFormed(d.b) && level < LEVELS && InRange(ts, Size(d.b.table)) && i < Size(d.b.table)
    ensures i in EnqueueAll(c, d, ts, level, m, topic, offset).gone
      <==> i in d.gone || Overflows(c, d.b.queues[i][level], Occurs(ts, i))
  {
    hide Occurs, PushTimes;
    if ts == [] {
      OccursNone(i);
    } else {
      var init, x := ts[..|ts| - 1], ts[|ts| - 1];
      EnqueueAllGone(c, d, init, level, m, topic, offset, i);
      EnqueueAllSends(c, d, init, level, m, topic, offset);
      assert init + [x] == ts;
      OccursSnoc(init, x, i);
      if c.policy == Disconnect {
        PushTimesSize(c, d.b.queues[x][level], m, Occurs(init, x));
      }
    }
  }

  /** One message through the dispatch all publish paths share: it goes to the scan's recipients in order and to nobody
      else, under the topic's next offset and at the given level; no other queue and no other offset is touched; and the
      slots noted for disconnection are those it overflows. */
  lemma DispatchSends<M>(c: Config, d: Dispatched<M>, topic: Text, level: nat, m: M)
    requires Good(d.b) && level < LEVELS
    ensures var d', off, to := Dispatch(c, d, topic, level, m), NextOffset(d.b, topic), Recipients(d.b.table, topic);
      && d'.b.table == AfterDispatch(d.b.table, topic) && WellFormed(d'.b)
      && d'.b.sent == d.b.sent + ToAll(to, level, topic, off)
      && d'.b.offsets == d.b.offsets[topic := off]
      && (forall i, l :: 0 <= i < |d.b.queues| && 0 <= l < LEVELS ==>
            d'.b.queues[i][l] == if l == level then PushTimes(c, d.b.queues[i][l], m, Occurs(to, i)) else d.b.queues[i][l])
      && (forall i: nat :: i < |d.b.queues| ==>
            (i in d'.gone <==> i in d.gone || Overflows(c, d.b.queues[i][level], Occurs(to, i))))
  {
    hide EnqueueAll, Targets, Recipients, Exact, Occurs, PushTimes, Overflows, AfterDispatch;
    var off, to := NextOffset(d.b, topic), Recipients(d.b.table, topic);
    RecipientsInRange(d.b.table, topic);
    SizeKept(d.b.table, topic);
    var d1 := d.(b := d.b.(offsets := d.b.offsets[topic := off], table := AfterDispatch(d.b.table, topic)));
    EnqueueAllSends(c, d1, to, level, m, topic, off);
    forall i: nat | i < |d.b.queues|
      ensures i in Dispatch(c, d, topic, level, m).gone <==> i in d.gone || Overflows(c, d.b.queues[i][level], Occurs(to, i))
    {
      EnqueueAllGone(c, d1, to, level, m, topic, off, i);
    }
  }

  lemma SizeKept(t: Table, q: Text)
    ensures var t' := AfterDispatch(t, q);
      Size(t') == Size(t) && t'.active == t.active && t'.streamIDs == t.streamIDs && t'.topics == t.topics && t'.subGroups == t.subGroups
  {
  }

  /** A publish sends its message, with the topic's next offset and at its priority, to the scan's recipients in
      order and to nobody else, and it touches no other queue and no other topic's offset. */
  lemma PublishSends(c: Config, b: Broker<Message>, f: Frame, now: int)
    requires Good(b) && |f.payload| <= MAX_PAYLOAD_SIZE
    ensures var b', topic, off := PublishLocal(c, b, f, now), TopicOf(f), NextOffset(b, TopicOf(f));
      var to, m := Recipients(b.table, topic), Message(LocalFrame(f), off, ExpiryOf(c, f, now));
      && b'.sent == b.sent + ToAll(to, LevelOf(f), topic, off)
      && b'.offsets == b.offsets[topic := off]
      && WellFormed(b'.(table := b.table))
      && forall i, l :: 0 <= i < |b.queues| && 0 <= l < LEVELS ==>
        b'.queues[i][l] == if l == LevelOf(f) then PushTimes(c, b.queues[i][l], m, Occurs(to, i)) else b.queues[i][l]
  {
    hide Dispatch, Recipients, Exact, Occurs, PushTimes, Overflows, LevelOf, TopicOf, LocalFrame, ExpiryOf, AfterDispatch;
    var topic, off := TopicOf(f), NextOffset(b, TopicOf(f));
    var m := Message(LocalFrame(f), off, ExpiryOf(c, f, now));
    LevelInRange(f);
    SizeKept(b.table, topic);
    DispatchSends(c, Dispatched(b, []), topic, LevelOf(f), m);
    var d := Dispatch(c, Dispatched(b, []), topic, LevelOf(f), m);
    DisconnectKeeps(d.b, d.gone);
  }

  /** A sub-frame of a batch that parses is sent, in the bytes it came in and without an expiry, to the recipients of its
      topic at its priority. */
  lemma BatchSends(c: Config, d: Dispatched<Message>, piece: seq<byte>, sub: Frame)
    requires Good(d.b) && ParseFrame(piece) == Ok(sub)
    ensures var b', topic, off := BatchOne(c, d, piece).b, TopicOf(sub), NextOffset(d.b, TopicOf(sub));
      var to := Recipients(d.b.table, topic);
      && b'.sent == d.b.sent + ToAll(to, LevelOf(sub), topic, off)
      && b'.offsets == d.b.offsets[topic := off]
      && WellFormed(b'.(table := d.b.table))
      && forall i, l :: 0 <= i < |d.b.queues| && 0 <= l < LEVELS ==>
        b'.queues[i][l] == if l == LevelOf(sub) then PushTimes(c, d.b.queues[i][l], Message(piece, off, 0), Occurs(to, i))
                           else d.b.queues[i][l]
  {
    hide Dispatch, Recipients, Exact, Occurs, PushTimes, Overflows, LevelOf, TopicOf, AfterDispatch, ParseFrame;
    LevelInRange(sub);
    SizeKept(d.b.table, TopicOf(sub));
    DispatchSends(c, d, TopicOf(sub), LevelOf(sub), Message(piece, NextOffset(d.b, TopicOf(sub)), 0));
  }

  // ---- At which priority --------------------------------------------------------------------------------------------

  /** What a list of extension entries says: the first priority entry that is not empty counts, if it is 0 to 3; else 2. */
  function EntryLevel(es: seq<Extensions.Entry>): (p: nat)
    ensures p < LEVELS
  {
    match Extensions.FirstNonEmpty(es, Extensions.EXT_PRIORITY)
    case None => 2
    case Some(v) => if |v| >= 1 && v[0] <= 3 then v[0] else 2
  }

  /** The level a frame is published at is the one its extension entries give, and 2 without extensions. */
  lemma LevelIs(f: Frame, es: seq<Extensions.Entry>)
    requires Extensions.AllFit(es) && |Extensions.Encode(es)| < U16
    ensures f.extensions == Extensions.Block(es) ==> LevelOf(f) == EntryLevel(es)
    ensures f.extensions == [] ==> LevelOf(f) == 2
  {
    hide LE, FromLE, Extensions.Find, Extensions.FirstNonEmpty, Extensions.Encode;
    Extensions.FindFirstNonEmpty(es, [], Extensions.EXT_PRIORITY);
    assert Extensions.Block(es) + [] == Extensions.Block(es);
  }

  lemma {:induction false} ToAllAt(ts: seq<nat>, level: nat, topic: Text, offset: nat)
    ensures |ToAll(ts, level, topic, offset)| == |ts|
    ensures forall i :: 0 <= i < |ts| ==> ToAll(ts, level, topic, offset)[i] == Delivery(ts[i], level, topic, offset)
  {
    if ts != [] {
      ToAllAt(ts[..|ts| - 1], level, topic, offset);
    }
  }

  /** What was added to a history is one delivery to each recipient, at this level, of this topic, under this offset. */
  ghost predicate Added(was: seq<Delivery>, now: seq<Delivery>, to: seq<nat>, level: nat, topic: Text, offset: nat)
  {
    && was <= now && |now| == |was| + |to|
    && forall i :: 0 <= i < |to| ==> now[|was| + i] == Delivery(to[i], level, topic, offset)
  }

  lemma AddedIs(was: seq<Delivery>, to: seq<nat>, level: nat, topic: Text, offset: nat)
    ensures Added(was, was + ToAll(to, level, topic, offset), to, level, topic, offset)
  {
    hide ToAll;
    ToAllAt(to, level, topic, offset);
  }

  /** A publish is delivered at the level its extension entries give, alone or in a batch. */
  lemma SentAtLevel(c: Config, b: Broker<Message>, f: Frame, es: seq<Extensions.Entry>, now: int)
    requires Good(b) && Carriable(f) && |f.payload| <= MAX_PAYLOAD_SIZE
    requires Extensions.AllFit(es) && |Extensions.Encode(es)| < U16
    requires f.extensions == Extensions.Block(es) || (f.extensions == [] && es == [])
    ensures var topic, off := TopicOf(f), NextOffset(b, TopicOf(f));
      var to := Recipients(b.table, topic);
      && Added(b.sent, PublishLocal(c, b, f, now).sent, to, EntryLevel(es), topic, off)
      && Added(b.sent, BatchOne(c, Dispatched(b, []), WireOf(f)).b.sent, to, EntryLevel(es), topic, off)
  {
    hide Recipients, Exact, LevelOf, TopicOf, PublishLocal, BatchOne, ParseFrame, Wire, Added, ToAll, Carriable, PushTimes, Occurs,
         Extensions.Encode, Extensions.Block, Extensions.AllFit;
    LevelIs(f, es);
    PublishSends(c, b, f, now);
    ParseWire(f, []);
    assert WireOf(f) + [] == WireOf(f);
    BatchSends(c, Dispatched(b, []), WireOf(f), f);
    AddedIs(b.sent, Recipients(b.table, TopicOf(f)), LevelOf(f), TopicOf(f), NextOffset(b, TopicOf(f)));
  }

  // ---- Who is disconnected ------------------------------------------------------------------------------------------

  lemma {:induction false} DisconnectGone<M>(b: Broker<M>, gone: seq<nat>)
    ensures Gone(b.table, DisconnectAll(b, gone).table, (i: nat) => i in gone)
    decreases gone
  {
    hide Deactivate;
    if gone != [] {
      DeactivateGone(b.table, gone[0]);
      DisconnectGone(b.(table := Deactivate(b.table, gone[0])), gone[1..]);
    }
  }

  /** After a publish, exactly the slots it overflowed under the disconnect policy have gone inactive. */
  lemma PublishDisconnects(c: Config, b: Broker<Message>, f: Frame, now: int, i: nat)
    requires Good(b) && |f.payload| <= MAX_PAYLOAD_SIZE && i < Size(b.table)
    ensures var t' := PublishLocal(c, b, f, now).table;
      && |t'.active| == |b.table.active| == Size(b.table)
      && (t'.active[i] <==>
            b.table.active[i] && !Overflows(c, b.queues[i][LevelOf(f)], Occurs(Recipients(b.table, TopicOf(f)), i)))
  {
    hide Dispatch, Recipients, Exact, Occurs, PushTimes, Overflows, LevelOf, TopicOf, LocalFrame, ExpiryOf, AfterDispatch;
    var m := Message(LocalFrame(f), NextOffset(b, TopicOf(f)), ExpiryOf(c, f, now));
    LevelInRange(f);
    ShapedOf(b.table);
    SizeKept(b.table, TopicOf(f));
    DispatchSends(c, Dispatched(b, []), TopicOf(f), LevelOf(f), m);
    var d := Dispatch(c, Dispatched(b, []), TopicOf(f), LevelOf(f), m);
    DisconnectGone(d.b, d.gone);
  }

  /** A batch notes the slots each of its sub-frames overflows, and they are inactive at its end. */
  lemma BatchDisconnects(c: Config, d: Dispatched<Message>, piece: seq<byte>, i: nat)
    requires Good(d.b) && ParseFrame(piece).Ok? && i < Size(d.b.table)
    ensures var sub := ParseFrame(piece).value;
      i in BatchOne(c, d, piece).gone <==>
        i in d.gone || Overflows(c, d.b.queues[i][LevelOf(sub)], Occurs(Recipients(d.b.table, TopicOf(sub)), i))
  {
    hide Dispatch, Recipients, Exact, Occurs, PushTimes, Overflows, LevelOf, TopicOf, AfterDispatch, ParseFrame;
    var sub := ParseFrame(piece).value;
    LevelInRange(sub);
    DispatchSends(c, d, TopicOf(sub), LevelOf(sub), Message(piece, NextOffset(d.b, TopicOf(sub)), 0));
  }

  lemma BatchEndGone(c: Config, b: Broker<Message>, payload: seq<byte>)
    requires Good(b) && |payload| <= MAX_PAYLOAD_SIZE
    ensures Gone(b.table, PublishBatch(c, b, payload).table, (i: nat) => i in BatchGone(c, b, payload))
  {
    hide BatchAll, Pieces, Exact;
    var d := BatchAll(c, Dispatched(b, []), Pieces(payload));
    BatchSlots(c, Dispatched(b, []), Pieces(payload));
    DisconnectGone(d.b, d.gone);
  }

  lemma {:induction false} BatchSlots(c: Config, d: Dispatched<Message>, pieces: seq<seq<byte>>)
    requires Good(d.b)
    ensures Gone(d.b.table, BatchAll(c, d, pieces).b.table, (i: nat) => false)
    decreases pieces
  {
    hide Good, Dispatch, ParseFrame, TopicOf, LevelOf;
    if pieces != [] {
      var r := ParseFrame(pieces[0]);
      var d1 := BatchOne(c, d, pieces[0]);
      if r.Ok? {
        var topic, m := TopicOf(r.value), Message(pieces[0], NextOffset(d.b, TopicOf(r.value)), 0);
        LevelInRange(r.value);
        DispatchGood(c, d, topic, LevelOf(r.value), m);
        DispatchSlots(c, d, topic, LevelOf(r.value), m);
      }
      BatchSlots(c, d1, pieces[1..]);
    }
  }

  lemma DispatchSlots<M>(c: Config, d: Dispatched<M>, topic: Text, level: nat, m: M)
    requires Good(d.b) && level < LEVELS
    ensures Gone(d.b.table, Dispatch(c, d, topic, level, m).b.table, (i: nat) => false)
  {
    hide Dispatch, Exact, AfterDispatch, Recipients, PushTimes, Occurs, Overflows, ToAll;
    DispatchSends(c, d, topic, level, m);
    SizeKept(d.b.table, topic);
  }

  lemma LevelInRange(f: Frame)
    ensures LevelOf(f) < LEVELS
  {
  }

  // ---- Each recipient once ----------------------------------------------------------------------------------

  predicate ActiveOn(t: Table, topic: Text, i: nat)
  {
    i < |t.topics| && i < |t.active| && t.active[i] && t.topics[i] == topic
  }

  ghost predicate AllOnce(ts: seq<nat>) { forall slot: nat :: Occurs(ts, slot) <= 1 }

  lemma {:induction false} SlotsOnce(n: nat, f: nat -> bool, i: nat)
    ensures Occurs(Slots(n, f), i) == if i < n && f(i) then 1 else 0
  {
    hide Occurs;
    if n == 0 {
      OccursNone(i);
    } else {
      SlotsOnce(n - 1, f, i);
      OccursSnoc(Slots(n - 1, f), n - 1, i);
    }
  }

  lemma OccursConcat(a: seq<nat>, b: seq<nat>, slot: nat)
    ensures Occurs(a + b, slot) == Occurs(a, slot) + Occurs(b, slot)
  {
  }

  lemma {:induction false} OccursIs(ts: seq<nat>, slot: nat)
    ensures (forall j, k :: 0 <= j < k < |ts| ==> ts[j] != ts[k]) ==> Occurs(ts, slot) <= 1
    ensures Occurs(ts, slot) > 0 <==> slot in ts
  {
    if ts != [] {
      var init, x := ts[..|ts| - 1], ts[|ts| - 1];
      assert ts == init + [x];
      OccursIs(init, slot);
      OccursSnoc(init, x, slot);
    }
  }

  lemma PicksOnce(t: Table, topic: Text, i: nat)
    requires Exact(t)
    ensures Occurs(Picks(t, Get(t.groups, topic)), i) <= 1
    ensures Occurs(Picks(t, Get(t.groups, topic)), i) > 0 ==>
      ActiveOn(t, topic, i) && i < |t.subGroups| && t.subGroups[i] != []
  {
    hide Occurs, IndexExact, WildcardsExact, GroupsExact, Picks;
    var picks := Picks(t, Get(t.groups, topic));
    GroupPicks(t, topic);
    OccursIs(picks, i);
  }

  /** How often a slot is sent to: once if it is an active subscriber of the topic outside any group, or the member its
      group picked; and once more if it is active with a matching filter. */
  lemma SentTo(t: Table, topic: Text, i: nat)
    requires Exact(t)
    ensures Occurs(Recipients(t, topic), i) ==
      (if Alone(t, topic, i) && t.active[i] then 1 else 0)
      + (if Wild(t, i) && t.active[i] && Wildcard.Matches(t.topics[i], topic) then 1 else 0)
      + Occurs(Picks(t, Get(t.groups, topic)), i)
  {
    hide Occurs, IndexExact, WildcardsExact, GroupsExact, Picks, Slots;
    SlotsOnce(Size(t), (i: nat) => Alone(t, topic, i) && i < |t.active| && t.active[i], i);
    SlotsOnce(Size(t),
      (i: nat) => Wild(t, i) && i < |t.active| && t.active[i] && Wildcard.Matches(t.topics[i], topic), i);
    OccursConcat(ScanExact(t, topic), ScanWild(t, topic), i);
    OccursConcat(ScanExact(t, topic) + ScanWild(t, topic), Picks(t, Get(t.groups, topic)), i);
  }

  /** No subscriber is sent the same message twice exactly when the published topic is not itself a filter that some
      active subscriber gave. */
  lemma EachOnceIff(t: Table, topic: Text)
    requires Exact(t)
    ensures AllOnce(Recipients(t, topic))
      <==> !(Wildcard.IsWildcardTopic(topic) && exists i: nat :: ActiveOn(t, topic, i))
  {
    hide Occurs, IndexExact, WildcardsExact, GroupsExact, Picks, Slots, Recipients;
    if Wildcard.IsWildcardTopic(topic) && exists i: nat :: ActiveOn(t, topic, i) {
      var i: nat :| ActiveOn(t, topic, i);
      var j := SentTwice(t, topic, i);
      assert Occurs(Recipients(t, topic), j) > 1;
    } else {
      forall i: nat ensures Occurs(Recipients(t, topic), i) <= 1 {
        SentOnce(t, topic, i);
      }
    }
  }

  lemma SentOnce(t: Table, topic: Text, i: nat)
    requires Exact(t) && !(Wildcard.IsWildcardTopic(topic) && exists j: nat :: ActiveOn(t, topic, j))
    ensures Occurs(Recipients(t, topic), i) <= 1
  {
    hide Occurs, Exact, Picks, Recipients, Wildcard.Matches;
    ShapedOf(t);
    SentTo(t, topic, i);
    PicksOnce(t, topic, i);
    assert (Alone(t, topic, i) && t.active[i]) ==> ActiveOn(t, topic, i);
  }

  lemma SentTwice(t: Table, topic: Text, i: nat) returns (j: nat)
    requires Exact(t) && Wildcard.IsWildcardTopic(topic) && ActiveOn(t, topic, i)
    ensures Occurs(Recipients(t, topic), j) > 1
  {
    hide Occurs, IndexExact, WildcardsExact, GroupsExact, Picks, Slots, Recipients;
    if t.subGroups[i] == [] {
      j := i;
    } else {
      var picks := Picks(t, Get(t.groups, topic));
      GroupPicks(t, topic);
      var k :| 0 <= k < |picks| && t.subGroups[picks[k]] == t.subGroups[i];
      j := picks[k];
      OccursIs(picks, j);
    }
    SentTo(t, topic, j);
  }

  /** An input: a subscriber of "+" is sent a message published to "+" twice. */
  lemma SentTwiceCase()
    ensures var t := Subscribe(EMPTY, 1, [Wildcard.PLUS], []);
      Exact(t) && Occurs(Recipients(t, [Wildcard.PLUS]), 0) >= 2
  {
    hide Exact, Recipients, Occurs, Picks;
    var t := Subscribe(EMPTY, 1, [Wildcard.PLUS], []);
    EmptyExact();
    SubscribeExact(EMPTY, 1, [Wildcard.PLUS], []);
    SentTo(t, [Wildcard.PLUS], 0);
  }

  // ---- What a group gets ----------------------------------------------------------------------------------------

  /** How many copies a list of slots is sent together. */
  function Share(to: seq<nat>, slots: seq<nat>): nat
  {
    if slots == [] then 0 else Occurs(to, slots[0]) + Share(to, slots[1..])
  }

  lemma {:induction false} ShareSplit(to: seq<nat>, slots: seq<nat>, all: bool, part: seq<nat>)
    requires forall i :: 0 <= i < |slots| ==> Occurs(to, slots[i]) == (if all then 1 else 0) + Occurs(part, slots[i])
    ensures Share(to, slots) == (if all then |slots| else 0) + Share(part, slots)
    decreases slots
  {
    hide Occurs;
    if slots != [] {
      assert forall i :: 0 <= i < |slots[1..]| ==> slots[1..][i] == slots[i + 1];
      ShareSplit(to, slots[1..], all, part);
    }
  }

  lemma {:induction false} ShareOfOne(to: seq<nat>, slots: seq<nat>, p: nat)
    requires forall i :: 0 <= i < |slots| ==> Occurs(to, slots[i]) == if slots[i] == p then 1 else 0
    ensures Share(to, slots) == Occurs(slots, p)
    decreases slots
  {
    hide Occurs;
    if slots == [] {
      OccursNone(p);
    } else {
      assert forall i :: 0 <= i < |slots[1..]| ==> slots[1..][i] == slots[i + 1];
      ShareOfOne(to, slots[1..], p);
      OccursCons(slots[0], slots[1..], p);
      assert slots == [slots[0]] + slots[1..];
    }
  }

  lemma OccursCons(x: nat, ts: seq<nat>, slot: nat)
    ensures Occurs([x] + ts, slot) == Occurs(ts, slot) + if x == slot then 1 else 0
  {
  }

  lemma {:induction false} ShareNone(to: seq<nat>, slots: seq<nat>)
    requires forall i :: 0 <= i < |slots| ==> Occurs(to, slots[i]) == 0
    ensures Share(to, slots) == 0
    decreases slots
  {
    hide Occurs;
    if slots != [] {
      assert forall i :: 0 <= i < |slots[1..]| ==> slots[1..][i] == slots[i + 1];
      ShareNone(to, slots[1..]);
    }
  }

  lemma MembersAre(t: Table, filter: Text, id: Text)
    ensures forall i :: 0 <= i < |MemberSlots(t, filter, id)| ==> Member(t, filter, id, MemberSlots(t, filter, id)[i])
  {
    var ms := MemberSlots(t, filter, id);
    forall i | 0 <= i < |ms| ensures Member(t, filter, id, ms[i]) {
      SlotsContain(Size(t), (j: nat) => Member(t, filter, id, j), ms[i]);
    }
  }

  /** What the round of picks gives a group: one copy on its own topic when it has members, none on another. */
  lemma PicksShare(t: Table, topic: Text, filter: Text, id: Text)
    requires Exact(t) && id != []
    ensures Share(Picks(t, Get(t.groups, topic)), MemberSlots(t, filter, id))
      == if topic == filter && MemberSlots(t, filter, id) != [] then 1 else 0
  {
    hide Exact, Picks, Occurs, MemberSlots, Share;
    var picks, ms := Picks(t, Get(t.groups, topic)), MemberSlots(t, filter, id);
    MembersAre(t, filter, id);
    if topic == filter && ms != [] {
      PickedMember(t, filter, id);
    } else {
      forall i | 0 <= i < |ms| ensures Occurs(picks, ms[i]) == 0 { PicksOnce(t, topic, ms[i]); }
      ShareNone(picks, ms);
    }
  }

  /** Of the members of a group only the one picked is among the picks. */
  lemma PickedOnly(t: Table, filter: Text, id: Text, p: nat, i: nat)
    requires Exact(t) && Member(t, filter, id, i) && p in Picks(t, Get(t.groups, filter))
    requires p < |t.subGroups| && t.subGroups[p] == id
    ensures Occurs(Picks(t, Get(t.groups, filter)), i) == if i == p then 1 else 0
  {
    hide Exact, Picks, Occurs;
    var picks := Picks(t, Get(t.groups, filter));
    GroupPicks(t, filter);
    PicksOnce(t, filter, i);
    OccursIs(picks, i);
    if i in picks {
      var j :| 0 <= j < |picks| && picks[j] == i;
      var k :| 0 <= k < |picks| && picks[k] == p;
      assert t.subGroups[picks[j]] == t.subGroups[picks[k]];
    }
  }

  lemma PickedMember(t: Table, filter: Text, id: Text)
    requires Exact(t) && id != [] && MemberSlots(t, filter, id) != []
    ensures Share(Picks(t, Get(t.groups, filter)), MemberSlots(t, filter, id)) == 1
  {
    hide IndexExact, WildcardsExact, GroupsExact, Picks, Occurs, Share;
    var picks, ms := Picks(t, Get(t.groups, filter)), MemberSlots(t, filter, id);
    GroupPicks(t, filter);
    MembersAre(t, filter, id);
    hide MemberSlots;
    assert Member(t, filter, t.subGroups[ms[0]], ms[0]);
    var k :| 0 <= k < |picks| && picks[k] < |t.subGroups| && t.subGroups[picks[k]] == id;
    var p := picks[k];
    forall i | 0 <= i < |ms| ensures Occurs(picks, ms[i]) == if ms[i] == p then 1 else 0 {
      PickedOnly(t, filter, id, p, ms[i]);
    }
    ShareOfOne(picks, ms, p);
    MemberOnce(t, filter, id, p);
  }

  lemma MemberOnce(t: Table, filter: Text, id: Text, p: nat)
    requires Member(t, filter, id, p)
    ensures Occurs(MemberSlots(t, filter, id), p) == 1
  {
    SlotsOnce(Size(t), (i: nat) => Member(t, filter, id, i), p);
  }

  /** How many copies of a message the active members of a group are sent together: one each if the group's topic is a
      filter that matches, and one more if the message was published to that very topic. */
  lemma GroupShare(t: Table, topic: Text, filter: Text, id: Text)
    requires Exact(t) && id != []
    ensures var ms := MemberSlots(t, filter, id);
      Share(Recipients(t, topic), ms)
      == (if Wildcard.IsWildcardTopic(filter) && Wildcard.Matches(filter, topic) then |ms| else 0)
         + (if topic == filter && ms != [] then 1 else 0)
  {
    hide Exact, Picks, Occurs, MemberSlots, Share, Recipients, Wildcard.Matches;
    var ms, all := MemberSlots(t, filter, id), Wildcard.IsWildcardTopic(filter) && Wildcard.Matches(filter, topic);
    MembersAre(t, filter, id);
    var picks := Picks(t, Get(t.groups, topic));
    forall i | 0 <= i < |ms| ensures Occurs(Recipients(t, topic), ms[i]) == (if all then 1 else 0) + Occurs(picks, ms[i]) {
      SentTo(t, topic, ms[i]);
    }
    ShareSplit(Recipients(t, topic), ms, all, picks);
    PicksShare(t, topic, filter, id);
  }

  /** A group is sent a message at most once exactly when its topic is not a matching filter, or it has no active
      member, or it has one and the message was published to another topic. */
  lemma GroupOnceIff(t: Table, topic: Text, filter: Text, id: Text)
    requires Exact(t) && id != []
    ensures var ms := MemberSlots(t, filter, id);
      Share(Recipients(t, topic), ms) <= 1 <==>
        !(Wildcard.IsWildcardTopic(filter) && Wildcard.Matches(filter, topic)) || ms == [] || (|ms| == 1 && topic != filter)
  {
    hide Exact, MemberSlots, Share, Recipients, Wildcard.MatchFrom;
    GroupShare(t, topic, filter, id);
  }

  /** An input: both members of a group on "+" are sent a message published to "x". */
  lemma WildcardGroupCase()
    ensures var t := Subscribe(Subscribe(EMPTY, 1, [Wildcard.PLUS], [0x67]), 2, [Wildcard.PLUS], [0x67]);
      Exact(t) && MemberSlots(t, [Wildcard.PLUS], [0x67]) == [0, 1]
      && Share(Recipients(t, [0x78]), MemberSlots(t, [Wildcard.PLUS], [0x67])) == 2
  {
    hide Share, Recipients, Rebuild, WithGroup;
    var plus: Text, g: Text := [Wildcard.PLUS], [0x67];
    var t1 := Subscribe(EMPTY, 1, plus, g);
    var t := Subscribe(t1, 2, plus, g);
    EmptyExact();
    SubscribeExact(EMPTY, 1, plus, g);
    SubscribeExact(t1, 2, plus, g);
    hide Exact;
    assert Size(t) == 2 && Member(t, plus, g, 0) && Member(t, plus, g, 1);
    var f := (i: nat) => Member(t, plus, g, i);
    assert Slots(2, f) == Slots(1, f) + [1] && Slots(1, f) == Slots(0, f) + [0];
    GroupShare(t, [0x78], plus, g);
    PlusMatchesLetter();
  }

  lemma PlusMatchesLetter()
    ensures Wildcard.Matches([Wildcard.PLUS], [0x78])
  {
    var p: Text, x: Text := [Wildcard.PLUS], [0x78];
    assert x[1..] == [] && p[1..] == [];
    assert Wildcard.SkipLevel(x) == Wildcard.SkipLevel(x[1..]);
    assert Wildcard.MatchFrom(p[1..], []);
  }

  // ---- Whole runs ---------------------------------------------------------------------------------------------

  /** The operations of the router that touch the table. */
  datatype Op =
    | Join(streamID: nat, topic: Text, group: Text)
    | Leave(streamID: nat)
    | Publish(f: Frame, now: int)
    | Batch(payload: seq<byte>)

  function Do(c: Config, b: Broker<Message>, op: Op): Broker<Message>
  {
    match op
    case Join(streamID, topic, group) =>
      b.(table := Subscribe(b.table, streamID, topic, group), queues := b.queues + [[[], [], [], []]])
    case Leave(streamID) => b.(table := Unsubscribe(b.table, streamID))
    case Publish(f, now) => PublishLocal(c, b, f, now)
    case Batch(payload) => PublishBatch(c, b, payload)
  }

  const START: Broker<Message> := Broker(EMPTY, map[], [], [])

  function DoAll(c: Config, ops: seq<Op>): Broker<Message>
  {
    if ops == [] then START else Do(c, DoAll(c, ops[..|ops| - 1]), ops[|ops| - 1])
  }

  /** The messages of a topic in a batch. */
  function PiecesOn(pieces: seq<seq<byte>>, topic: Text): nat
  {
    if pieces == [] then 0
    else
      var r := ParseFrame(pieces[0]);
      (if r.Ok? && TopicOf(r.value) == topic then 1 else 0) + PiecesOn(pieces[1..], topic)
  }

  /** The messages of a topic an operation brings, whichever path they take. */
  function MessagesIn(op: Op, topic: Text): nat
  {
    match op
    case Publish(f, _) => if |f.payload| <= MAX_PAYLOAD_SIZE && TopicOf(f) == topic then 1 else 0
    case Batch(payload) => if |payload| <= MAX_PAYLOAD_SIZE then PiecesOn(Pieces(payload), topic) else 0
    case _ => 0
  }

  function Messages(ops: seq<Op>, topic: Text): nat
  {
    if ops == [] then 0 else MessagesIn(ops[0], topic) + Messages(ops[1..], topic)
  }

  ghost predicate Good<M>(b: Broker<M>) { Exact(b.table) && WellFormed(b) }

  lemma DispatchGood<M>(c: Config, d: Dispatched<M>, topic: Text, level: nat, m: M)
    requires Good(d.b) && level < LEVELS
    ensures Good(Dispatch(c, d, topic, level, m).b)
  {
    hide Exact, Dispatch, Recipients, AfterDispatch, PushTimes, Occurs, Overflows, ToAll;
    DispatchSends(c, d, topic, level, m);
    DispatchExact(d.b.table, topic);
  }

  lemma {:induction false} DisconnectGood<M>(b: Broker<M>, gone: seq<nat>)
    requires Good(b)
    ensures Good(DisconnectAll(b, gone))
    decreases gone
  {
    hide Exact;
    if gone != [] {
      DeactivateExact(b.table, gone[0]);
      DisconnectGood(b.(table := Deactivate(b.table, gone[0])), gone[1..]);
    }
  }

  lemma {:induction false} BatchGood(c: Config, d: Dispatched<Message>, pieces: seq<seq<byte>>)
    requires Good(d.b)
    ensures Good(BatchAll(c, d, pieces).b)
    decreases pieces
  {
    hide Good, Dispatch, ParseFrame, TopicOf, LevelOf;
    if pieces != [] {
      var r := ParseFrame(pieces[0]);
      if r.Ok? {
        LevelInRange(r.value);
        DispatchGood(c, d, TopicOf(r.value), LevelOf(r.value),
                     Message(pieces[0], NextOffset(d.b, TopicOf(r.value)), 0));
      }
      BatchGood(c, BatchOne(c, d, pieces[0]), pieces[1..]);
    }
  }

  lemma DoGood(c: Config, b: Broker<Message>, op: Op)
    requires Good(b)
    ensures Good(Do(c, b, op))
  {
    match op {
      case Join(streamID, topic, group) =>
        hide Exact;
        SubscribeExact(b.table, streamID, topic, group);
      case Leave(streamID) =>
        hide Exact;
        UnsubscribeExact(b.table, streamID, 0);
      case Publish(f, now) =>
        hide Good, Dispatch, TopicOf, LevelOf, LocalFrame, ExpiryOf;
        var m := Message(LocalFrame(f), NextOffset(b, TopicOf(f)), ExpiryOf(c, f, now));
        LevelInRange(f);
        DispatchGood(c, Dispatched(b, []), TopicOf(f), LevelOf(f), m);
        var d := Dispatch(c, Dispatched(b, []), TopicOf(f), LevelOf(f), m);
        DisconnectGood(d.b, d.gone);
      case Batch(payload) =>
        hide Good, BatchAll;
        BatchGood(c, Dispatched(b, []), Pieces(payload));
        var d := BatchAll(c, Dispatched(b, []), Pieces(payload));
        DisconnectGood(d.b, d.gone);
    }
  }

  lemma {:induction false} RunGood(c: Config, ops: seq<Op>)
    ensures Good(DoAll(c, ops))
  {
    hide Good, Do;
    if ops == [] {
      EmptyGood();
    } else {
      RunGood(c, ops[..|ops| - 1]);
      DoGood(c, DoAll(c, ops[..|ops| - 1]), ops[|ops| - 1]);
    }
  }

  lemma EmptyGood()
    ensures Good(START)
  {
    EmptyExact();
  }

  /** After any run of subscribes, unsubscribes, publishes and batches, overflow disconnects included, one more publish
      is sent to the scan's recipients, in order, and to nobody else. */
  lemma RunPublishReachesScan(c: Config, ops: seq<Op>, f: Frame, now: int)
    requires |f.payload| <= MAX_PAYLOAD_SIZE
    ensures var b := DoAll(c, ops);
      DoAll(c, ops + [Publish(f, now)]).sent
        == b.sent + ToAll(Recipients(b.table, TopicOf(f)), LevelOf(f), TopicOf(f), NextOffset(b, TopicOf(f)))
  {
    hide Recipients, ToAll, LevelOf, TopicOf, PublishLocal;
    RunGood(c, ops);
    var b := DoAll(c, ops);
    assert (ops + [Publish(f, now)])[..|ops|] == ops;
    PublishSends(c, b, f, now);
  }

  // ---- Which offset -------------------------------------------------------------------------------------------------

  lemma {:induction false} EnqueueKeepsOffsets<M>(c: Config, d: Dispatched<M>, ts: seq<nat>, level: nat, m: M, topic: Text, offset: nat)
    ensures EnqueueAll(c, d, ts, level, m, topic, offset).b.offsets == d.b.offsets
  {
    if ts != [] {
      EnqueueKeepsOffsets(c, d, ts[..|ts| - 1], level, m, topic, offset);
    }
  }

  lemma CountOn(n: nat, k: nat)
    ensures ((n % U64 + 1) % U64 + k) % U64 == (n + 1 + k) % U64
  {
  }

  lemma DispatchDraws<M>(c: Config, d: Dispatched<M>, q: Text, level: nat, m: M, topic: Text)
    ensures LastOffset(Dispatch(c, d, q, level, m).b, topic) == if q == topic then NextOffset(d.b, topic) else LastOffset(d.b, topic)
  {
    hide EnqueueAll, Targets, AfterDispatch;
    var off := NextOffset(d.b, q);
    var b1 := d.b.(offsets := d.b.offsets[q := off], table := AfterDispatch(d.b.table, q));
    EnqueueKeepsOffsets(c, d.(b := b1), Targets(d.b.table, q), level, m, q, off);
  }

  lemma {:induction false} BatchDraws(c: Config, d: Dispatched<Message>, pieces: seq<seq<byte>>, topic: Text, n: nat)
    requires LastOffset(d.b, topic) == n % U64
    ensures LastOffset(BatchAll(c, d, pieces).b, topic) == (n + PiecesOn(pieces, topic)) % U64
    decreases pieces
  {
    hide Dispatch, ParseFrame, TopicOf, LevelOf;
    if pieces != [] {
      var r := ParseFrame(pieces[0]);
      if r.Err? {
        BatchDraws(c, d, pieces[1..], topic, n);
      } else {
        var q := TopicOf(r.value);
        DispatchDraws(c, d, q, LevelOf(r.value), Message(pieces[0], NextOffset(d.b, q), 0), topic);
        CountOn(n, 0);
        BatchDraws(c, BatchOne(c, d, pieces[0]), pieces[1..], topic, if q == topic then n + 1 else n);
      }
    }
  }

  lemma DoDraws(c: Config, b: Broker<Message>, op: Op, topic: Text, n: nat)
    requires LastOffset(b, topic) == n % U64
    ensures LastOffset(Do(c, b, op), topic) == (n + MessagesIn(op, topic)) % U64
  {
    hide Dispatch, TopicOf, LevelOf, LocalFrame, ExpiryOf, BatchAll, Pieces, PiecesOn, Subscribe, UnsubscribeFrom;
    match op {
      case Publish(f, now) =>
        var q := TopicOf(f);
        var m := Message(LocalFrame(f), NextOffset(b, q), ExpiryOf(c, f, now));
        var d := Dispatch(c, Dispatched(b, []), q, LevelOf(f), m);
        DispatchDraws(c, Dispatched(b, []), q, LevelOf(f), m, topic);
        DisconnectKeeps(d.b, d.gone);
        CountOn(n, 0);
      case Batch(payload) =>
        var d := BatchAll(c, Dispatched(b, []), Pieces(payload));
        BatchDraws(c, Dispatched(b, []), Pieces(payload), topic, n);
        DisconnectKeeps(d.b, d.gone);
      case _ =>
    }
  }

  lemma {:induction false} MessagesSnoc(ops: seq<Op>, op: Op, topic: Text)
    ensures Messages(ops + [op], topic) == Messages(ops, topic) + MessagesIn(op, topic)
  {
    hide MessagesIn;
    if ops == [] {
      assert ops + [op] == [op] && [op][1..] == [];
    } else {
      assert (ops + [op])[1..] == ops[1..] + [op];
      MessagesSnoc(ops[1..], op, topic);
    }
  }

  /** The last offset drawn for a topic is the number of its messages so far, in 64 bits. */
  lemma {:induction false} RunDraws(c: Config, ops: seq<Op>, topic: Text)
    ensures LastOffset(DoAll(c, ops), topic) == Messages(ops, topic) % U64
  {
    hide Do, MessagesIn, Messages;
    if ops == [] {
      NoMessages(topic);
    } else {
      var init, op := ops[..|ops| - 1], ops[|ops| - 1];
      assert init + [op] == ops;
      RunDraws(c, init, topic);
      DoDraws(c, DoAll(c, init), op, topic, Messages(init, topic));
      MessagesSnoc(init, op, topic);
    }
  }

  lemma NoMessages(topic: Text)
    ensures Messages([], topic) == 0
  {
  }

  /** After any run, the next message of a topic is delivered under the number it has among the topic's messages, counted
      from 1 over all publishes and batches. */
  lemma KthOffset(c: Config, ops: seq<Op>, f: Frame, now: int)
    requires |f.payload| <= MAX_PAYLOAD_SIZE
    ensures var b, topic := DoAll(c, ops), TopicOf(f);
      Added(b.sent, DoAll(c, ops + [Publish(f, now)]).sent, Recipients(b.table, topic), LevelOf(f), topic,
            (Messages(ops, topic) + 1) % U64)
  {
    hide Recipients, ToAll, LevelOf, TopicOf, DoAll, Added, Messages;
    var b, topic := DoAll(c, ops), TopicOf(f);
    RunPublishReachesScan(c, ops, f, now);
    RunDraws(c, ops, topic);
    CountOn(Messages(ops, topic), 0);
    AddedIs(b.sent, Recipients(b.table, topic), LevelOf(f), topic, NextOffset(b, topic));
  }

  /** The same for the j-th sub-frame of a batch, the ones before it counted. */
  lemma KthOffsetInBatch(c: Config, ops: seq<Op>, pieces: seq<seq<byte>>, j: nat)
    requires j < |pieces| && ParseFrame(pieces[j]).Ok?
    ensures var d, sub := BatchAll(c, Dispatched(DoAll(c, ops), []), pieces[..j]), ParseFrame(pieces[j]).value;
      var topic := TopicOf(sub);
      Added(d.b.sent, BatchOne(c, d, pieces[j]).b.sent, Recipients(d.b.table, topic), LevelOf(sub), topic,
            (Messages(ops, topic) + PiecesOn(pieces[..j], topic) + 1) % U64)
  {
    hide Recipients, ToAll, LevelOf, TopicOf, DoAll, Added, Messages, BatchAll, BatchOne, PiecesOn, ParseFrame, Good, PushTimes, Occurs;
    var b := DoAll(c, ops);
    var d, sub := BatchAll(c, Dispatched(b, []), pieces[..j]), ParseFrame(pieces[j]).value;
    var topic := TopicOf(sub);
    RunGood(c, ops);
    BatchGood(c, Dispatched(b, []), pieces[..j]);
    BatchSends(c, d, pieces[j], sub);
    RunDraws(c, ops, topic);
    BatchDraws(c, Dispatched(b, []), pieces[..j], topic, Messages(ops, topic));
    CountOn(Messages(ops, topic) + PiecesOn(pieces[..j], topic), 0);
    AddedIs(d.b.sent, Recipients(d.b.table, topic), LevelOf(sub), topic, NextOffset(d.b, topic));
  }

  // ---- Coming and going ---------------------------------------------------------------------------------------------

  /** Only active slots are sent to. */
  lemma RecipientsActive(t: Table, topic: Text, i: nat)
    requires Exact(t) && i in Recipients(t, topic)
    ensures i < Size(t) == |t.active| && t.active[i]
  {
    hide Exact, Recipients, Picks, Occurs, Wildcard.Matches;
    ShapedOf(t);
    OccursIs(Recipients(t, topic), i);
    SentTo(t, topic, i);
    PicksOnce(t, topic, i);
  }

  /** Once a stream has unsubscribed, no publish on any topic is sent to one of its slots; every active slot of another
      stream stays active; and nothing queued, sent or counted changes. */
  lemma LeaveStops(c: Config, b: Broker<Message>, streamID: nat, topic: Text, i: nat)
    requires Good(b)
    ensures var b' := Do(c, b, Leave(streamID));
      && Good(b') && b'.queues == b.queues && b'.sent == b.sent && b'.offsets == b.offsets
      && Gone(b.table, b'.table, (j: nat) => j < |b.table.streamIDs| && b.table.streamIDs[j] == streamID)
      && (i in Recipients(b'.table, topic) ==> i < |b.table.streamIDs| && b.table.streamIDs[i] != streamID)
  {
    hide Exact, Recipients, UnsubscribeFrom;
    var b' := Do(c, b, Leave(streamID));
    DoGood(c, b, Leave(streamID));
    ShapedOf(b.table);
    UnsubscribeGone(b.table, streamID, 0);
    if i in Recipients(b'.table, topic) {
      RecipientsActive(b'.table, topic, i);
      assert b'.table.active[i];
    }
  }

  lemma {:induction false} PicksExtend(t: Table, t': Table, gs: seq<Group>)
    requires t.active <= t'.active
    requires forall k, j :: 0 <= k < |gs| && 0 <= j < |gs[k].members| ==> gs[k].members[j] < |t.active|
    ensures Picks(t', gs) == Picks(t, gs)
  {
    if gs != [] {
      var g := gs[0];
      if g.members != [] {
        var m := g.members[g.counter % |g.members|];
        LiveOne(t, m);
        LiveOne(t', m);
      }
      assert forall k :: 0 <= k < |gs[1..]| ==> gs[1..][k] == gs[k + 1];
      PicksExtend(t, t', gs[1..]);
    }
  }

  /** A new subscriber outside any group starts with empty queues and is sent every message of its topic from then on, and
      every message its filter matches; what the others are sent stays as it was. */
  lemma JoinServed(c: Config, b: Broker<Message>, streamID: nat, topic: Text, q: Text, i: nat)
    requires Good(b)
    ensures var b', t := Do(c, b, Join(streamID, topic, [])), b.table;
      && Good(b') && b'.queues == b.queues + [[[], [], [], []]] && b'.sent == b.sent && b'.offsets == b.offsets
      && b'.table.streamIDs == t.streamIDs + [streamID]
      && Occurs(Recipients(b'.table, q), i)
         == if i == Size(t) then (if q == topic then 1 else 0)
                                 + (if Wildcard.IsWildcardTopic(topic) && Wildcard.Matches(topic, q) then 1 else 0)
            else Occurs(Recipients(t, q), i)
  {
    hide Exact, Recipients, Occurs, Wildcard.Matches, Subscribe;
    DoGood(c, b, Join(streamID, topic, []));
    SubscribeParts(b.table, streamID, topic, []);
    SlotServed(b.table, streamID, topic, q, i);
  }

  lemma SlotServed(t: Table, streamID: nat, topic: Text, q: Text, i: nat)
    requires Exact(t)
    ensures Occurs(Recipients(Subscribe(t, streamID, topic, []), q), i)
      == if i == Size(t) then (if q == topic then 1 else 0)
                              + (if Wildcard.IsWildcardTopic(topic) && Wildcard.Matches(topic, q) then 1 else 0)
         else Occurs(Recipients(t, q), i)
  {
    hide Exact, Recipients, Picks, Occurs, Wildcard.Matches, Subscribe;
    var t' := Subscribe(t, streamID, topic, []);
    ShapedOf(t);
    SubscribeExact(t, streamID, topic, []);
    SubscribeParts(t, streamID, topic, []);
    var gs := Get(t.groups, q);
    MembersBelow(t, q);
    PicksExtend(t, t', gs);
    SentTo(t, q, i);
    SentTo(t', q, i);
    PicksOnce(t, q, i);
  }

  lemma MembersBelow(t: Table, topic: Text)
    requires Exact(t)
    ensures var gs := Get(t.groups, topic);
      forall k, j :: 0 <= k < |gs| && 0 <= j < |gs[k].members| ==> gs[k].members[j] < |t.active|
  {
    hide Exact, Slots;
    ShapedOf(t);
    GroupsOfTopic(t, topic);
    var gs := Get(t.groups, topic);
    forall k, j | 0 <= k < |gs| && 0 <= j < |gs[k].members| ensures gs[k].members[j] < |t.active| {
      assert GroupExact(t, topic, gs[k]);
      MembersAre(t, topic, gs[k].id);
    }
  }

  /** A new member of a group becomes its last, and the group goes on being sent one copy of its topic's messages. */
  lemma JoinGrouped(c: Config, b: Broker<Message>, streamID: nat, topic: Text, group: Text)
    requires Good(b) && group != []
    ensures var t, t' := b.table, Do(c, b, Join(streamID, topic, group)).table;
      && Exact(t') && t'.streamIDs == t.streamIDs + [streamID]
      && MemberSlots(t', topic, group) == MemberSlots(t, topic, group) + [Size(t)]
      && OnePerGroup(t', topic, Picks(t', Get(t'.groups, topic)))
  {
    hide Exact, Picks, Subscribe, Slots, OnePerGroup;
    var t := b.table;
    ShapedOf(t);
    SubscribeExact(t, streamID, topic, group);
    SubscribeParts(t, streamID, topic, group);
    MemberSnoc(t, Subscribe(t, streamID, topic, group), streamID, topic, group, topic, group);
    GroupPicks(Subscribe(t, streamID, topic, group), topic);
  }
}
