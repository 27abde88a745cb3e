/** The Router object: the flat arrays, the indexes, the queues, and the loops that keep them. */
module RouterObject {
  import opened Bytes
  import opened Frames
  import Topics
  import Wildcard
  import opened Fifo
  import opened Routing
  import opened Publishing

  class Router {
    const config: Config

    var streamIDs: seq<nat>
    var topics: seq<Text>
    var active: seq<bool>
    var subGroups: seq<Text>
    var topicIndex: map<Text, seq<nat>>
    var groups: map<Text, seq<Group>>
    var wildcardSubs: seq<WildcardSub>
    var topicOffsets: map<Text, nat>
    var queues: seq<seq<seq<Message>>>

    ghost var sent: seq<Delivery>

    ghost function Tab(): Table
      reads this
    {
      Table(streamIDs, topics, active, subGroups, topicIndex, groups, wildcardSubs)
    }

    ghost function View(): Broker<Message>
      reads this
    {
      Broker(Tab(), topicOffsets, queues, sent)
    }

    ghost predicate Valid()
      reads this
    {
      Exact(Tab()) && WellFormed(View())
    }

    constructor (c: Config)
      ensures Valid() && config == c
      ensures View() == Broker(EMPTY, map[], [], [])
    {
      config := c;
      streamIDs, topics, active, subGroups := [], [], [], [];
      topicIndex, groups, wildcardSubs := map[], map[], [];
      topicOffsets, queues, sent := map[], [], [];
      new;
      EmptyExact();
    }

    // ---- Groups ------------------------------------------------------------------------------------------

    /** The scan of rebuildGroupMembersLocked. */
    method ScanMembers(topic: Text, id: Text) returns (members: seq<nat>)
      requires Shaped(Tab())
      ensures members == MemberSlots(Tab(), topic, id)
    {
      members := [];
      ghost var t := Tab();
      for i := 0 to |subGroups|
        invariant members == Slots(i, (j: nat) => Member(t, topic, id, j))
      {
        if subGroups[i] == id && i < |active| && active[i] && topics[i] == topic {
          members := members + [i];
        }
      }
    }

    /** rebuildGroupMembersLocked on each group of the topic that carries the id. */
    method RebuildGroup(topic: Text, id: Text)
      requires Shaped(Tab()) && topic in groups
      requires forall k :: 0 <= k < |groups[topic]| ==> groups[topic][k].topic == topic
      modifies this`groups
      ensures groups == old(groups)[topic := Rebuild(old(Tab()), old(groups[topic]), id)]
    {
      ghost var t := Tab();
      ghost var was := groups[topic];
      var gs := groups[topic];
      for k := 0 to |gs|
        invariant |gs| == |was| && groups == old(groups)
        invariant forall j :: 0 <= j < k ==>
          gs[j] == if was[j].id == id then was[j].(members := MemberSlots(t, was[j].topic, id)) else was[j]
        invariant forall j :: k <= j < |gs| ==> gs[j] == was[j]
      {
        if gs[k].id == id {
          var members := ScanMembers(topic, id);
          gs := gs[k := gs[k].(members := members)];
        }
      }
      assert gs == Rebuild(t, was, id);
      groups := groups[topic := gs];
    }

    /** Subscribe: a payload that does not parse changes nothing; otherwise one slot is added under the lock. */
    method Subscribe(streamID: nat, payload: seq<byte>) returns (error: Option<Topics.SpecError>)
      requires Valid()
      modifies this
      ensures Valid()
      ensures match Topics.ParseSubscriptionPayload(payload)
        case Invalid(e) => error == Some(e) && View() == old(View())
        case Parsed(spec) =>
          error == None && View() == old(View()).(table := Routing.Subscribe(old(Tab()), streamID, spec.topic, spec.group),
                                                  queues := old(queues) + [[[], [], [], []]])
    {
      var parsed := Topics.ParseSubscriptionPayload(payload);
      if parsed.Invalid? {
        return Some(parsed.error);
      }
      var topic, group := parsed.spec.topic, parsed.spec.group;
      AddSlot(streamID, topic, group);
      error := None;
    }

    method AddSlot(streamID: nat, topic: Text, group: Text)
      requires Valid()
      modifies this
      ensures Valid()
      ensures View() == old(View()).(table := Routing.Subscribe(old(Tab()), streamID, topic, group),
                                     queues := old(queues) + [[[], [], [], []]])
    {
      hide Exact, Slots, WithGroup, Rebuild, HasGroup;
      ghost var t := Tab();
      SubscribeExact(t, streamID, topic, group);
      var idx := |streamIDs|;
      assert idx == Size(t) by { ShapedOf(t); }
      streamIDs := streamIDs + [streamID];
      topics := topics + [topic];
      active := active + [true];
      queues := queues + [[[], [], [], []]];
      subGroups := subGroups + [group];
      assert Tab() == Extended(t, streamID, topic, group);
      if group != [] {
        JoinGroup(t, streamID, topic, group);
      } else {
        topicIndex := topicIndex[topic := Get(topicIndex, topic) + [idx]];
      }
      if Wildcard.IsWildcardTopic(topic) {
        wildcardSubs := wildcardSubs + [WildcardSub(topic, idx)];
      }
      assert Tab() == Routing.Subscribe(t, streamID, topic, group);
    }

    /** The group of a new member: found by a linear search, made when missing, then rebuilt. */
    method JoinGroup(ghost t: Table, ghost streamID: nat, topic: Text, group: Text)
      requires Exact(t) && group != [] && Tab() == Extended(t, streamID, topic, group)
      modifies this`groups
      ensures groups == t.groups[topic := Rebuild(Extended(t, streamID, topic, group), WithGroup(Get(t.groups, topic), topic, group), group)]
    {
      hide Exact, Slots, Rebuild;
      ShapedOf(t);
      TopicsOfGroups(t, topic);
      var gs := Get(groups, topic);
      var found := false;
      for k := 0 to |gs|
        invariant found <==> exists j :: 0 <= j < k && gs[j].id == group
      {
        if gs[k].id == group {
          found := true;
        }
      }
      if !found {
        gs := gs + [Group(group, topic, 0, [])];
      }
      assert gs == WithGroup(Get(t.groups, topic), topic, group);
      groups := groups[topic := gs];
      ghost var t1 := Tab();
      RebuildGroup(topic, group);
      RebuildSame(t1, Extended(t, streamID, topic, group), gs, group);
    }

    // ---- Leaving -----------------------------------------------------------------------------------------

    /** disconnectSubscriber. */
    method DisconnectSubscriber(idx: nat)
      requires Valid()
      modifies this`active, this`groups
      ensures Valid()
      ensures View() == old(View()).(table := Deactivate(old(Tab()), idx))
      ensures |active| == old(|active|) && forall i :: 0 <= i < |active| ==> (active[i] <==> old(active)[i] && i != idx)
    {
      ghost var t := Tab();
      DeactivateExact(t, idx);
      ShapedOf(t);
      if idx < |active| && active[idx] {
        TopicsOfGroups(t, topics[idx]);
        hide Exact, Slots;
        active := active[idx := false];
        if idx < |subGroups| && subGroups[idx] != [] {
          if topics[idx] in groups {
            RebuildGroup(topics[idx], subGroups[idx]);
          }
        }
      }
      assert Tab() == Deactivate(t, idx);
    }

    /** Unsubscribe: every active slot of the stream. */
    method Unsubscribe(streamID: nat)
      requires Valid()
      modifies this`active, this`groups
      ensures Valid()
      ensures View() == old(View()).(table := Routing.Unsubscribe(old(Tab()), streamID))
      ensures |active| == |streamIDs| == old(|active|)
      ensures forall i :: 0 <= i < |active| ==> (active[i] <==> old(active)[i] && streamIDs[i] != streamID)
    {
      hide Exact, Deactivate;
      ghost var t0 := Tab();
      ShapedOf(t0);
      UnsubscribeGone(t0, streamID, 0);
      for i := 0 to |streamIDs|
        invariant Valid()
        invariant topicOffsets == old(topicOffsets) && queues == old(queues) && sent == old(sent) && streamIDs == old(streamIDs)
        invariant UnsubscribeFrom(Tab(), streamID, i) == UnsubscribeFrom(t0, streamID, 0)
      {
        if streamIDs[i] == streamID {
          if i < |active| && active[i] {
            DisconnectSubscriber(i);
          } else {
            Inactive(Tab(), i);
          }
        }
      }
    }

    // ---- Publishing --------------------------------------------------------------------------------------

    /** nextTopicOffset. */
    method NextTopicOffset(topic: Text) returns (offset: nat)
      modifies this`topicOffsets
      ensures offset == NextOffset(old(View()), topic)
      ensures topicOffsets == old(topicOffsets)[topic := offset]
    {
      if topic !in topicOffsets {
        topicOffsets := topicOffsets[topic := 0];
      }
      offset := (topicOffsets[topic] + 1) % U64;
      topicOffsets := topicOffsets[topic := offset];
    }

    /** enqueueToSubscriber: an inactive slot takes nothing, a level that is none becomes the default one, and a slot to
        disconnect joins the list. */
    method EnqueueToSubscriber(idx: nat, m: Message, level: nat, topic: Text, gone: seq<nat>) returns (gone': seq<nat>)
      requires WellFormed(View()) && Shaped(Tab())
      modifies this`queues, this`sent
      ensures WellFormed(View())
      ensures idx >= |active| || !active[idx] ==> View() == old(View()) && gone' == gone
      ensures idx < |active| && active[idx] ==>
        Dispatched(View(), gone')
        == EnqueueOne(config, Dispatched(old(View()), gone), idx, KnownLevel(level), m, topic, m.offset)
    {
      if idx >= |active| || !active[idx] {
        return gone;
      }
      var p := KnownLevel(level);
      var r := Push(queues[idx][p], m, config.queueSize, config.policy);
      queues := queues[idx := queues[idx][p := r.queue]];
      sent := sent + [Delivery(idx, p, topic, m.offset)];
      gone' := if r.disconnect then gone + [idx] else gone;
    }

    /** The dispatch to exact subscribers. */
    method DispatchExactly(m: Message, level: nat, topic: Text) returns (gone: seq<nat>)
      requires WellFormed(View()) && Shaped(Tab()) && level < LEVELS
      modifies this`queues, this`sent
      ensures WellFormed(View())
      ensures Dispatched(View(), gone)
        == EnqueueAll(config, Dispatched(old(View()), []), Live(Tab(), Get(topicIndex, topic)), level, m, topic, m.offset)
    {
      gone := [];
      ghost var start, t := Dispatched(View(), []), Tab();
      var indices := Get(topicIndex, topic);
      assert indices[..0] == [] && Live(t, []) == [];
      NoTargets(config, start, level, m, topic);
      hide EnqueueAll, EnqueueOne, Live;
      for i := 0 to |indices|
        invariant WellFormed(View()) && Tab() == t
        invariant Dispatched(View(), gone) == EnqueueAll(config, start, Live(t, indices[..i]), level, m, topic, m.offset)
      {
        LiveSnoc(t, indices, i);
        var idx := indices[i];
        if idx < |active| && active[idx] {
          EnqueueSnoc(config, start, Live(t, indices[..i]), idx, level, m, topic, m.offset);
          gone := EnqueueToSubscriber(idx, m, level, topic, gone);
        }
      }
      assert indices[..|indices|] == indices;
    }

    /** The dispatch to wildcard subscribers, after the targets already served. */
    method DispatchWild(m: Message, level: nat, topic: Text, before: seq<nat>, ghost start: Dispatched<Message>, ghost done: seq<nat>)
      returns (gone: seq<nat>)
      requires WellFormed(View()) && Shaped(Tab()) && level < LEVELS
      requires Dispatched(View(), before) == EnqueueAll(config, start, done, level, m, topic, m.offset)
      modifies this`queues, this`sent
      ensures WellFormed(View())
      ensures Dispatched(View(), gone)
        == EnqueueAll(config, start, done + LiveMatching(Tab(), wildcardSubs, topic), level, m, topic, m.offset)
    {
      gone := before;
      ghost var t := Tab();
      assert wildcardSubs[..0] == [] && LiveMatching(t, [], topic) == [] && done + [] == done;
      hide EnqueueAll, EnqueueOne, LiveMatching, Wildcard.MatchFrom;
      for i := 0 to |wildcardSubs|
        invariant WellFormed(View()) && Tab() == t
        invariant Dispatched(View(), gone)
          == EnqueueAll(config, start, done + LiveMatching(t, wildcardSubs[..i], topic), level, m, topic, m.offset)
      {
        LiveMatchingSnoc(t, wildcardSubs, i, topic);
        var w := wildcardSubs[i];
        ghost var ts := LiveMatching(t, wildcardSubs[..i], topic);
        if w.idx < |active| && active[w.idx] {
          var matches := Wildcard.MatchWildcard(w.pattern, topic);
          if matches {
            EnqueueSnoc(config, start, done + ts, w.idx, level, m, topic, m.offset);
            assert done + ts + [w.idx] == done + (ts + [w.idx]);
            gone := EnqueueToSubscriber(w.idx, m, level, topic, gone);
          }
        }
      }
      assert wildcardSubs[..|wildcardSubs|] == wildcardSubs;
    }

    /** The dispatch to groups: each with members counts up and picks one. */
    method DispatchGroups(m: Message, level: nat, topic: Text, before: seq<nat>, ghost start: Dispatched<Message>, ghost done: seq<nat>)
      returns (gone: seq<nat>)
      requires WellFormed(View()) && Shaped(Tab()) && level < LEVELS && topic in groups
      requires Dispatched(View(), before) == EnqueueAll(config, start, done, level, m, topic, m.offset)
      modifies this`queues, this`sent, this`groups
      ensures WellFormed(View())
      ensures groups == old(groups)[topic := AdvanceAll(old(groups[topic]))]
      ensures Dispatched(View().(table := old(Tab())), gone)
        == EnqueueAll(config, start, done + Picks(old(Tab()), old(groups[topic])), level, m, topic, m.offset)
    {
      hide EnqueueAll, EnqueueOne, Live, Picks;
      gone := before;
      ghost var t := Tab();
      NoPicks(t);
      ghost var was := groups[topic];
      var gs := groups[topic];
      assert was[..0] == [] && done + [] == done;
      for k := 0 to |gs|
        invariant |gs| == |was| && WellFormed(View()) && Tab() == t
        invariant forall j :: 0 <= j < |gs| ==> gs[j] == if j < k then Advance(was[j]) else was[j]
        invariant Dispatched(View(), gone)
          == EnqueueAll(config, start, done + Picks(t, was[..k]), level, m, topic, m.offset)
      {
        PicksSnoc(t, was, k);
        var g := gs[k];
        if |g.members| > 0 {
          gs := gs[k := g.(counter := (g.counter + 1) % U64)];
          var chosen := g.members[g.counter % |g.members|];
          if chosen < |active| && active[chosen] {
            ghost var ts := Picks(t, was[..k]);
            EnqueueSnoc(config, start, done + ts, chosen, level, m, topic, m.offset);
            assert done + ts + [chosen] == done + (ts + [chosen]);
            gone := EnqueueToSubscriber(chosen, m, level, topic, gone);
          }
        }
      }
      assert was[..|was|] == was && gs == AdvanceAll(was);
      groups := groups[topic := gs];
    }

    /** Steps 2 to 4 of a publish: exact subscribers, wildcard subscribers, groups. */
    method DispatchMessage(m: Message, level: nat, topic: Text, before: seq<nat>) returns (gone: seq<nat>)
      requires Valid() && level < LEVELS
      modifies this`queues, this`sent, this`groups
      ensures Valid()
      ensures Dispatched(View(), gone)
        == EnqueueAll(config, Dispatched(old(View()).(table := AfterDispatch(old(Tab()), topic)), before),
                      Targets(old(Tab()), topic), level, m, topic, m.offset)
    {
      ghost var t, b := Tab(), View();
      DispatchExact(t, topic);
      ShapedOf(t);
      hide Exact, EnqueueAll, AdvanceAll, Picks, LiveMatching, Live;
      ghost var start := Dispatched(b, []);
      gone := DispatchExactly(m, level, topic);
      ghost var exact := Live(t, Get(topicIndex, topic));
      gone := DispatchWild(m, level, topic, gone, start, exact);
      ghost var both := exact + LiveMatching(t, wildcardSubs, topic);
      if topic in groups {
        gone := DispatchGroups(m, level, topic, gone, start, both);
      } else {
        NoPicks(t);
        assert both + [] == both;
      }
      ghost var ts := Targets(t, topic);
      EnqueueFrame(config, start, AfterDispatch(t, topic), before, ts, level, m, topic, m.offset);
      gone := before + gone;
    }

    /** publishLocal. */
    method PublishLocal(f: Frame, now: int) returns (ok: bool)
      requires Valid()
      modifies this
      ensures Valid()
      ensures ok <==> |f.payload| <= MAX_PAYLOAD_SIZE
      ensures !ok ==> View() == old(View())
      ensures View() == Publishing.PublishLocal(config, old(View()), f, now)
    {
      if |f.payload| > MAX_PAYLOAD_SIZE {
        return false;
      }
      hide Exact, EnqueueAll, Targets, AfterDispatch;
      var level, topic := LevelOf(f), TopicOf(f);
      var expires := ExpiryOf(config, f, now);
      var offset := NextTopicOffset(topic);
      var m := Message(LocalFrame(f), offset, expires);
      var gone := DispatchMessage(m, level, topic, []);
      DisconnectEach(gone);
      ok := true;
    }

    /** The deferred disconnects at the end of a publish. */
    method DisconnectEach(gone: seq<nat>)
      requires Valid()
      modifies this`active, this`groups
      ensures Valid()
      ensures View() == DisconnectAll(old(View()), gone)
    {
      hide Exact, Deactivate;
      ghost var b := View();
      assert gone[0..] == gone;
      for i := 0 to |gone|
        invariant Valid()
        invariant DisconnectAll(View(), gone[i..]) == DisconnectAll(b, gone)
      {
        assert gone[i..][1..] == gone[i + 1..];
        DisconnectSubscriber(gone[i]);
      }
    }

    /** PublishBatch, what it does locally. */
    method PublishBatch(payload: seq<byte>) returns (ok: bool)
      requires Valid()
      modifies this
      ensures Valid()
      ensures ok <==> |payload| <= MAX_PAYLOAD_SIZE
      ensures !ok ==> View() == old(View())
      ensures View() == Publishing.PublishBatch(config, old(View()), payload)
    {
      if |payload| > MAX_PAYLOAD_SIZE {
        return false;
      }
      hide Exact, BatchOne, ParseBatchFrame;
      ghost var b := View();
      var gone: seq<nat> := [];
      var offset := 0;
      assert payload[0..] == payload;
      while offset < |payload|
        invariant 0 <= offset <= |payload| && Valid()
        invariant BatchAll(config, Dispatched(View(), gone), Pieces(payload[offset..]))
          == BatchAll(config, Dispatched(b, []), Pieces(payload))
      {
        PiecesStep(payload, offset);
        var r := ParseBatchFrame(payload, offset);
        if r.Err? {
          break;
        }
        gone := PublishSub(r.value.0, gone);
        offset := r.value.1;
      }
      DisconnectEach(gone);
      ok := true;
    }

    /** One sub-frame of a batch. */
    method PublishSub(piece: seq<byte>, before: seq<nat>) returns (gone: seq<nat>)
      requires Valid()
      modifies this
      ensures Valid()
      ensures Dispatched(View(), gone) == BatchOne(config, Dispatched(old(View()), before), piece)
    {
      hide Exact, EnqueueAll, Targets, AfterDispatch;
      var parsed := ParseFrame(piece);
      if parsed.Err? {
        return before;
      }
      var sub := parsed.value;
      var topic := TopicOf(sub);
      var offset := NextTopicOffset(topic);
      gone := DispatchMessage(Message(piece, offset, 0), LevelOf(sub), topic, before);
    }
  }

  lemma LiveSnoc(t: Table, s: seq<nat>, i: nat)
    requires i < |s|
    ensures Live(t, s[..i + 1]) == if s[i] < |t.active| && t.active[s[i]] then Live(t, s[..i]) + [s[i]] else Live(t, s[..i])
  {
    assert s[..i + 1] == s[..i] + [s[i]];
    LiveConcat(t, s[..i], [s[i]]);
    LiveOne(t, s[i]);
  }

  lemma LiveMatchingSnoc(t: Table, ws: seq<WildcardSub>, i: nat, topic: Text)
    requires i < |ws|
    ensures LiveMatching(t, ws[..i + 1], topic)
      == if ws[i].idx < |t.active| && t.active[ws[i].idx] && Wildcard.Matches(ws[i].pattern, topic)
         then LiveMatching(t, ws[..i], topic) + [ws[i].idx] else LiveMatching(t, ws[..i], topic)
  {
    assert ws[..i + 1] == ws[..i] + [ws[i]];
    LiveMatchingConcat(t, ws[..i], [ws[i]], topic);
    LiveMatchingOne(t, ws[i], topic);
  }

  lemma {:induction false} PicksConcat(t: Table, a: seq<Group>, g: Group)
    ensures Picks(t, a + [g]) == Picks(t, a) + if g.members == [] then [] else Live(t, [g.members[g.counter % |g.members|]])
  {
    if a == [] {
      assert a + [g] == [g] && [g][1..] == [];
      assert Picks(t, []) == [];
    } else {
      assert (a + [g])[1..] == a[1..] + [g];
      PicksConcat(t, a[1..], g);
    }
  }

  lemma PicksSnoc(t: Table, gs: seq<Group>, k: nat)
    requires k < |gs|
    ensures gs[k].members == [] ==> Picks(t, gs[..k + 1]) == Picks(t, gs[..k])
    ensures gs[k].members != [] ==>
      var chosen := gs[k].members[gs[k].counter % |gs[k].members|];
      Picks(t, gs[..k + 1])
      == if chosen < |t.active| && t.active[chosen] then Picks(t, gs[..k]) + [chosen] else Picks(t, gs[..k])
  {
    assert gs[..k + 1] == gs[..k] + [gs[k]];
    PicksConcat(t, gs[..k], gs[k]);
    if gs[k].members != [] {
      LiveOne(t, gs[k].members[gs[k].counter % |gs[k].members|]);
    }
  }

  lemma NoTargets(c: Config, d: Dispatched<Message>, level: nat, m: Message, topic: Text)
    ensures EnqueueAll(c, d, [], level, m, topic, m.offset) == d
  {
  }

  lemma NoPicks(t: Table)
    ensures Picks(t, []) == []
  {
  }

  lemma EnqueueSnoc(c: Config, d: Dispatched<Message>, ts: seq<nat>, idx: nat, level: nat, m: Message, topic: Text, offset: nat)
    ensures EnqueueAll(c, d, ts + [idx], level, m, topic, offset)
      == EnqueueOne(c, EnqueueAll(c, d, ts, level, m, topic, offset), idx, level, m, topic, offset)
  {
    assert (ts + [idx])[..|ts|] == ts;
  }

  /** Enqueues touch neither the table nor the list of earlier overflows. */
  lemma {:induction false} EnqueueFrame(c: Config, d: Dispatched<Message>, table: Table, before: seq<nat>, ts: seq<nat>,
                                        level: nat, m: Message, topic: Text, offset: nat)
    requires d.gone == []
    ensures var r := EnqueueAll(c, d, ts, level, m, topic, offset);
      EnqueueAll(c, Dispatched(d.b.(table := table), before), ts, level, m, topic, offset)
      == Dispatched(r.b.(table := table), before + r.gone)
  {
    if ts == [] {
      assert before + [] == before;
    } else {
      EnqueueFrame(c, d, table, before, ts[..|ts| - 1], level, m, topic, offset);
      var r := EnqueueAll(c, d, ts[..|ts| - 1], level, m, topic, offset);
      assert forall x: nat :: before + r.gone + [x] == before + (r.gone + [x]);
    }
  }

  lemma PiecesStep(payload: seq<byte>, offset: nat)
    requires offset < |payload|
    ensures var r := ParseBatchFrame(payload, offset);
      Pieces(payload[offset..]) == if r.Err? then [] else [r.value.0] + Pieces(payload[r.value.1..])
  {
    var rest := payload[offset..];
    assert rest[0..] == rest;
    var r := ParseBatchFrame(payload, offset);
    if r.Ok? {
      assert rest[r.value.1 - offset..] == payload[r.value.1..];
      assert rest[0..r.value.1 - offset] == payload[offset..r.value.1];
    }
  }

  lemma Inactive(t: Table, i: nat)
    requires !(i < |t.active| && t.active[i])
    ensures Deactivate(t, i) == t
  {
  }

  lemma TopicsOfGroups(t: Table, topic: Text)
    requires Exact(t)
    ensures forall k :: 0 <= k < |Get(t.groups, topic)| ==> Get(t.groups, topic)[k].topic == topic
  {
    forall k | 0 <= k < |Get(t.groups, topic)| ensures Get(t.groups, topic)[k].topic == topic {
      assert GroupExact(t, topic, t.groups[topic][k]);
    }
  }

  lemma RebuildSame(t: Table, t': Table, gs: seq<Group>, id: Text)
    requires t'.topics == t.topics && t'.active == t.active && t'.subGroups == t.subGroups
    ensures Rebuild(t, gs, id) == Rebuild(t', gs, id)
  {
    forall k | 0 <= k < |gs| ensures Rebuild(t, gs, id)[k] == Rebuild(t', gs, id)[k] {
      MembersSame(t, t', gs[k].topic, id);
    }
  }
}
