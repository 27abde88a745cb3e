/** Round-robin among the members of a consumer group. */
module Fairness {
  import opened Bytes
  import opened Frames
  import opened Fifo
  import opened Routing
  import opened Publishing
  import opened Deliveries
  import Wildcard

  // ---- Residues ---------------------------------------------------------------------------------------------

  /** How many of 0..m-1 leave remainder j. */
  function Hits(m: nat, n: nat, j: nat): nat
    requires n > 0
  {
    if m == 0 then 0 else Hits(m - 1, n, j) + if (m - 1) % n == j then 1 else 0
  }

  lemma DivisionUnique(m: nat, n: nat, q: nat, r: nat)
    requires n > 0 && r < n && m == q * n + r
    ensures m / n == q && m % n == r
  {
    var q', r' := m / n, m % n;
    assert m == q' * n + r' && 0 <= r' < n;
    assert q' < q ==> (q' + 1) * n <= q * n;
    assert q < q' ==> (q + 1) * n <= q' * n;
  }

  lemma DivisionStep(m: nat, n: nat)
    requires n > 0
    ensures if m % n + 1 < n then (m + 1) / n == m / n && (m + 1) % n == m % n + 1
            else (m + 1) / n == m / n + 1 && (m + 1) % n == 0
  {
    var q, r := m / n, m % n;
    assert m == q * n + r;
    if r + 1 < n {
      DivisionUnique(m + 1, n, q, r + 1);
    } else {
      assert (q + 1) * n == q * n + n;
      DivisionUnique(m + 1, n, q + 1, 0);
    }
  }

  lemma {:induction false} HitsClosed(m: nat, n: nat, j: nat)
    requires n > 0 && j < n
    ensures Hits(m, n, j) == m / n + if m % n > j then 1 else 0
  {
    if m == 0 {
      DivisionUnique(0, n, 0, 0);
    } else {
      HitsClosed(m - 1, n, j);
      DivisionStep(m - 1, n);
    }
  }

  function Quot(m: nat, n: nat): nat requires n > 0 { m / n }

  function Rem(m: nat, n: nat): nat requires n > 0 { m % n }

  lemma Quotients(c: nat, k: nat, n: nat, j: nat)
    requires n > 0 && j < n
    ensures Hits(c, n, j) == Quot(c, n) + if Rem(c, n) > j then 1 else 0
    ensures if Rem(c, n) + Rem(k, n) < n
            then Quot(c + k, n) == Quot(c, n) + Quot(k, n) && Rem(c + k, n) == Rem(c, n) + Rem(k, n)
            else Quot(c + k, n) == Quot(c, n) + Quot(k, n) + 1 && Rem(c + k, n) == Rem(c, n) + Rem(k, n) - n
    ensures Quot(k + n - 1, n) == Quot(k, n) + if Rem(k, n) == 0 then 0 else 1
    ensures Rem(c, n) < n && Rem(k, n) < n
  {
    hide Hits;
    HitsClosed(c, n, j);
    SumDivision(c, k, n);
    CeilDivision(k, n);
  }

  lemma WindowQuotients(c: nat, k: nat, n: nat, j: nat)
    requires n > 0 && j < n
    ensures Quot(k, n) <= Hits(c + k, n, j) - Hits(c, n, j) <= Quot(k + n - 1, n)
  {
    hide Hits, Quot, Rem;
    Quotients(c, k, n, j);
    Quotients(c + k, 0, n, j);
    Rounded(Hits(c, n, j), Hits(c + k, n, j), Quot(k + n - 1, n), Quot(c, n), Rem(c, n), Quot(k, n), Rem(k, n), n, j);
  }

  /** Any window of k consecutive numbers holds each remainder k/n times, rounded down or up. */
  lemma WindowFair(c: nat, k: nat, n: nat, j: nat)
    requires n > 0 && j < n
    ensures k / n <= Hits(c + k, n, j) - Hits(c, n, j) <= (k + n - 1) / n
  {
    hide Hits;
    WindowQuotients(c, k, n, j);
  }

  lemma SumDivision(c: nat, k: nat, n: nat)
    requires n > 0
    ensures if c % n + k % n < n then (c + k) / n == c / n + k / n && (c + k) % n == c % n + k % n
            else (c + k) / n == c / n + k / n + 1 && (c + k) % n == c % n + k % n - n
  {
    AddQuotients(c, k, n, c / n, c % n, k / n, k % n);
  }

  lemma Distribute(q: nat, a: nat, n: nat)
    ensures (q + a) * n == q * n + a * n && (q + a + 1) * n == q * n + a * n + n
  {
  }

  lemma AddQuotients(c: nat, k: nat, n: nat, q: nat, r: nat, a: nat, b: nat)
    requires n > 0 && r < n && b < n && c == q * n + r && k == a * n + b
    ensures if r + b < n then (c + k) / n == q + a && (c + k) % n == r + b
            else (c + k) / n == q + a + 1 && (c + k) % n == r + b - n
  {
    Distribute(q, a, n);
    if r + b < n {
      DivisionUnique(c + k, n, q + a, r + b);
    } else {
      DivisionUnique(c + k, n, q + a + 1, r + b - n);
    }
  }

  lemma CeilDivision(k: nat, n: nat)
    requires n > 0
    ensures (k + n - 1) / n == k / n + if k % n == 0 then 0 else 1
  {
    var a, b := k / n, k % n;
    assert k == a * n + b;
    assert (a + 1) * n == a * n + n;
    if b == 0 {
      DivisionUnique(k + n - 1, n, a, n - 1);
    } else {
      DivisionUnique(k + n - 1, n, a + 1, b - 1);
    }
  }

  lemma Rounded(before: nat, after: nat, ceil: nat, q: nat, r: nat, a: nat, b: nat, n: nat, j: nat)
    requires r < n && b < n && j < n
    requires before == q + if r > j then 1 else 0
    requires after == if r + b < n then q + a + (if r + b > j then 1 else 0)
                      else q + a + 1 + (if r + b - n > j then 1 else 0)
    requires ceil == a + if b == 0 then 0 else 1
    ensures a <= after - before <= ceil
  {
  }

  // ---- One group ------------------------------------------------------------------------------------------------

  function Find(gs: seq<Group>, id: Text): Option<Group>
  {
    if gs == [] then None else if gs[0].id == id then Some(gs[0]) else Find(gs[1..], id)
  }

  function GroupOf(t: Table, topic: Text, id: Text): Option<Group> { Find(Get(t.groups, topic), id) }

  lemma {:induction false} FindAdvanced(gs: seq<Group>, id: Text)
    ensures Find(AdvanceAll(gs), id)
      == if Find(gs, id).None? then None else Some(Advance(Find(gs, id).value))
  {
    if gs != [] {
      assert AdvanceAll(gs)[1..] == AdvanceAll(gs[1..]);
      FindAdvanced(gs[1..], id);
    }
  }

  lemma FindAfter(t: Table, q: Text, topic: Text, id: Text)
    ensures Find(Get(AfterDispatch(t, q).groups, topic), id)
      == var f := Find(Get(t.groups, topic), id);
         if q == topic && f.Some? then Some(Advance(f.value)) else f
  {
    if q == topic && topic in t.groups {
      FindAdvanced(t.groups[topic], id);
    }
  }

  /** A group without members does not lose its turn: its counter waits for the next message that finds some. */
  lemma EmptyGroupWaits(t: Table, topic: Text, id: Text, g: Group)
    requires GroupOf(t, topic, id) == Some(g) && g.members == []
    ensures GroupOf(AfterDispatch(t, topic), topic, id) == Some(g)
  {
    FindAfter(t, topic, topic, id);
  }

  /** The pick of a group is one of the slots the publish enqueues to. */
  lemma {:induction false} PickIsTarget(t: Table, topic: Text, gs: seq<Group>, id: Text)
    requires Shaped(t) && forall k :: 0 <= k < |gs| ==> GroupExact(t, topic, gs[k])
    requires Find(gs, id).Some? && Find(gs, id).value.members != []
    ensures var g := Find(gs, id).value; g.members[g.counter % |g.members|] in Picks(t, gs)
  {
    var g := gs[0];
    assert GroupExact(t, topic, g);
    if g.id == id {
      HeadPick(t, topic, g);
    } else {
      PickIsTarget(t, topic, gs[1..], id);
    }
  }

  lemma {:induction false} SlotsAscend(n: nat, f: nat -> bool)
    ensures forall a, b :: 0 <= a < b < |Slots(n, f)| ==> Slots(n, f)[a] < Slots(n, f)[b]
    ensures forall a :: 0 <= a < |Slots(n, f)| ==> Slots(n, f)[a] < n
  {
    if n > 0 {
      SlotsAscend(n - 1, f);
    }
  }

  lemma MembersDistinct(t: Table, topic: Text, id: Text, g: Group)
    requires Exact(t) && Find(Get(t.groups, topic), id) == Some(g)
    ensures forall a, b :: 0 <= a < b < |g.members| ==> g.members[a] != g.members[b]
  {
    hide Slots, IndexExact, WildcardsExact, Find;
    FoundExact(t, topic, Get(t.groups, topic), id);
    SlotsAscend(Size(t), (i: nat) => Member(t, topic, id, i));
  }

  lemma {:induction false} FoundExact(t: Table, topic: Text, gs: seq<Group>, id: Text)
    requires forall k :: 0 <= k < |gs| ==> GroupExact(t, topic, gs[k])
    requires Find(gs, id).Some?
    ensures GroupExact(t, topic, Find(gs, id).value) && Find(gs, id).value.id == id
  {
    if gs[0].id != id {
      FoundExact(t, topic, gs[1..], id);
    } else {
      assert GroupExact(t, topic, gs[0]);
    }
  }

  // ---- Counters over the operations --------------------------------------------------------------------------------

  /** The group is there before and after, and counts on from where it was. */
  ghost predicate CountsOn(t: Table, t': Table, topic: Text, id: Text)
  {
    GroupOf(t, topic, id).Some? ==>
      GroupOf(t', topic, id).Some? && GroupOf(t', topic, id).value.counter == GroupOf(t, topic, id).value.counter
  }

  lemma {:induction false} RebuildFinds(t: Table, gs: seq<Group>, group: Text, id: Text)
    ensures Find(gs, id).Some? ==>
      && Find(Rebuild(t, gs, group), id).Some?
      && Find(Rebuild(t, gs, group), id).value.counter == Find(gs, id).value.counter
  {
    hide MemberSlots;
    if gs != [] {
      var r := Rebuild(t, gs, group);
      assert r[1..] == Rebuild(t, gs[1..], group);
      RebuildFinds(t, gs[1..], group, id);
    }
  }

  lemma {:induction false} FindAppend(gs: seq<Group>, g: Group, id: Text)
    ensures Find(gs, id).Some? ==> Find(gs + [g], id) == Find(gs, id)
  {
    if gs != [] {
      assert (gs + [g])[1..] == gs[1..] + [g];
      FindAppend(gs[1..], g, id);
    }
  }

  lemma SubscribeCounts(t: Table, streamID: nat, q: Text, group: Text, topic: Text, id: Text)
    ensures CountsOn(t, Subscribe(t, streamID, q, group), topic, id)
  {
    hide Rebuild, Find, HasGroup;
    if group != [] {
      var gs, more := Get(t.groups, q), WithGroup(Get(t.groups, q), q, group);
      FindAppend(gs, Group(group, q, 0, []), id);
      RebuildFinds(Extended(t, streamID, q, group), more, group, id);
    }
  }

  lemma DeactivateCounts(t: Table, i: nat, topic: Text, id: Text)
    ensures CountsOn(t, Deactivate(t, i), topic, id)
  {
    hide Rebuild, Find;
    if i < |t.active| && t.active[i] && i < |t.subGroups| && i < |t.topics| && t.subGroups[i] != [] && t.topics[i] in t.groups {
      RebuildFinds(t.(active := t.active[i := false]), t.groups[t.topics[i]], t.subGroups[i], id);
    }
  }

  lemma {:induction false} UnsubscribeCounts(t: Table, streamID: nat, i: nat, topic: Text, id: Text)
    ensures CountsOn(t, UnsubscribeFrom(t, streamID, i), topic, id)
    decreases |t.streamIDs| - i
  {
    hide Deactivate, GroupOf;
    if i < |t.streamIDs| {
      DeactivateCounts(t, i, topic, id);
      DeactivateGone(t, i);
      UnsubscribeCounts(if t.streamIDs[i] == streamID then Deactivate(t, i) else t, streamID, i + 1, topic, id);
    }
  }

  lemma {:induction false} DisconnectCounts<M>(b: Broker<M>, gone: seq<nat>, topic: Text, id: Text)
    ensures CountsOn(b.table, DisconnectAll(b, gone).table, topic, id)
    decreases gone
  {
    hide Deactivate, GroupOf;
    if gone != [] {
      DeactivateCounts(b.table, gone[0], topic, id);
      DisconnectCounts(b.(table := Deactivate(b.table, gone[0])), gone[1..], topic, id);
    }
  }

  // ---- Deliveries to a member --------------------------------------------------------------------------------------

  /** The deliveries of a topic to a slot. */
  function DeliveredTo(ds: seq<Delivery>, slot: nat, topic: Text): nat
  {
    if ds == [] then 0
    else
      var d := ds[|ds| - 1];
      DeliveredTo(ds[..|ds| - 1], slot, topic) + if d.slot == slot && d.topic == topic then 1 else 0
  }

  lemma {:induction false} DeliveredConcat(a: seq<Delivery>, b: seq<Delivery>, slot: nat, topic: Text)
    ensures DeliveredTo(a + b, slot, topic) == DeliveredTo(a, slot, topic) + DeliveredTo(b, slot, topic)
  {
    if b == [] {
      assert a + b == a;
    } else {
      assert (a + b)[..|a + b| - 1] == a + b[..|b| - 1];
      DeliveredConcat(a, b[..|b| - 1], slot, topic);
    }
  }

  lemma {:induction false} DeliveredToAll(ts: seq<nat>, level: nat, q: Text, offset: nat, slot: nat, topic: Text)
    ensures DeliveredTo(ToAll(ts, level, q, offset), slot, topic) == if q == topic then Occurs(ts, slot) else 0
  {
    hide Occurs;
    if ts == [] {
      OccursNone(slot);
    } else {
      var init, x := ts[..|ts| - 1], ts[|ts| - 1];
      DeliveredToAll(init, level, q, offset, slot, topic);
      var ds := ToAll(ts, level, q, offset);
      assert ds[..|ds| - 1] == ToAll(init, level, q, offset);
      assert init + [x] == ts;
      OccursSnoc(init, x, slot);
    }
  }

  /** One message of the topic reaches the member whose turn it is, and each member once more if the topic is a filter. */
  lemma MemberServed(t: Table, topic: Text, id: Text, g: Group, j: nat)
    requires Exact(t) && id != [] && GroupOf(t, topic, id) == Some(g) && j < |g.members|
    ensures Occurs(Recipients(t, topic), g.members[j])
      == (if Wildcard.IsWildcardTopic(topic) then 1 else 0) + (if g.counter % |g.members| == j then 1 else 0)
  {
    hide Exact, Recipients, Picks, Occurs, Find;
    var gs := Get(t.groups, topic);
    GroupIsExact(t, topic, id);
    MembersDistinct(t, topic, id, g);
    var s, chosen := g.members[j], g.members[g.counter % |g.members|];
    MembersAre(t, topic, id);
    ShapedOf(t);
    GroupsOfTopic(t, topic);
    PickIsTarget(t, topic, gs, id);
    PickedOnly(t, topic, id, chosen, s);
    SentTo(t, topic, s);
  }

  lemma GroupIsExact(t: Table, topic: Text, id: Text)
    requires Exact(t) && GroupOf(t, topic, id).Some?
    ensures GroupExact(t, topic, GroupOf(t, topic, id).value) && GroupOf(t, topic, id).value.id == id
  {
    hide IndexExact, WildcardsExact, Slots;
    FoundExact(t, topic, Get(t.groups, topic), id);
  }

  // ---- Whole runs --------------------------------------------------------------------------------------------------

  /** What k more messages of its topic make of a group, for the member at place j: the counter is k on, and `count`
      deliveries were the member's. */
  ghost predicate Served(g: Group, g': Group, topic: Text, j: nat, k: nat, count: nat)
    requires g.members != []
  {
    && g'.counter == g.counter + k
    && count == (if Wildcard.IsWildcardTopic(topic) then k else 0)
                + Hits(g.counter + k, |g.members|, j) - Hits(g.counter, |g.members|, j)
  }

  lemma HitsStep(c: nat, n: nat, j: nat)
    requires n > 0
    ensures Hits(c + 1, n, j) - Hits(c, n, j) == if c % n == j then 1 else 0
  {
  }

  /** One message through the dispatch all publish paths share. */
  lemma DispatchServes<M>(c: Config, d: Dispatched<M>, q: Text, level: nat, m: M, topic: Text, id: Text, g: Group, j: nat)
    requires Good(d.b) && level < LEVELS && id != [] && GroupOf(d.b.table, topic, id) == Some(g) && j < |g.members|
    requires q == topic ==> g.counter + 1 < U64
    ensures var b' := Dispatch(c, d, q, level, m).b;
      && Good(b') && d.b.sent <= b'.sent
      && GroupOf(b'.table, topic, id) == Some(if q == topic then g.(counter := g.counter + 1) else g)
      && DeliveredTo(b'.sent[|d.b.sent|..], g.members[j], topic)
         == if q != topic then 0
            else (if Wildcard.IsWildcardTopic(topic) then 1 else 0) + (if g.counter % |g.members| == j then 1 else 0)
  {
    hide Exact, EnqueueAll, Targets, Recipients, Find, ToAll, DeliveredTo, Occurs, AfterDispatch;
    var t := d.b.table;
    RecipientsInRange(t, q);
    DispatchExact(t, q);
    DispatchGood(c, d, q, level, m);
    SizeKept(t, q);
    var off := NextOffset(d.b, q);
    var b1 := d.b.(offsets := d.b.offsets[q := off], table := AfterDispatch(t, q));
    EnqueueAllSends(c, d.(b := b1), Targets(t, q), level, m, q, off);
    FindAfter(t, q, topic, id);
    var ds := ToAll(Recipients(t, q), level, q, off);
    assert (d.b.sent + ds)[|d.b.sent|..] == ds;
    DeliveredToAll(Recipients(t, q), level, q, off, g.members[j], topic);
    if q == topic {
      MemberServed(t, topic, id, g, j);
    }
  }

  /** From b to b', the group `g` of b took k messages of its topic, and its member at place j got its due. */
  ghost predicate ServedBy<M>(b: Broker<M>, b': Broker<M>, topic: Text, id: Text, g: Group, j: nat, k: nat)
    requires j < |g.members|
  {
    && b.sent <= b'.sent && GroupOf(b'.table, topic, id).Some?
    && Served(g, GroupOf(b'.table, topic, id).value, topic, j, k, DeliveredTo(b'.sent[|b.sent|..], g.members[j], topic))
  }

  lemma ServedNothing<M>(b: Broker<M>, b': Broker<M>, topic: Text, id: Text, g: Group, j: nat)
    requires GroupOf(b.table, topic, id) == Some(g) && j < |g.members|
    requires b'.sent == b.sent && CountsOn(b.table, b'.table, topic, id)
    ensures ServedBy(b, b', topic, id, g, j, 0)
  {
    hide Hits, Find;
    assert b'.sent[|b.sent|..] == [];
  }

  /** Steps one after another add up, as long as the members stay. */
  lemma ServedThen<M>(b: Broker<M>, b1: Broker<M>, b2: Broker<M>, topic: Text, id: Text, g: Group, g1: Group, j: nat, k: nat, l: nat)
    requires j < |g.members| && g1.members == g.members && GroupOf(b1.table, topic, id) == Some(g1)
    requires ServedBy(b, b1, topic, id, g, j, k) && ServedBy(b1, b2, topic, id, g1, j, l)
    ensures ServedBy(b, b2, topic, id, g, j, k + l)
  {
    hide Hits, Find, DeliveredTo;
    var x, y := b1.sent[|b.sent|..], b2.sent[|b1.sent|..];
    assert b2.sent[|b.sent|..] == x + y;
    DeliveredConcat(x, y, g.members[j], topic);
  }

  lemma MessageServes(c: Config, d: Dispatched<Message>, q: Text, level: nat, m: Message, topic: Text, id: Text, g: Group, j: nat)
    requires Good(d.b) && level < LEVELS && id != [] && GroupOf(d.b.table, topic, id) == Some(g) && j < |g.members|
    requires g.counter + (if q == topic then 1 else 0) < U64
    ensures var b' := Dispatch(c, d, q, level, m).b;
      && Good(b') && ServedBy(d.b, b', topic, id, g, j, if q == topic then 1 else 0)
      && GroupOf(b'.table, topic, id).value.members == g.members
  {
    hide Hits, Find, DeliveredTo, Good, Dispatch;
    DispatchServes(c, d, q, level, m, topic, id, g, j);
    HitsStep(g.counter, |g.members|, j);
  }

  lemma {:induction false} BatchServes(c: Config, d: Dispatched<Message>, pieces: seq<seq<byte>>, topic: Text, id: Text, g: Group, j: nat)
    requires Good(d.b) && id != [] && GroupOf(d.b.table, topic, id) == Some(g) && j < |g.members|
    requires g.counter + PiecesOn(pieces, topic) < U64
    ensures ServedBy(d.b, BatchAll(c, d, pieces).b, topic, id, g, j, PiecesOn(pieces, topic))
    decreases pieces
  {
    hide Hits, Find, DeliveredTo, Good, Dispatch, ParseFrame, TopicOf, LevelOf, ServedBy;
    if pieces == [] {
      ServedNothing(d.b, d.b, topic, id, g, j);
    } else {
      var r := ParseFrame(pieces[0]);
      var d1 := BatchOne(c, d, pieces[0]);
      if r.Err? {
        BatchServes(c, d, pieces[1..], topic, id, g, j);
      } else {
        var q := TopicOf(r.value);
        LevelInRange(r.value);
        MessageServes(c, d, q, LevelOf(r.value), Message(pieces[0], NextOffset(d.b, q), 0), topic, id, g, j);
        ServedCounter(d.b, d1.b, topic, id, g, j, if q == topic then 1 else 0);
        var g1 := GroupOf(d1.b.table, topic, id).value;
        BatchServes(c, d1, pieces[1..], topic, id, g1, j);
        ServedThen(d.b, d1.b, BatchAll(c, d, pieces).b, topic, id, g, g1, j, if q == topic then 1 else 0, PiecesOn(pieces[1..], topic));
      }
    }
  }

  lemma ServedCounter<M>(b: Broker<M>, b': Broker<M>, topic: Text, id: Text, g: Group, j: nat, k: nat)
    requires j < |g.members| && ServedBy(b, b', topic, id, g, j, k)
    ensures GroupOf(b'.table, topic, id).Some? && GroupOf(b'.table, topic, id).value.counter == g.counter + k
  {
  }

  /** Disconnecting the overflowed at the end changes neither counters nor deliveries. */
  lemma ThenDisconnect(b: Broker<Message>, b1: Broker<Message>, gone: seq<nat>, topic: Text, id: Text, g: Group, j: nat, k: nat)
    requires j < |g.members| && ServedBy(b, b1, topic, id, g, j, k)
    ensures ServedBy(b, DisconnectAll(b1, gone), topic, id, g, j, k)
  {
    hide Hits, Find, DeliveredTo, DisconnectAll;
    DisconnectCounts(b1, gone, topic, id);
    DisconnectKeeps(b1, gone);
  }

  lemma OpServes(c: Config, b: Broker<Message>, op: Op, topic: Text, id: Text, g: Group, j: nat)
    requires Good(b) && id != [] && GroupOf(b.table, topic, id) == Some(g) && j < |g.members|
    requires g.counter + MessagesIn(op, topic) < U64
    ensures ServedBy(b, Do(c, b, op), topic, id, g, j, MessagesIn(op, topic))
  {
    hide Hits, Find, DeliveredTo, Good, Dispatch, TopicOf, LevelOf, ServedBy, Pieces, BatchAll, DisconnectAll, Subscribe,
         UnsubscribeFrom, LocalFrame, ExpiryOf, CountsOn;
    match op {
      case Join(streamID, q, group) =>
        SubscribeCounts(b.table, streamID, q, group, topic, id);
        ServedNothing(b, Do(c, b, op), topic, id, g, j);
      case Leave(streamID) =>
        UnsubscribeCounts(b.table, streamID, 0, topic, id);
        ServedNothing(b, Do(c, b, op), topic, id, g, j);
      case Publish(f, now) =>
        if |f.payload| > MAX_PAYLOAD_SIZE {
          NothingChanged(b, topic, id, g, j);
        } else {
          var q := TopicOf(f);
          var m := Message(LocalFrame(f), NextOffset(b, q), ExpiryOf(c, f, now));
          LevelInRange(f);
          MessageServes(c, Dispatched(b, []), q, LevelOf(f), m, topic, id, g, j);
          var d := Dispatch(c, Dispatched(b, []), q, LevelOf(f), m);
          ThenDisconnect(b, d.b, d.gone, topic, id, g, j, if q == topic then 1 else 0);
        }
      case Batch(payload) =>
        if |payload| > MAX_PAYLOAD_SIZE {
          NothingChanged(b, topic, id, g, j);
        } else {
          BatchServes(c, Dispatched(b, []), Pieces(payload), topic, id, g, j);
          var d := BatchAll(c, Dispatched(b, []), Pieces(payload));
          ThenDisconnect(b, d.b, d.gone, topic, id, g, j, PiecesOn(Pieces(payload), topic));
        }
    }
  }

  lemma NothingChanged(b: Broker<Message>, topic: Text, id: Text, g: Group, j: nat)
    requires GroupOf(b.table, topic, id) == Some(g) && j < |g.members|
    ensures ServedBy(b, b, topic, id, g, j, 0)
  {
    hide Hits;
    ServedNothing(b, b, topic, id, g, j);
  }

  function DoFrom(c: Config, b: Broker<Message>, ops: seq<Op>): Broker<Message>
    decreases ops
  {
    if ops == [] then b else DoFrom(c, Do(c, b, ops[0]), ops[1..])
  }

  /** The group has these members before and after every operation. */
  predicate Fixed(c: Config, b: Broker<Message>, ops: seq<Op>, topic: Text, id: Text, members: seq<nat>)
    decreases ops
  {
    && GroupOf(b.table, topic, id).Some? && GroupOf(b.table, topic, id).value.members == members
    && (ops != [] ==> Fixed(c, Do(c, b, ops[0]), ops[1..], topic, id, members))
  }

  /** While a group keeps its members and its counter does not wrap: over any run of publishes and batches, with
      subscribers of other topics coming and going and slow ones being disconnected, the messages of the topic go to the
      members in turn. */
  lemma {:induction false} RunServes(c: Config, b: Broker<Message>, ops: seq<Op>, topic: Text, id: Text, g: Group, j: nat)
    requires Good(b) && id != [] && GroupOf(b.table, topic, id) == Some(g) && j < |g.members|
    requires Fixed(c, b, ops, topic, id, g.members) && g.counter + Messages(ops, topic) < U64
    ensures ServedBy(b, DoFrom(c, b, ops), topic, id, g, j, Messages(ops, topic))
    decreases ops
  {
    hide Hits, Find, DeliveredTo, Good, Do, ServedBy, MessagesIn;
    if ops == [] {
      NothingChanged(b, topic, id, g, j);
    } else {
      var b1 := Do(c, b, ops[0]);
      OpServes(c, b, ops[0], topic, id, g, j);
      DoGood(c, b, ops[0]);
      ServedCounter(b, b1, topic, id, g, j, MessagesIn(ops[0], topic));
      var g1 := GroupOf(b1.table, topic, id).value;
      RunServes(c, b1, ops[1..], topic, id, g1, j);
      ServedThen(b, b1, DoFrom(c, b, ops), topic, id, g, g1, j, MessagesIn(ops[0], topic), Messages(ops[1..], topic));
    }
  }

  /** Fair shares: over any such run, of the k messages of the topic that came, by whatever mix of single publishes, peers
      and batches, each of the n members was sent k/n, rounded down or up, by the group's turn; and if the topic is itself
      a filter, all k once more. */
  lemma RoundRobinFair(c: Config, b: Broker<Message>, ops: seq<Op>, topic: Text, id: Text, g: Group, m: nat)
    requires Good(b) && id != [] && GroupOf(b.table, topic, id) == Some(g) && m in g.members
    requires Fixed(c, b, ops, topic, id, g.members) && g.counter + Messages(ops, topic) < U64
    ensures var b', k, n := DoFrom(c, b, ops), Messages(ops, topic), |g.members|;
      && b.sent <= b'.sent
      && var turns := DeliveredTo(b'.sent[|b.sent|..], m, topic) - if Wildcard.IsWildcardTopic(topic) then k else 0;
         k / n <= turns <= (k + n - 1) / n
  {
    hide Hits, Find, DeliveredTo, Good, Do, DoFrom, Fixed, Messages;
    var j :| 0 <= j < |g.members| && g.members[j] == m;
    RunServes(c, b, ops, topic, id, g, j);
    WindowFair(g.counter, Messages(ops, topic), |g.members|, j);
  }
}
