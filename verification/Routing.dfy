/** The subscriber table and its three indexes, against a plain scan of the slots. */
module Routing {
  import opened Bytes
  import Wildcard

  type Text = seq<byte>

  datatype Group = Group(id: Text, topic: Text, counter: nat, members: seq<nat>)

  datatype WildcardSub = WildcardSub(pattern: Text, idx: nat)

  /** The structure-of-arrays table. Entry i of each array belongs to slot i; the maps are keyed by topic. */
  datatype Table = Table(streamIDs: seq<nat>, topics: seq<Text>, active: seq<bool>, subGroups: seq<Text>,
                         topicIndex: map<Text, seq<nat>>, groups: map<Text, seq<Group>>,
                         wildcardSubs: seq<WildcardSub>)

  const EMPTY: Table := Table([], [], [], [], map[], map[], [])

  function Get<V>(m: map<Text, seq<V>>, k: Text): seq<V> { if k in m then m[k] else [] }

  // ---- Scanning ------------------------------------------------------------------------------------------

  /** The slots below n that satisfy f, in order. */
  function Slots(n: nat, f: nat -> bool): seq<nat>
  {
    if n == 0 then [] else if f(n - 1) then Slots(n - 1, f) + [n - 1] else Slots(n - 1, f)
  }

  lemma {:induction false} SlotsContain(n: nat, f: nat -> bool, i: nat)
    ensures i in Slots(n, f) <==> i < n && f(i)
  {
    if n > 0 {
      SlotsContain(n - 1, f, i);
    }
  }

  lemma {:induction false} SlotsSame(n: nat, f: nat -> bool, g: nat -> bool)
    requires forall i: nat :: i < n ==> f(i) == g(i)
    ensures Slots(n, f) == Slots(n, g)
  {
    if n > 0 {
      SlotsSame(n - 1, f, g);
    }
  }

  function Size(t: Table): nat { |t.topics| }

  predicate Shaped(t: Table)
  {
    |t.streamIDs| == |t.topics| == |t.active| == |t.subGroups|
  }

  /** Slot i subscribes to the topic on its own. */
  predicate Alone(t: Table, topic: Text, i: nat)
  {
    i < |t.topics| && i < |t.subGroups| && t.topics[i] == topic && t.subGroups[i] == []
  }

  /** Slot i is an active member of the group on the topic. */
  predicate Member(t: Table, topic: Text, id: Text, i: nat)
  {
    i < |t.topics| && i < |t.subGroups| && i < |t.active| && t.active[i] && t.topics[i] == topic && t.subGroups[i] == id
  }

  predicate Wild(t: Table, i: nat) { i < |t.topics| && Wildcard.IsWildcardTopic(t.topics[i]) }

  function AloneSlots(t: Table, topic: Text): seq<nat> { Slots(Size(t), (i: nat) => Alone(t, topic, i)) }

  function MemberSlots(t: Table, topic: Text, id: Text): seq<nat> { Slots(Size(t), (i: nat) => Member(t, topic, id, i)) }

  /** The wildcard subscribers among the first n slots, with their patterns. */
  function WildList(t: Table, n: nat): seq<WildcardSub>
    requires n <= Size(t)
  {
    if n == 0 then []
    else if Wild(t, n - 1) then WildList(t, n - 1) + [WildcardSub(t.topics[n - 1], n - 1)]
    else WildList(t, n - 1)
  }

  /** The scan a publish stands for, exact subscribers: each active slot on the topic that is in no group. */
  function ScanExact(t: Table, topic: Text): seq<nat>
  {
    Slots(Size(t), (i: nat) => Alone(t, topic, i) && i < |t.active| && t.active[i])
  }

  /** The scan a publish stands for, wildcard subscribers: each active slot whose filter matches the topic. */
  function ScanWild(t: Table, topic: Text): seq<nat>
  {
    Slots(Size(t), (i: nat) => Wild(t, i) && i < |t.active| && t.active[i] && Wildcard.Matches(t.topics[i], topic))
  }

  /** One active member of each group that has any on the topic, and nobody else. */
  ghost predicate OnePerGroup(t: Table, topic: Text, picks: seq<nat>)
  {
    && (forall k :: 0 <= k < |picks| ==>
          picks[k] < |t.subGroups| && t.subGroups[picks[k]] != [] && Member(t, topic, t.subGroups[picks[k]], picks[k]))
    && (forall j, k :: 0 <= j < k < |picks| && picks[j] < |t.subGroups| && picks[k] < |t.subGroups| ==>
          t.subGroups[picks[j]] != t.subGroups[picks[k]])
    && (forall i :: 0 <= i < |t.subGroups| && t.subGroups[i] != [] && Member(t, topic, t.subGroups[i], i) ==>
          exists k :: 0 <= k < |picks| && picks[k] < |t.subGroups| && t.subGroups[picks[k]] == t.subGroups[i])
  }

  // ---- The operations ------------------------------------------------------------------------------------

  /** rebuildGroupMembersLocked, for every group of the topic with that id. */
  function Rebuild(t: Table, gs: seq<Group>, id: Text): (r: seq<Group>)
    ensures |r| == |gs|
    ensures forall k :: 0 <= k < |gs| ==>
      r[k] == if gs[k].id == id then gs[k].(members := MemberSlots(t, gs[k].topic, id)) else gs[k]
  {
    if gs == [] then []
    else
      [if gs[0].id == id then gs[0].(members := MemberSlots(t, gs[0].topic, id)) else gs[0]] + Rebuild(t, gs[1..], id)
  }

  predicate HasGroup(gs: seq<Group>, id: Text) { exists k :: 0 <= k < |gs| && gs[k].id == id }

  /** The groups of the subscribed topic before the rebuild. */
  function WithGroup(gs: seq<Group>, topic: Text, group: Text): seq<Group>
  {
    if HasGroup(gs, group) then gs else gs + [Group(group, topic, 0, [])]
  }

  /** The table with the arrays extended and nothing else. */
  function Extended(t: Table, streamID: nat, topic: Text, group: Text): Table
  {
    t.(streamIDs := t.streamIDs + [streamID], topics := t.topics + [topic], active := t.active + [true],
       subGroups := t.subGroups + [group])
  }

  /** Subscribe, the part under the lock that fills the table. */
  function Subscribe(t: Table, streamID: nat, topic: Text, group: Text): Table
  {
    var idx := Size(t);
    var t1 := Extended(t, streamID, topic, group);
    var t2 :=
      if group != [] then
        t1.(groups := t.groups[topic := Rebuild(t1, WithGroup(Get(t.groups, topic), topic, group), group)])
      else
        t1.(topicIndex := t.topicIndex[topic := Get(t.topicIndex, topic) + [idx]]);
    if Wildcard.IsWildcardTopic(topic) then t2.(wildcardSubs := t.wildcardSubs + [WildcardSub(topic, idx)]) else t2
  }

  /** disconnectSubscriber, and the body of Unsubscribe's loop: an active slot goes, its group is rebuilt. */
  function Deactivate(t: Table, i: nat): Table
  {
    if i < |t.active| && t.active[i] then
      var t1 := t.(active := t.active[i := false]);
      if i < |t.subGroups| && i < |t.topics| && t.subGroups[i] != [] && t.topics[i] in t.groups then
        t1.(groups := t.groups[t.topics[i] := Rebuild(t1, t.groups[t.topics[i]], t.subGroups[i])])
      else t1
    else t
  }

  /** Unsubscribe: every active slot of the stream, in order. */
  function UnsubscribeFrom(t: Table, streamID: nat, i: nat): Table
    decreases |t.streamIDs| - i
  {
    if i >= |t.streamIDs| then t
    else UnsubscribeFrom(if t.streamIDs[i] == streamID then Deactivate(t, i) else t, streamID, i + 1)
  }

  function Unsubscribe(t: Table, streamID: nat): Table { UnsubscribeFrom(t, streamID, 0) }

  /** The active slots of a list of indices. */
  function Live(t: Table, s: seq<nat>): seq<nat>
  {
    if s == [] then []
    else (if s[0] < |t.active| && t.active[s[0]] then [s[0]] else []) + Live(t, s[1..])
  }

  /** The active slots of the wildcard list whose pattern matches. */
  function LiveMatching(t: Table, ws: seq<WildcardSub>, topic: Text): seq<nat>
  {
    if ws == [] then []
    else
      (if ws[0].idx < |t.active| && t.active[ws[0].idx] && Wildcard.Matches(ws[0].pattern, topic) then [ws[0].idx] else [])
      + LiveMatching(t, ws[1..], topic)
  }

  /** One round of the groups: each with members picks the next and counts up. */
  function Picks(t: Table, gs: seq<Group>): seq<nat>
  {
    if gs == [] then []
    else
      var g := gs[0];
      var pick := if g.members == [] then [] else Live(t, [g.members[g.counter % |g.members|]]);
      pick + Picks(t, gs[1..])
  }

  function Advance(g: Group): Group
  {
    if g.members == [] then g else g.(counter := (g.counter + 1) % U64)
  }

  function AdvanceAll(gs: seq<Group>): (r: seq<Group>)
    ensures |r| == |gs| && forall k :: 0 <= k < |gs| ==> r[k] == Advance(gs[k])
  {
    if gs == [] then [] else [Advance(gs[0])] + AdvanceAll(gs[1..])
  }

  /** The slots one publish enqueues to, in the order it does. */
  function Targets(t: Table, topic: Text): seq<nat>
  {
    Live(t, Get(t.topicIndex, topic)) + LiveMatching(t, t.wildcardSubs, topic) + Picks(t, Get(t.groups, topic))
  }

  /** The table after a publish: only the counters of the topic's groups move. */
  function AfterDispatch(t: Table, topic: Text): Table
  {
    if topic in t.groups then t.(groups := t.groups[topic := AdvanceAll(t.groups[topic])]) else t
  }

  // ---- The invariant -------------------------------------------------------------------------------------

  ghost predicate IndexExact(t: Table)
  {
    forall topic :: Get(t.topicIndex, topic) == AloneSlots(t, topic)
  }

  ghost predicate WildcardsExact(t: Table) { t.wildcardSubs == WildList(t, Size(t)) }

  ghost predicate GroupExact(t: Table, topic: Text, g: Group)
  {
    g.id != [] && g.topic == topic && g.members == MemberSlots(t, topic, g.id)
  }

  ghost predicate GroupsExact(t: Table)
  {
    && (forall topic, k :: topic in t.groups && 0 <= k < |t.groups[topic]| ==> GroupExact(t, topic, t.groups[topic][k]))
    && (forall topic, j, k :: topic in t.groups && 0 <= j < k < |t.groups[topic]| ==> t.groups[topic][j].id != t.groups[topic][k].id)
    && (forall i :: 0 <= i < |t.subGroups| && i < |t.topics| && t.subGroups[i] != [] ==>
          HasGroup(Get(t.groups, t.topics[i]), t.subGroups[i]))
  }

  ghost predicate Exact(t: Table)
  {
    Shaped(t) && IndexExact(t) && WildcardsExact(t) && GroupsExact(t)
  }

  lemma ShapedOf(t: Table)
    requires Exact(t)
    ensures Shaped(t)
  {
  }

  lemma SlotsSnoc(n: nat, f: nat -> bool, g: nat -> bool)
    requires forall i: nat :: i < n ==> f(i) == g(i)
    ensures Slots(n + 1, g) == Slots(n, f) + if g(n) then [n] else []
  {
    SlotsSame(n, f, g);
  }

  lemma EmptyExact()
    ensures Exact(EMPTY)
  {
  }

  /** The members of a group depend on the arrays alone. */
  lemma MembersSame(t: Table, t': Table, topic: Text, id: Text)
    requires Size(t) == Size(t') && forall i: nat :: Member(t, topic, id, i) == Member(t', topic, id, i)
    ensures MemberSlots(t, topic, id) == MemberSlots(t', topic, id)
  {
    SlotsSame(Size(t), (i: nat) => Member(t, topic, id, i), (i: nat) => Member(t', topic, id, i));
  }

  // ---- Subscribe keeps the indexes exact -------------------------------------------------------------------

  /** t' is t with one more slot. */
  ghost predicate OneMore(t: Table, t': Table, streamID: nat, topic: Text, group: Text)
  {
    && t'.streamIDs == t.streamIDs + [streamID] && t'.topics == t.topics + [topic]
    && t'.active == t.active + [true] && t'.subGroups == t.subGroups + [group]
  }

  lemma AloneSnoc(t: Table, t': Table, streamID: nat, topic: Text, group: Text, q: Text)
    requires Shaped(t) && OneMore(t, t', streamID, topic, group)
    ensures AloneSlots(t', q) == AloneSlots(t, q) + if topic == q && group == [] then [Size(t)] else []
  {
    SlotsSnoc(Size(t), (i: nat) => Alone(t, q, i), (i: nat) => Alone(t', q, i));
  }

  lemma MemberSnoc(t: Table, t': Table, streamID: nat, topic: Text, group: Text, q: Text, id: Text)
    requires Shaped(t) && OneMore(t, t', streamID, topic, group)
    ensures MemberSlots(t', q, id) == MemberSlots(t, q, id) + if topic == q && group == id then [Size(t)] else []
  {
    SlotsSnoc(Size(t), (i: nat) => Member(t, q, id, i), (i: nat) => Member(t', q, id, i));
  }

  lemma {:induction false} WildListSame(t: Table, t': Table, n: nat)
    requires n <= Size(t) && n <= Size(t') && t.topics[..n] == t'.topics[..n]
    ensures WildList(t, n) == WildList(t', n)
  {
    if n > 0 {
      assert t.topics[n - 1] == t.topics[..n][n - 1] == t'.topics[..n][n - 1] == t'.topics[n - 1];
      assert t.topics[..n - 1] == t.topics[..n][..n - 1] == t'.topics[..n][..n - 1] == t'.topics[..n - 1];
      WildListSame(t, t', n - 1);
    }
  }

  lemma SubscribeIndex(t: Table, streamID: nat, topic: Text, group: Text)
    requires Exact(t)
    ensures IndexExact(Subscribe(t, streamID, topic, group))
  {
    hide Slots, AloneSlots, WildcardsExact, GroupsExact;
    var t' := Subscribe(t, streamID, topic, group);
    forall q ensures Get(t'.topicIndex, q) == AloneSlots(t', q) {
      AloneSnoc(t, t', streamID, topic, group, q);
      assert Get(t.topicIndex, q) == AloneSlots(t, q);
    }
  }

  lemma SubscribeWildcards(t: Table, streamID: nat, topic: Text, group: Text)
    requires Exact(t)
    ensures WildcardsExact(Subscribe(t, streamID, topic, group))
  {
    hide IndexExact, GroupsExact, Subscribe;
    SubscribeParts(t, streamID, topic, group);
    var t' := Subscribe(t, streamID, topic, group);
    assert t'.topics[..Size(t)] == t.topics[..Size(t)];
    WildListSame(t, t', Size(t));
  }

  lemma WithGroupIds(gs: seq<Group>, topic: Text, group: Text)
    requires forall j, k :: 0 <= j < k < |gs| ==> gs[j].id != gs[k].id
    ensures var more := WithGroup(gs, topic, group);
      && HasGroup(more, group)
      && (forall id :: HasGroup(gs, id) ==> HasGroup(more, id))
      && (forall j, k :: 0 <= j < k < |more| ==> more[j].id != more[k].id)
  {
    var more := WithGroup(gs, topic, group);
    if !HasGroup(gs, group) {
      assert more[|gs|].id == group;
      forall id | HasGroup(gs, id) ensures HasGroup(more, id) {
        var k :| 0 <= k < |gs| && gs[k].id == id;
        assert more[k].id == id;
      }
    }
  }

  lemma RebuildIds(t: Table, gs: seq<Group>, id: Text)
    ensures forall x :: HasGroup(gs, x) ==> HasGroup(Rebuild(t, gs, id), x)
  {
    forall x | HasGroup(gs, x) ensures HasGroup(Rebuild(t, gs, id), x) {
      var k :| 0 <= k < |gs| && gs[k].id == x;
      assert Rebuild(t, gs, id)[k].id == x;
    }
  }

  lemma RebuildExact(t: Table, t1: Table, streamID: nat, topic: Text, group: Text, k: nat)
    requires Shaped(t) && group != [] && OneMore(t, t1, streamID, topic, group)
    requires forall j :: 0 <= j < |Get(t.groups, topic)| ==> GroupExact(t, topic, Get(t.groups, topic)[j])
    requires k < |WithGroup(Get(t.groups, topic), topic, group)|
    ensures GroupExact(t1, topic, Rebuild(t1, WithGroup(Get(t.groups, topic), topic, group), group)[k])
  {
    hide Slots, MemberSlots, HasGroup;
    var gs := Get(t.groups, topic);
    var more := WithGroup(gs, topic, group);
    MemberSnoc(t, t1, streamID, topic, group, topic, more[k].id);
    if k < |gs| {
      assert GroupExact(t, topic, gs[k]);
    }
  }

  lemma SubscribeParts(t: Table, streamID: nat, topic: Text, group: Text)
    ensures var t' := Subscribe(t, streamID, topic, group);
      && OneMore(t, t', streamID, topic, group)
      && t'.wildcardSubs == t.wildcardSubs + (if Wildcard.IsWildcardTopic(topic) then [WildcardSub(topic, Size(t))] else [])
      && t'.groups == (if group == [] then t.groups
                       else t.groups[topic := Rebuild(Extended(t, streamID, topic, group),
                                                      WithGroup(Get(t.groups, topic), topic, group), group)])
  {
  }

  lemma SubscribeEachGroup(t: Table, streamID: nat, topic: Text, group: Text, q: Text, k: nat)
    requires Exact(t)
    requires var t' := Subscribe(t, streamID, topic, group); q in t'.groups && k < |t'.groups[q]|
    ensures var t' := Subscribe(t, streamID, topic, group); GroupExact(t', q, t'.groups[q][k])
  {
    hide Slots, MemberSlots, IndexExact, WildcardsExact, HasGroup, Subscribe, WithGroup, Rebuild;
    SubscribeParts(t, streamID, topic, group);
    var t' := Subscribe(t, streamID, topic, group);
    var t1 := Extended(t, streamID, topic, group);
    var g := t'.groups[q][k];
    MembersSame(t1, t', q, g.id);
    if group != [] && q == topic {
      RebuildExact(t, t1, streamID, topic, group, k);
    } else {
      MemberSnoc(t, t1, streamID, topic, group, q, g.id);
      assert GroupExact(t, q, t.groups[q][k]);
    }
  }

  lemma SubscribeGroups(t: Table, streamID: nat, topic: Text, group: Text)
    requires Exact(t)
    ensures GroupsExact(Subscribe(t, streamID, topic, group))
  {
    hide Slots, IndexExact, WildcardsExact, HasGroup, Subscribe, WithGroup, GroupExact;
    SubscribeParts(t, streamID, topic, group);
    var t' := Subscribe(t, streamID, topic, group);
    WithGroupIds(Get(t.groups, topic), topic, group);
    forall q, k | q in t'.groups && 0 <= k < |t'.groups[q]| ensures GroupExact(t', q, t'.groups[q][k]) {
      SubscribeEachGroup(t, streamID, topic, group, q, k);
    }
    forall i | 0 <= i < |t'.subGroups| && i < |t'.topics| && t'.subGroups[i] != []
      ensures HasGroup(Get(t'.groups, t'.topics[i]), t'.subGroups[i])
    {
      SubscribeFindsGroup(t, streamID, topic, group, i);
    }
  }

  lemma SubscribeFindsGroup(t: Table, streamID: nat, topic: Text, group: Text, i: nat)
    requires Exact(t)
    requires var t' := Subscribe(t, streamID, topic, group);
      i < |t'.subGroups| && i < |t'.topics| && t'.subGroups[i] != []
    ensures var t' := Subscribe(t, streamID, topic, group); HasGroup(Get(t'.groups, t'.topics[i]), t'.subGroups[i])
  {
    hide Slots, IndexExact, WildcardsExact, HasGroup, Subscribe, WithGroup, GroupExact;
    SubscribeParts(t, streamID, topic, group);
    var gs := Get(t.groups, topic);
    WithGroupIds(gs, topic, group);
    RebuildIds(Extended(t, streamID, topic, group), WithGroup(gs, topic, group), group);
    if i < Size(t) {
      assert HasGroup(Get(t.groups, t.topics[i]), t.subGroups[i]);
    }
  }

  /** Subscribe keeps every index exact. */
  lemma SubscribeExact(t: Table, streamID: nat, topic: Text, group: Text)
    requires Exact(t)
    ensures Exact(Subscribe(t, streamID, topic, group))
  {
    SubscribeIndex(t, streamID, topic, group);
    SubscribeWildcards(t, streamID, topic, group);
    SubscribeGroups(t, streamID, topic, group);
  }

  // ---- Disconnect and Unsubscribe keep them exact ------------------------------------------------------------

  lemma DeactivateGroups(t: Table, i: nat)
    requires Exact(t) && i < Size(t) && t.active[i]
    ensures GroupsExact(Deactivate(t, i))
  {
    hide Slots, MemberSlots, IndexExact, WildcardsExact;
    var t' := Deactivate(t, i);
    var t1 := t.(active := t.active[i := false]);
    var topic, id := t.topics[i], t.subGroups[i];
    if id != [] {
      assert HasGroup(Get(t.groups, topic), id);
    }
    forall q, k | q in t'.groups && 0 <= k < |t'.groups[q]|
      ensures GroupExact(t', q, t'.groups[q][k]) && t'.groups[q][k].id == t.groups[q][k].id
    {
      var g := t.groups[q][k];
      assert GroupExact(t, q, g);
      MembersSame(t1, t', q, g.id);
      if !(q == topic && g.id == id) {
        MembersSame(t, t1, q, g.id);
      }
    }
    forall j | 0 <= j < |t'.subGroups| && j < |t'.topics| && t'.subGroups[j] != []
      ensures HasGroup(Get(t'.groups, t'.topics[j]), t'.subGroups[j])
    {
      assert HasGroup(Get(t.groups, t.topics[j]), t.subGroups[j]);
      var k :| 0 <= k < |Get(t.groups, t.topics[j])| && Get(t.groups, t.topics[j])[k].id == t.subGroups[j];
      assert t'.groups[t.topics[j]][k].id == t.subGroups[j];
    }
  }

  lemma DeactivateExact(t: Table, i: nat)
    requires Exact(t)
    ensures Exact(Deactivate(t, i))
    ensures Size(Deactivate(t, i)) == Size(t) && Deactivate(t, i).streamIDs == t.streamIDs
  {
    if i < |t.active| && t.active[i] {
      DeactivateGroups(t, i);
      hide Slots, GroupsExact;
      var t' := Deactivate(t, i);
      forall q ensures AloneSlots(t', q) == AloneSlots(t, q) {
        SlotsSame(Size(t), (j: nat) => Alone(t, q, j), (j: nat) => Alone(t', q, j));
      }
      WildListSame(t, t', Size(t));
    }
  }

  lemma {:induction false} UnsubscribeExact(t: Table, streamID: nat, i: nat)
    requires Exact(t)
    ensures Exact(UnsubscribeFrom(t, streamID, i)) && Size(UnsubscribeFrom(t, streamID, i)) == Size(t)
    decreases |t.streamIDs| - i
  {
    hide Exact;
    if i < |t.streamIDs| {
      DeactivateExact(t, i);
      UnsubscribeExact(if t.streamIDs[i] == streamID then Deactivate(t, i) else t, streamID, i + 1);
    }
  }

  // ---- Who is gone -------------------------------------------------------------------------------------------------

  /** t' has the slots of t, and those for which f holds are no longer active. */
  ghost predicate Gone(t: Table, t': Table, f: nat -> bool)
  {
    && t'.streamIDs == t.streamIDs && t'.topics == t.topics && t'.subGroups == t.subGroups
    && |t'.active| == |t.active|
    && forall j: nat :: j < |t.active| ==> (t'.active[j] <==> t.active[j] && !f(j))
  }

  /** A disconnect takes that slot and no other. */
  lemma DeactivateGone(t: Table, i: nat)
    ensures Gone(t, Deactivate(t, i), (j: nat) => j == i)
  {
    hide Rebuild;
  }

  /** From slot i on, exactly the slots of the stream go. */
  lemma {:induction false} UnsubscribeGone(t: Table, streamID: nat, i: nat)
    requires Shaped(t)
    ensures Gone(t, UnsubscribeFrom(t, streamID, i), (j: nat) => j >= i && j < |t.streamIDs| && t.streamIDs[j] == streamID)
    decreases |t.streamIDs| - i
  {
    hide Deactivate;
    if i < |t.streamIDs| {
      DeactivateGone(t, i);
      UnsubscribeGone(if t.streamIDs[i] == streamID then Deactivate(t, i) else t, streamID, i + 1);
    }
  }

  /** A publish moves counters only. */
  lemma DispatchExact(t: Table, topic: Text)
    requires Exact(t)
    ensures Exact(AfterDispatch(t, topic))
  {
    hide Slots;
    var t' := AfterDispatch(t, topic);
    forall q ensures AloneSlots(t', q) == AloneSlots(t, q) {
      SlotsSame(Size(t), (j: nat) => Alone(t, q, j), (j: nat) => Alone(t', q, j));
    }
    WildListSame(t, t', Size(t));
    DispatchGroups(t, topic);
  }

  lemma DispatchGroups(t: Table, topic: Text)
    requires Exact(t)
    ensures GroupsExact(AfterDispatch(t, topic))
  {
    hide Slots, MemberSlots, IndexExact, WildcardsExact;
    var t' := AfterDispatch(t, topic);
    forall q, k | q in t'.groups && 0 <= k < |t'.groups[q]|
      ensures GroupExact(t', q, t'.groups[q][k]) && t'.groups[q][k].id == t.groups[q][k].id
    {
      assert GroupExact(t, q, t.groups[q][k]);
      MembersSame(t, t', q, t.groups[q][k].id);
    }
    forall j | 0 <= j < |t'.subGroups| && j < |t'.topics| && t'.subGroups[j] != []
      ensures HasGroup(Get(t'.groups, t'.topics[j]), t'.subGroups[j])
    {
      assert HasGroup(Get(t.groups, t.topics[j]), t.subGroups[j]);
      var k :| 0 <= k < |Get(t.groups, t.topics[j])| && Get(t.groups, t.topics[j])[k].id == t.subGroups[j];
      assert t'.groups[t.topics[j]][k].id == t.subGroups[j];
    }
  }

  // ---- Every history --------------------------------------------------------------------------------------------

  datatype Event =
    | SubscribeEvent(streamID: nat, topic: Text, group: Text)
    | UnsubscribeEvent(streamID: nat)
    | DisconnectEvent(idx: nat)
    | PublishEvent(topic: Text)

  function Apply(t: Table, e: Event): Table
  {
    match e
    case SubscribeEvent(streamID, topic, group) => Subscribe(t, streamID, topic, group)
    case UnsubscribeEvent(streamID) => Unsubscribe(t, streamID)
    case DisconnectEvent(idx) => Deactivate(t, idx)
    case PublishEvent(topic) => AfterDispatch(t, topic)
  }

  /** The table after a history of operations. */
  function After(es: seq<Event>): Table
  {
    if es == [] then EMPTY else Apply(After(es[..|es| - 1]), es[|es| - 1])
  }

  lemma {:induction false} HistoryExact(es: seq<Event>)
    ensures Exact(After(es))
  {
    if es == [] {
      EmptyExact();
    } else {
      HistoryExact(es[..|es| - 1]);
      hide Exact, Subscribe, Deactivate, AfterDispatch;
      var t := After(es[..|es| - 1]);
      match es[|es| - 1]
      case SubscribeEvent(streamID, topic, group) => SubscribeExact(t, streamID, topic, group);
      case UnsubscribeEvent(streamID) => UnsubscribeExact(t, streamID, 0);
      case DisconnectEvent(idx) => DeactivateExact(t, idx);
      case PublishEvent(topic) => DispatchExact(t, topic);
    }
  }

  /** The subscriptions of a history, in order: stream, topic and group. */
  function Joined(es: seq<Event>): seq<(nat, Text, Text)>
  {
    if es == [] then []
    else
      var init, e := Joined(es[..|es| - 1]), es[|es| - 1];
      if e.SubscribeEvent? then init + [(e.streamID, e.topic, e.group)] else init
  }

  /** The i-th subscription was made and has neither been unsubscribed with its stream nor disconnected since. */
  predicate Here(es: seq<Event>, i: nat)
  {
    if es == [] then false
    else
      var init := es[..|es| - 1];
      match es[|es| - 1]
      case SubscribeEvent(_, _, _) => i == |Joined(init)| || Here(init, i)
      case UnsubscribeEvent(streamID) => Here(init, i) && i < |Joined(init)| && Joined(init)[i].0 != streamID
      case DisconnectEvent(idx) => Here(init, i) && i != idx
      case PublishEvent(_) => Here(init, i)
  }

  /** The slots of a table are these subscriptions, and the active ones those for which f holds. */
  ghost predicate Holds(t: Table, js: seq<(nat, Text, Text)>, f: nat -> bool)
  {
    && Shaped(t) && Size(t) == |js|
    && forall i: nat :: i < |js| ==>
      t.streamIDs[i] == js[i].0 && t.topics[i] == js[i].1 && t.subGroups[i] == js[i].2 && (t.active[i] <==> f(i))
  }

  /** After every history the slots are the subscriptions it made, in order, and active are those still there. */
  lemma {:induction false} WhoIsThere(es: seq<Event>)
    ensures Holds(After(es), Joined(es), (i: nat) => Here(es, i))
  {
    if es != [] {
      var init, e := es[..|es| - 1], es[|es| - 1];
      WhoIsThere(init);
      var f, g := (i: nat) => Here(init, i), (i: nat) => Here(es, i);
      hide Holds, Apply, Subscribe, UnsubscribeFrom, Deactivate, AfterDispatch;
      if e.SubscribeEvent? {
        HereBelow(init, |Joined(init)|);
        HoldsJoin(After(init), Joined(init), f, e, g);
      } else {
        HoldsOther(After(init), Joined(init), f, e, g);
      }
    }
  }

  lemma HoldsJoin(t: Table, js: seq<(nat, Text, Text)>, f: nat -> bool, e: Event, g: nat -> bool)
    requires Holds(t, js, f) && e.SubscribeEvent? && forall i: nat :: i <= |js| ==> (g(i) <==> i == |js| || f(i))
    ensures Holds(Apply(t, e), js + [(e.streamID, e.topic, e.group)], g)
  {
    hide Subscribe;
    SubscribeParts(t, e.streamID, e.topic, e.group);
  }

  lemma HoldsOther(t: Table, js: seq<(nat, Text, Text)>, f: nat -> bool, e: Event, g: nat -> bool)
    requires Holds(t, js, f) && !e.SubscribeEvent?
    requires forall i: nat :: i < |js| ==>
      (g(i) <==> f(i) && (e.UnsubscribeEvent? ==> js[i].0 != e.streamID) && (e.DisconnectEvent? ==> i != e.idx))
    ensures Holds(Apply(t, e), js, g)
  {
    match e
    case UnsubscribeEvent(streamID) =>
      hide UnsubscribeFrom;
      UnsubscribeGone(t, streamID, 0);
    case DisconnectEvent(idx) =>
      hide Deactivate;
      DeactivateGone(t, idx);
    case PublishEvent(_) =>
  }

  lemma {:induction false} HereBelow(es: seq<Event>, i: nat)
    ensures Here(es, i) ==> i < |Joined(es)|
  {
    if es != [] {
      HereBelow(es[..|es| - 1], i);
    }
  }

  // ---- Targets are the scan ---------------------------------------------------------------------------------------

  lemma {:induction false} LiveConcat(t: Table, a: seq<nat>, b: seq<nat>)
    ensures Live(t, a + b) == Live(t, a) + Live(t, b)
  {
    if a == [] {
      assert a + b == b;
    } else {
      assert (a + b)[1..] == a[1..] + b;
      LiveConcat(t, a[1..], b);
    }
  }

  lemma LiveNone(t: Table)
    ensures Live(t, []) == []
  {
  }

  lemma LiveOne(t: Table, i: nat)
    ensures Live(t, [i]) == if i < |t.active| && t.active[i] then [i] else []
  {
    assert [i][1..] == [] && Live(t, []) == [];
  }

  lemma {:induction false} LiveSlots(t: Table, n: nat, f: nat -> bool, g: nat -> bool)
    requires forall i: nat :: i < n ==> (g(i) <==> f(i) && i < |t.active| && t.active[i])
    ensures Live(t, Slots(n, f)) == Slots(n, g)
  {
    hide Live;
    if n == 0 {
      LiveNone(t);
    } else {
      LiveSlots(t, n - 1, f, g);
      if f(n - 1) {
        LiveConcat(t, Slots(n - 1, f), [n - 1]);
        LiveOne(t, n - 1);
      }
    }
  }

  lemma {:induction false} LiveMatchingConcat(t: Table, a: seq<WildcardSub>, b: seq<WildcardSub>, topic: Text)
    ensures LiveMatching(t, a + b, topic) == LiveMatching(t, a, topic) + LiveMatching(t, b, topic)
  {
    if a == [] {
      assert a + b == b;
    } else {
      assert (a + b)[1..] == a[1..] + b;
      LiveMatchingConcat(t, a[1..], b, topic);
    }
  }

  lemma LiveMatchingOne(t: Table, w: WildcardSub, topic: Text)
    ensures LiveMatching(t, [w], topic)
      == if w.idx < |t.active| && t.active[w.idx] && Wildcard.Matches(w.pattern, topic) then [w.idx] else []
  {
    assert [w][1..] == [] && LiveMatching(t, [], topic) == [];
  }

  lemma {:induction false} LiveMatchingSlots(t: Table, n: nat, topic: Text, f: nat -> bool)
    requires Shaped(t) && n <= Size(t)
    requires forall i: nat :: i < n ==> (f(i) <==> Wild(t, i) && t.active[i] && Wildcard.Matches(t.topics[i], topic))
    ensures LiveMatching(t, WildList(t, n), topic) == Slots(n, f)
  {
    if n > 0 {
      LiveMatchingSlots(t, n - 1, topic, f);
      if Wild(t, n - 1) {
        var w := WildcardSub(t.topics[n - 1], n - 1);
        LiveMatchingConcat(t, WildList(t, n - 1), [w], topic);
        LiveMatchingOne(t, w, topic);
      }
    }
  }

  /** The ids of the groups that have members. */
  function Ids(gs: seq<Group>): seq<Text>
  {
    if gs == [] then [] else (if gs[0].members == [] then [] else [gs[0].id]) + Ids(gs[1..])
  }

  function GroupsOf(t: Table, picks: seq<nat>): (r: seq<Text>)
    ensures |r| == |picks|
    ensures forall k :: 0 <= k < |picks| ==> r[k] == if picks[k] < |t.subGroups| then t.subGroups[picks[k]] else []
  {
    if picks == [] then []
    else [if picks[0] < |t.subGroups| then t.subGroups[picks[0]] else []] + GroupsOf(t, picks[1..])
  }

  lemma HeadPick(t: Table, topic: Text, g: Group)
    requires Shaped(t) && GroupExact(t, topic, g) && g.members != []
    ensures var m := g.members[g.counter % |g.members|];
      Member(t, topic, g.id, m) && Live(t, [m]) == [m]
  {
    var m := g.members[g.counter % |g.members|];
    SlotsContain(Size(t), (i: nat) => Member(t, topic, g.id, i), m);
    LiveOne(t, m);
  }

  /** The picks are active members, one for each group with members, in the order of the groups. */
  lemma {:induction false} PicksInGroups(t: Table, topic: Text, gs: seq<Group>)
    requires Shaped(t) && forall k :: 0 <= k < |gs| ==> GroupExact(t, topic, gs[k])
    ensures GroupsOf(t, Picks(t, gs)) == Ids(gs)
    ensures forall k :: 0 <= k < |Picks(t, gs)| ==>
      Picks(t, gs)[k] < |t.subGroups| && Member(t, topic, t.subGroups[Picks(t, gs)[k]], Picks(t, gs)[k])
  {
    hide MemberSlots;
    if gs != [] {
      PicksInGroups(t, topic, gs[1..]);
      assert GroupExact(t, topic, gs[0]);
      if gs[0].members != [] {
        HeadPick(t, topic, gs[0]);
        var m := gs[0].members[gs[0].counter % |gs[0].members|];
        assert Picks(t, gs) == [m] + Picks(t, gs[1..]);
        assert GroupsOf(t, Picks(t, gs)) == [gs[0].id] + Ids(gs[1..]);
      } else {
        assert Picks(t, gs) == Picks(t, gs[1..]);
      }
    }
  }

  /** Ids lists the groups with members. */
  lemma {:induction false} IdsContain(gs: seq<Group>, id: Text)
    ensures id in Ids(gs) <==> exists k :: 0 <= k < |gs| && gs[k].id == id && gs[k].members != []
  {
    if gs != [] {
      var rest := gs[1..];
      IdsContain(rest, id);
      if exists k :: 0 <= k < |gs| && gs[k].id == id && gs[k].members != [] {
        var k :| 0 <= k < |gs| && gs[k].id == id && gs[k].members != [];
        if k > 0 {
          assert rest[k - 1] == gs[k];
        }
      }
      if id in Ids(rest) {
        var k :| 0 <= k < |rest| && rest[k].id == id && rest[k].members != [];
        assert gs[k + 1] == rest[k];
      }
    }
  }

  /** Each of them once. */
  lemma {:induction false} IdsDistinct(gs: seq<Group>)
    requires forall j, k :: 0 <= j < k < |gs| ==> gs[j].id != gs[k].id
    ensures forall j, k :: 0 <= j < k < |Ids(gs)| ==> Ids(gs)[j] != Ids(gs)[k]
  {
    if gs != [] {
      var rest, id := gs[1..], gs[0].id;
      IdsDistinct(rest);
      IdsContain(rest, id);
      forall k | 0 <= k < |rest| ensures rest[k].id != id {
        assert rest[k] == gs[k + 1];
      }
      assert id !in Ids(rest);
      hide Ids;
      IdsCons(gs);
      if gs[0].members != [] {
        ConsDistinct(id, Ids(rest));
      }
    }
  }

  lemma IdsCons(gs: seq<Group>)
    requires gs != []
    ensures Ids(gs) == if gs[0].members == [] then Ids(gs[1..]) else [gs[0].id] + Ids(gs[1..])
  {
  }

  lemma ConsDistinct(x: Text, xs: seq<Text>)
    requires x !in xs && forall j, k :: 0 <= j < k < |xs| ==> xs[j] != xs[k]
    ensures forall j, k :: 0 <= j < k < |[x] + xs| ==> ([x] + xs)[j] != ([x] + xs)[k]
  {
  }

  /** In every table with exact indexes, a publish enqueues to the naive scan: each active ungrouped slot on the
      topic, each active matching wildcard slot, one active member of each non-empty group. */
  lemma TargetsAreScan(t: Table, topic: Text)
    requires Exact(t)
    ensures Targets(t, topic) == ScanExact(t, topic) + ScanWild(t, topic) + Picks(t, Get(t.groups, topic))
    ensures OnePerGroup(t, topic, Picks(t, Get(t.groups, topic)))
  {
    LiveSlots(t, Size(t), (i: nat) => Alone(t, topic, i), (i: nat) => Alone(t, topic, i) && i < |t.active| && t.active[i]);
    LiveMatchingSlots(t, Size(t), topic,
      (i: nat) => Wild(t, i) && i < |t.active| && t.active[i] && Wildcard.Matches(t.topics[i], topic));
    GroupPicks(t, topic);
  }

  lemma GroupsOfTopic(t: Table, topic: Text)
    requires Exact(t)
    ensures var gs := Get(t.groups, topic);
      && (forall k :: 0 <= k < |gs| ==> GroupExact(t, topic, gs[k]) && gs[k].id != [])
      && (forall j, k :: 0 <= j < k < |gs| ==> gs[j].id != gs[k].id)
  {
    hide IndexExact, WildcardsExact, MemberSlots;
  }

  lemma GroupPicks(t: Table, topic: Text)
    requires Exact(t)
    ensures OnePerGroup(t, topic, Picks(t, Get(t.groups, topic)))
  {
    hide Exact, GroupExact, Picks, Ids;
    var gs := Get(t.groups, topic);
    var picks := Picks(t, gs);
    ShapedOf(t);
    GroupsOfTopic(t, topic);
    PicksInGroups(t, topic, gs);
    IdsDistinct(gs);
    forall id ensures id in Ids(gs) <==> exists k :: 0 <= k < |gs| && gs[k].id == id && gs[k].members != [] {
      IdsContain(gs, id);
    }
    var ids := GroupsOf(t, picks);
    forall k | 0 <= k < |picks| ensures t.subGroups[picks[k]] != [] {
      assert ids[k] in Ids(gs);
    }
    forall i | 0 <= i < |t.subGroups| && t.subGroups[i] != [] && Member(t, topic, t.subGroups[i], i)
      ensures exists k :: 0 <= k < |picks| && picks[k] < |t.subGroups| && t.subGroups[picks[k]] == t.subGroups[i]
    {
      NonEmptyGroup(t, topic, i);
      assert t.subGroups[i] in ids;
      var k :| 0 <= k < |ids| && ids[k] == t.subGroups[i];
    }
  }

  /** An active member makes its group one with members. */
  lemma NonEmptyGroup(t: Table, topic: Text, i: nat)
    requires Exact(t) && i < |t.subGroups| && t.subGroups[i] != [] && Member(t, topic, t.subGroups[i], i)
    ensures var gs := Get(t.groups, topic);
      exists k :: 0 <= k < |gs| && gs[k].id == t.subGroups[i] && gs[k].members != []
  {
    hide Slots, IndexExact, WildcardsExact;
    var gs := Get(t.groups, topic);
    assert HasGroup(gs, t.subGroups[i]);
    var k :| 0 <= k < |gs| && gs[k].id == t.subGroups[i];
    assert GroupExact(t, topic, gs[k]);
    SlotsContain(Size(t), (j: nat) => Member(t, topic, gs[k].id, j), i);
  }

  /** After any history of subscribes, unsubscribes, disconnects and publishes, a publish reaches exactly the scan. */
  lemma PublishReachesScan(es: seq<Event>, topic: Text)
    ensures var t := After(es);
      && Targets(t, topic) == ScanExact(t, topic) + ScanWild(t, topic) + Picks(t, Get(t.groups, topic))
      && OnePerGroup(t, topic, Picks(t, Get(t.groups, topic)))
  {
    HistoryExact(es);
    TargetsAreScan(After(es), topic);
  }
}
