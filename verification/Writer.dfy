/** A subscriber's writer: coalesced writes, the frame cache NACKs are looked up in, and the writer loop. */
module Writer {
  import opened Bytes
  import opened Lists
  import opened Frames
  import opened Publishing
  import opened Routing
  import opened Nacks
  import RouterObject
  import Topics

  const NACK_CACHE_SIZE: nat := 256

  // ---- What goes on the wire for a message ----------------------------------------------------------------------

  predicate Expired(m: Message, now: int) { m.expiresAt > 0 && now >= m.expiresAt }

  /** The bytes written for a message: group members get the offset appended. */
  function OnWire(m: Message, group: Text): (w: seq<byte>)
    ensures m.frame != [] ==> w != []
  {
    if group != [] && |m.frame| >= HEADER_SIZE then WithOffsetSuffix(m.frame, DeliveryOffset(m.frame, m.offset))
    else m.frame
  }

  /** What the writer loop reacts to: a message fetched from its queues, the flush timer, a NACK. */
  datatype Event = Fetched(m: Message, ref: nat, now: int) | TimerFires | NackArrives(offset: nat, now: int)

  predicate Delivers(e: Event) { e.Fetched? && !Expired(e.m, e.now) && e.m.frame != [] }

  /** The frames a run of events puts on the wire, in order. */
  function Wired(es: seq<Event>, group: Text): seq<seq<byte>>
  {
    if es == [] then []
    else
      var init := Wired(es[..|es| - 1], group);
      if Delivers(es[|es| - 1]) then init + [OnWire(es[|es| - 1].m, group)] else init
  }

  /** The frames of the messages a run of events delivers, as they were queued. */
  function QueuedFrames(es: seq<Event>): seq<seq<byte>>
  {
    if es == [] then []
    else
      var init := QueuedFrames(es[..|es| - 1]);
      if Delivers(es[|es| - 1]) then init + [es[|es| - 1].m.frame] else init
  }

  /** A subscriber outside any group receives the frames as they were queued. */
  lemma {:induction false} AloneUnchanged(es: seq<Event>)
    ensures Wired(es, []) == QueuedFrames(es)
  {
    if es != [] {
      AloneUnchanged(es[..|es| - 1]);
    }
  }

  /** A group member receives any frame that parses as one that parses to the same, with the offset it is delivered under
      behind the payload. */
  lemma GroupedSuffix(m: Message, group: Text, f: Frame)
    requires group != [] && ParseFrame(m.frame) == Ok(f) && DataLen(m.frame) + 8 < U32
    ensures ParseFrame(OnWire(m, group)) == Ok(f.(payload := f.payload + LE(DeliveryOffset(m.frame, m.offset), 8)))
  {
    hide LE, DeliveryOffset, WithOffsetSuffix;
    WireParse(m.frame);
    OffsetSuffixParses(m.frame, DeliveryOffset(m.frame, m.offset));
  }

  /** When a message published at time t and fetched at `now` is written: under a priority TTL, before that has run out;
      else under a TTL in its payload, before that has; a TTL that ends at or before time 0, and none at all, never do. */
  lemma WrittenIff(c: Config, f: Frame, t: int, offset: nat, ref: nat, now: int)
    ensures var written := Delivers(Fetched(Message(LocalFrame(f), offset, ExpiryOf(c, f, t)), ref, now));
      && (HasPriorityTTL(c, f) ==>
            var end := t + c.priorityTTLs[LevelOf(f)]; written <==> end <= 0 || now < end)
      && (!HasPriorityTTL(c, f) && PayloadTTL(f).Some? ==>
            var end := t + 1_000_000 * PayloadTTL(f).value; written <==> end <= 0 || now < end)
      && (!HasPriorityTTL(c, f) && PayloadTTL(f).None? ==> written)
  {
    hide Topics.ParsePublishTopic, LevelOf, LE;
    assert |LocalFrame(f)| >= HEADER_SIZE;
  }

  /** The references a run of events hands to the writer. */
  function Refs(es: seq<Event>): seq<nat>
  {
    if es == [] then []
    else
      var init := Refs(es[..|es| - 1]);
      if es[|es| - 1].Fetched? then init + [es[|es| - 1].ref] else init
  }

  lemma NackedNone(s: State, topic: Text, maxRetries: int)
    ensures NackedAll(s, NackKeys([], topic), maxRetries) == s && StoredBy([]) == []
  {
  }

  lemma NackedSnoc(s: State, es: seq<Event>, e: Event, topic: Text, maxRetries: int)
    ensures var was := NackedAll(s, NackKeys(es, topic), maxRetries);
      NackedAll(s, NackKeys(es + [e], topic), maxRetries)
      == if Counted(StoredBy(es), e) then Nacked(was, Key(topic, e.offset), maxRetries) else was
  {
    hide Nacked, Latest, StoredBy, NackKeys;
    KeysSnoc(es, e, topic);
    if Counted(StoredBy(es), e) {
      var ks, k := NackKeys(es, topic), Key(topic, e.offset);
      assert (ks + [k])[..|ks|] == ks;
    }
  }

  lemma WiredNone(group: Text)
    ensures Wired([], group) == [] && Refs([]) == []
  {
  }

  lemma WiredSnoc(es: seq<Event>, e: Event, group: Text)
    ensures Wired(es + [e], group) == if Delivers(e) then Wired(es, group) + [OnWire(e.m, group)] else Wired(es, group)
    ensures Refs(es + [e]) == if e.Fetched? then Refs(es) + [e.ref] else Refs(es)
  {
    assert (es + [e])[..|es|] == es;
  }

  /** A retry reaches a group member with the original offset at the end of its payload. */
  lemma RetrySeenUnderOriginalOffset(k: Key, own: nat, expiresAt: int, group: Text)
    requires k.offset < U64 && group != [] && |TopicOf(RetryFrame(k))| + 20 < U32
    ensures var m := Message(LocalFrame(RetryFrame(k)), own, expiresAt);
      OnWire(m, group) == Wire(SetExtensionsBit(CMD_PUBLISH), 0, RetryFrame(k).extensions,
                               TopicOf(RetryFrame(k)) + LE(k.offset, 8))
  {
    hide LE, FromLE, TopicOf, DeliveryOffset;
    RetryKeepsOffset(k, own);
    RetryBlockFinds(k.offset, []);
    var f := Frame(SetExtensionsBit(CMD_PUBLISH), 0, TopicOf(RetryFrame(k)), RetryFrame(k).extensions);
    OffsetSuffixWire(f, WireOf(f), k.offset);
  }

  // ---- The frame cache --------------------------------------------------------------------------------------

  function Latest(stored: seq<nat>): (r: seq<nat>)
    ensures |r| == Min(|stored|, NACK_CACHE_SIZE)
  {
    if |stored| <= NACK_CACHE_SIZE then stored else stored[|stored| - NACK_CACHE_SIZE..]
  }

  ghost predicate Keyed(topics: map<nat, Text>, keys: seq<nat>)
  {
    Distinct(keys) && topics.Keys == SetOf(keys)
  }

  lemma LatestSnoc(stored: seq<nat>, x: nat)
    ensures Latest(stored + [x])
      == (if |Latest(stored)| < NACK_CACHE_SIZE then Latest(stored) else Latest(stored)[1..]) + [x]
  {
  }

  lemma KeyedDrop(topics: map<nat, Text>, keys: seq<nat>)
    requires Keyed(topics, keys) && keys != []
    ensures Keyed(topics - {keys[0]}, keys[1..])
  {
    assert keys == [keys[0]] + keys[1..];
    assert SetOf(keys[1..]) == SetOf(keys) - {keys[0]};
  }

  lemma KeyedAdd(topics: map<nat, Text>, keys: seq<nat>, offset: nat, topicName: Text)
    requires Keyed(topics, keys) && offset !in topics
    ensures Keyed(topics[offset := topicName], keys + [offset])
  {
    assert SetOf(keys + [offset]) == SetOf(keys) + {offset};
    assert forall i :: 0 <= i < |keys| ==> keys[i] in SetOf(keys);
  }

  /** The insertions after one more event, and after a run of events. */
  function StoreStep(stored: seq<nat>, e: Event): seq<nat>
  {
    if Delivers(e) && DeliveryOffset(e.m.frame, e.m.offset) !in Latest(stored)
    then stored + [DeliveryOffset(e.m.frame, e.m.offset)] else stored
  }

  function StoredBy(es: seq<Event>): seq<nat>
  {
    if es == [] then [] else StoreStep(StoredBy(es[..|es| - 1]), es[|es| - 1])
  }

  predicate Counted(stored: seq<nat>, e: Event) { e.NackArrives? && e.offset in Latest(stored) }

  /** The keys a run of events counts NACKs for: those whose offset is among the last 256 inserted at the time. */
  function NackKeys(es: seq<Event>, topic: Text): seq<Key>
  {
    if es == [] then []
    else
      var init, e := es[..|es| - 1], es[|es| - 1];
      if Counted(StoredBy(init), e) then NackKeys(init, topic) + [Key(topic, e.offset)] else NackKeys(init, topic)
  }

  lemma KeysSnoc(es: seq<Event>, e: Event, topic: Text)
    ensures StoredBy(es + [e]) == StoreStep(StoredBy(es), e)
    ensures NackKeys(es + [e], topic)
      == if Counted(StoredBy(es), e) then NackKeys(es, topic) + [Key(topic, e.offset)] else NackKeys(es, topic)
  {
    assert (es + [e])[..|es|] == es;
  }

  lemma KeyedMeans(topics: map<nat, Text>, keys: seq<nat>, k: nat)
    requires Keyed(topics, keys)
    ensures k in topics <==> k in keys
  {
  }

  lemma KeyedSize(topics: map<nat, Text>, keys: seq<nat>)
    requires Keyed(topics, keys)
    ensures |topics| == |keys|
  {
    DistinctSize(keys);
    assert |topics| == |topics.Keys|;
  }

  class FrameCache {
    var topics: map<nat, Text>
    var keys: seq<nat>
    ghost var stored: seq<nat>         // every insertion so far

    /** The cache holds exactly the last 256 insertions, each offset once. */
    ghost predicate Valid()
      reads this
    {
      keys == Latest(stored) && Keyed(topics, keys)
    }

    constructor ()
      ensures Valid() && stored == [] && topics == map[]
    {
      topics, keys, stored := map[], [], [];
    }

    /** Everything cached is of one topic. */
    ghost predicate Only(topic: Text)
      reads this
    {
      forall k :: k in topics ==> topics[k] == topic
    }

    lemma OnlyNone(topic: Text)
      requires Valid() && stored == []
      ensures Only(topic)
    {
    }

    lemma HasIff(k: nat)
      requires Valid()
      ensures k in topics <==> k in Latest(stored)
    {
      KeyedMeans(topics, keys, k);
    }

    /** storeFrame: the oldest key makes room; a key already cached stays where it is. */
    method StoreFrame(offset: nat, topicName: Text)
      requires Valid()
      modifies this
      ensures Valid()
      ensures offset in topics && |topics| <= 256
      ensures old(offset in topics) ==> topics == old(topics) && stored == old(stored)
      ensures old(offset !in topics) ==> topics[offset] == topicName && stored == old(stored) + [offset]
      ensures forall k :: k in topics && k != offset ==> k in old(topics) && topics[k] == old(topics)[k]
    {
      hide Keyed, Latest;
      if offset in topics {
        KeyedSize(topics, keys);
        return;
      }
      LatestSnoc(stored, offset);
      if |keys| >= NACK_CACHE_SIZE {
        KeyedDrop(topics, keys);
        var oldKey := keys[0];
        topics := topics - {oldKey};
        keys := keys[1..];
      }
      KeyedAdd(topics, keys, offset, topicName);
      topics := topics[offset := topicName];
      keys := keys + [offset];
      stored := stored + [offset];
      KeyedSize(topics, keys);
    }
  }

  /** The router's NACK counters, shared by its writers. */
  class NackDesk {
    const maxRetries: int
    const router: RouterObject.Router
    var state: State

    constructor (limit: int, r: RouterObject.Router)
      ensures maxRetries == limit && router == r && state == FRESH
    {
      maxRetries, router, state := limit, r, FRESH;
    }

    /** The counter goes up; the retry or the dead letter is published; a dead letter ends the count. */
    method Count(key: Key, now: int)
      requires router.Valid()
      modifies this, router
      ensures router.Valid()
      ensures state == Nacked(old(state), key, maxRetries)
      ensures router.View() == PublishLocal(router.config, old(router.View()), NackFrame(old(state), key, maxRetries), now)
    {
      hide Nacked, NackFrame, PublishLocal;
      CountIs(state, key, maxRetries);
      var count := Inc8(Counter(state, key));
      state := state.(counters := state.counters[key := count]);
      if count < maxRetries {
        state := state.(retried := state.retried + [key]);
        var sent := router.PublishLocal(RetryFrame(key), now);
        return;
      }
      state := state.(counters := state.counters - {key}, dead := state.dead + [key]);
      var sent := router.PublishLocal(DeadLetterFrame(key), now);
    }
  }

  lemma CountIs(s: State, key: Key, maxRetries: int)
    ensures var count := Inc8(Counter(s, key));
      var bumped := s.counters[key := count];
      if count < maxRetries then
        && Nacked(s, key, maxRetries) == State(bumped, s.retried + [key], s.dead)
        && NackFrame(s, key, maxRetries) == RetryFrame(key)
      else
        && Nacked(s, key, maxRetries) == State(bumped - {key}, s.retried, s.dead + [key])
        && NackFrame(s, key, maxRetries) == DeadLetterFrame(key)
  {
    assert s.counters[key := Inc8(Counter(s, key))] - {key} == s.counters - {key};
  }

  // ---- The accumulator ------------------------------------------------------------------------------------------

  function ConcatEach(groups: seq<seq<seq<byte>>>): (r: seq<seq<byte>>)
    ensures |r| == |groups| && forall i :: 0 <= i < |groups| ==> r[i] == Concat(groups[i])
  {
    if groups == [] then [] else ConcatEach(groups[..|groups| - 1]) + [Concat(groups[|groups| - 1])]
  }

  lemma {:induction false} FlatConcat(groups: seq<seq<seq<byte>>>)
    ensures Concat(Flat(groups)) == Concat(ConcatEach(groups))
  {
    hide Concat;
    if groups != [] {
      FlatConcat(groups[..|groups| - 1]);
      ConcatAppend(Flat(groups[..|groups| - 1]), groups[|groups| - 1]);
      ConcatSnoc(ConcatEach(groups[..|groups| - 1]), Concat(groups[|groups| - 1]));
    }
  }

  /** A write is whole frames, and larger than the batch size only when it is a single frame. */
  ghost predicate GoodWrite(group: seq<seq<byte>>, maxSize: nat)
  {
    group != [] && (|group| == 1 || |Concat(group)| <= maxSize)
  }

  ghost predicate NonEmpty(frames: seq<seq<byte>>) { forall i :: 0 <= i < |frames| ==> frames[i] != [] }

  /** The accumulator holds the frames `pending`, one reference each; the writes so far were `groups`. */
  ghost predicate Coherent(maxSize: nat, buf: seq<byte>, refs: seq<nat>, pending: seq<seq<byte>>,
                           writes: seq<seq<byte>>, groups: seq<seq<seq<byte>>>)
  {
    && buf == Concat(pending) && |refs| == |pending| && NonEmpty(pending)
    && (pending != [] ==> GoodWrite(pending, maxSize))
    && writes == ConcatEach(groups)
    && forall i :: 0 <= i < |groups| ==> GoodWrite(groups[i], maxSize)
  }

  /** The buffer is empty exactly when the list of references is. */
  lemma EmptyTogether(maxSize: nat, buf: seq<byte>, refs: seq<nat>, pending: seq<seq<byte>>,
                      writes: seq<seq<byte>>, groups: seq<seq<seq<byte>>>)
    requires Coherent(maxSize, buf, refs, pending, writes, groups)
    ensures buf == [] <==> refs == []
    ensures buf == [] <==> pending == []
  {
    if pending != [] {
      assert Concat(pending) == pending[0] + Concat(pending[1..]);
    }
  }

  lemma CoherentAppend(maxSize: nat, buf: seq<byte>, refs: seq<nat>, pending: seq<seq<byte>>,
                       writes: seq<seq<byte>>, groups: seq<seq<seq<byte>>>, wire: seq<byte>, ref: nat)
    requires Coherent(maxSize, buf, refs, pending, writes, groups) && wire != []
    requires buf == [] || |buf| + |wire| <= maxSize
    ensures Coherent(maxSize, buf + wire, refs + [ref], pending + [wire], writes, groups)
  {
    hide ConcatEach;
    EmptyTogether(maxSize, buf, refs, pending, writes, groups);
    hide Concat;
    ConcatSnoc(pending, wire);
  }

  lemma CoherentFlush(maxSize: nat, buf: seq<byte>, refs: seq<nat>, pending: seq<seq<byte>>,
                      writes: seq<seq<byte>>, groups: seq<seq<seq<byte>>>)
    requires Coherent(maxSize, buf, refs, pending, writes, groups) && pending != []
    ensures Coherent(maxSize, [], [], [], writes + [buf], groups + [pending])
    ensures Flat(groups + [pending]) == Flat(groups) + pending
  {
    var gs := groups + [pending];
    assert gs[..|groups|] == groups;
  }

  lemma CoherentDrop(maxSize: nat, buf: seq<byte>, refs: seq<nat>, pending: seq<seq<byte>>,
                     writes: seq<seq<byte>>, groups: seq<seq<seq<byte>>>)
    requires Coherent(maxSize, buf, refs, pending, writes, groups)
    ensures Coherent(maxSize, [], [], [], writes, groups)
  {
  }

  lemma CoherentWrites(maxSize: nat, buf: seq<byte>, refs: seq<nat>, pending: seq<seq<byte>>,
                       writes: seq<seq<byte>>, groups: seq<seq<seq<byte>>>)
    requires Coherent(maxSize, buf, refs, pending, writes, groups)
    ensures Concat(writes) == Concat(Flat(groups))
  {
    FlatConcat(groups);
  }

  class SubscriberWriter {
    const maxSize: nat
    const topic: Text
    const group: Text
    const writeFails: nat -> bool      // whether the i-th write to the stream fails
    const cache: FrameCache
    const desk: NackDesk

    var buf: seq<byte>                 // the accumulator
    var msgRefs: seq<nat>
    var attempts: nat
    var writes: seq<seq<byte>>         // the writes that succeeded
    var released: seq<nat>             // the references given up, in order

    ghost var pending: seq<seq<byte>>          // the frames in the accumulator
    ghost var groups: seq<seq<seq<byte>>>      // the frames of each write

    ghost predicate Valid()
      reads this
    {
      Coherent(maxSize, buf, msgRefs, pending, writes, groups)
    }

    /** Every frame accepted so far, written or waiting. */
    ghost function Accepted(): seq<seq<byte>>
      reads this
    {
      Flat(groups) + pending
    }

    constructor (size: nat, t: Text, g: Text, fails: nat -> bool, nackDesk: NackDesk)
      ensures Valid() && cache.Valid() && fresh(cache) && desk == nackDesk
      ensures maxSize == size && topic == t && group == g && writeFails == fails
      ensures msgRefs == [] && released == [] && attempts == 0 && writes == [] && Accepted() == []
    {
      maxSize, topic, group, writeFails := size, t, g, fails;
      cache := new FrameCache();
      desk := nackDesk;
      buf, msgRefs, attempts, writes, released := [], [], 0, [], [];
      pending, groups := [], [];
    }

    /** flush: one write of everything accumulated; the references go whether or not it succeeds. */
    method Flush() returns (ok: bool)
      requires Valid()
      modifies this
      ensures Valid()
      ensures buf == [] && msgRefs == [] && pending == []
      ensures released == old(released + msgRefs)
      ensures ok ==> Flat(groups) == old(Accepted()) && attempts - |writes| == old(attempts - |writes|)
      ensures !ok ==> groups == old(groups) && attempts - |writes| == old(attempts - |writes|) + 1
      ensures !ok ==> attempts > 0 && writeFails(attempts - 1)
      ensures old(buf) == [] ==> ok && attempts == old(attempts)
      ensures old(buf) != [] ==> attempts == old(attempts) + 1 && (ok ==> writes == old(writes) + [old(buf)])
    {
      hide Coherent, Flat;
      EmptyTogether(maxSize, buf, msgRefs, pending, writes, groups);
      if |buf| == 0 {
        assert Flat(groups) + pending == Flat(groups);
        assert released + msgRefs == released;
        return true;
      }
      CoherentFlush(maxSize, buf, msgRefs, pending, writes, groups);
      CoherentDrop(maxSize, buf, msgRefs, pending, writes, groups);
      var b, refs := buf, msgRefs;
      ghost var frames := pending;
      buf, msgRefs, pending := [], [], [];
      ok := !writeFails(attempts);
      attempts := attempts + 1;
      if ok {
        writes := writes + [b];
        groups := groups + [frames];
      }
      ReleaseAll(refs);
    }

    method ReleaseAll(refs: seq<nat>)
      modifies this`released
      ensures released == old(released) + refs
    {
      for i := 0 to |refs|
        invariant released == old(released) + refs[..i]
      {
        released := released + [refs[i]];
      }
      assert refs[..|refs|] == refs;
    }

    /** The coalescing: flush first when the frame would not fit, after when the batch is full. */
    method AppendFrame(wire: seq<byte>, ref: nat) returns (ok: bool)
      requires Valid() && wire != [] && attempts == |writes|
      modifies this
      ensures Valid()
      ensures ok ==> Accepted() == old(Accepted()) + [wire] && attempts == |writes| && (buf == [] || |buf| < maxSize)
      ensures !ok ==> Flat(groups) <= old(Accepted()) + [wire] && pending == [] && buf == []
      ensures !ok ==> attempts == |writes| + 1 && writeFails(attempts - 1)
      ensures released + msgRefs == old(released + msgRefs) + [ref]
      ensures old(|buf|) + |wire| < maxSize ==> ok && buf == old(buf) + wire && attempts == old(attempts) && writes == old(writes)
      ensures old(buf) != [] && old(|buf|) + |wire| > maxSize ==> attempts > old(attempts)
    {
      hide Coherent, Flat;
      ghost var all := Accepted();
      ghost var held := released + msgRefs;
      if |buf| > 0 && |buf| + |wire| > maxSize {
        ok := Flush();
        if !ok {
          released := released + [ref];
          assert Flat(groups) <= all + [wire];
          assert released + msgRefs == held + [ref];
          return;
        }
        assert Accepted() == all;
        assert released + msgRefs == held;
      }
      CoherentAppend(maxSize, buf, msgRefs, pending, writes, groups, wire, ref);
      buf, msgRefs, pending := buf + wire, msgRefs + [ref], pending + [wire];
      assert Accepted() == all + [wire];
      assert released + msgRefs == held + [ref];
      ok := true;
      if |buf| >= maxSize {
        ghost var before := groups;
        ok := Flush();
        assert released + msgRefs == held + [ref];
        assert ok ==> Accepted() == all + [wire];
        assert !ok ==> Flat(groups) <= all + [wire];
      }
    }

    /** One fetched message: given up when expired or empty, else cached under its delivery offset and appended. */
    method Deliver(m: Message, ref: nat, now: int) returns (ok: bool)
      requires Valid() && cache.Valid() && attempts == |writes|
      modifies this, cache
      ensures Valid() && cache.Valid()
      ensures !Delivers(Fetched(m, ref, now)) ==> ok && Accepted() == old(Accepted())
      ensures ok && Delivers(Fetched(m, ref, now)) ==> Accepted() == old(Accepted()) + [OnWire(m, group)]
      ensures Delivers(Fetched(m, ref, now)) ==> DeliveryOffset(m.frame, m.offset) in cache.topics
      ensures ok ==> attempts == |writes|
      ensures !ok ==> Flat(groups) <= old(Accepted()) + [OnWire(m, group)] && pending == [] && buf == []
      ensures !ok ==> attempts == |writes| + 1 && writeFails(attempts - 1)
      ensures multiset(released + msgRefs) == old(multiset(released + msgRefs)) + multiset{ref}
      ensures cache.stored == StoreStep(old(cache.stored), Fetched(m, ref, now))
      ensures old(cache.Only(topic)) ==> cache.Only(topic)
    {
      hide Coherent, Flat, OnWire, DeliveryOffset, Latest;
      if Expired(m, now) || |m.frame| == 0 {
        released := released + [ref];
        return true;
      }
      cache.HasIff(DeliveryOffset(m.frame, m.offset));
      cache.StoreFrame(DeliveryOffset(m.frame, m.offset), topic);
      ok := AppendFrame(OnWire(m, group), ref);
    }

    /** handleNack: an offset no longer cached is ignored, any other is counted under its topic, and what that calls
        for is published. */
    method HandleNack(offset: nat, now: int)
      requires cache.Valid() && desk.router.Valid()
      modifies desk, desk.router
      ensures desk.router.Valid()
      ensures offset !in cache.topics ==> desk.state == old(desk.state) && desk.router.View() == old(desk.router.View())
      ensures offset in cache.topics ==>
        var key := Key(cache.topics[offset], offset);
        && desk.state == Nacked(old(desk.state), key, desk.maxRetries)
        && desk.router.View() == PublishLocal(desk.router.config, old(desk.router.View()),
                                              NackFrame(old(desk.state), key, desk.maxRetries), now)
    {
      hide Nacked, NackFrame, PublishLocal;
      if offset in cache.topics {
        desk.Count(Key(cache.topics[offset], offset), now);
      }
    }

    /** One turn of the writer loop. */
    method React(e: Event) returns (ok: bool)
      requires Valid() && cache.Valid() && desk.router.Valid() && attempts == |writes| && cache.Only(topic)
      modifies this, cache, desk, desk.router
      ensures Valid() && cache.Valid() && desk.router.Valid() && cache.Only(topic)
      ensures ok ==> attempts == |writes|
      ensures ok ==> Accepted() == if Delivers(e) then old(Accepted()) + [OnWire(e.m, group)] else old(Accepted())
      ensures !ok ==> pending == [] && buf == [] && attempts == |writes| + 1 && writeFails(attempts - 1)
      ensures !ok ==> Flat(groups) <= if Delivers(e) then old(Accepted()) + [OnWire(e.m, group)] else old(Accepted())
      ensures multiset(released + msgRefs)
        == old(multiset(released + msgRefs)) + (if e.Fetched? then multiset{e.ref} else multiset{})
      ensures cache.stored == StoreStep(old(cache.stored), e)
      ensures desk.state == if Counted(old(cache.stored), e) then Nacked(old(desk.state), Key(topic, e.offset), desk.maxRetries)
                            else old(desk.state)
    {
      hide Coherent, Flat, OnWire, DeliveryOffset, Latest, Nacked, NackFrame, PublishLocal;
      match e {
        case Fetched(m, ref, now) =>
          ok := Deliver(m, ref, now);
        case TimerFires =>
          ghost var all := Accepted();
          ghost var held := released + msgRefs;
          ok := Flush();
          assert ok ==> Accepted() == all;
          assert released + msgRefs == held;
        case NackArrives(offset, now) =>
          cache.HasIff(offset);
          HandleNack(offset, now);
          ok := true;
      }
    }

    /** The loop of the writer, up to the first failed write. */
    method ReactAll(events: seq<Event>) returns (ok: bool, handled: nat)
      requires Valid() && cache.Valid() && Accepted() == [] && released + msgRefs == []
      requires attempts == 0 && writes == [] && cache.stored == [] && desk.router.Valid()
      modifies this, cache, desk, desk.router
      ensures Valid() && cache.Valid() && desk.router.Valid() && handled <= |events|
      ensures ok ==> handled == |events| && Accepted() == Wired(events, group) && attempts == |writes|
      ensures !ok ==> Flat(groups) <= Wired(events[..handled], group) && pending == [] && buf == []
      ensures !ok ==> attempts == |writes| + 1 && writeFails(attempts - 1)
      ensures multiset(released + msgRefs) == multiset(Refs(events[..handled]))
      ensures desk.state == NackedAll(old(desk.state), NackKeys(events[..handled], topic), desk.maxRetries)
    {
      hide Coherent, Flat, OnWire, DeliveryOffset, Delivers, Wired, Refs, NackKeys, StoredBy, StoreStep, Counted, Nacked,
           NackedAll, RouterObject.Router.Valid, FrameCache.Valid, FrameCache.Only;
      handled, ok := 0, true;
      WiredNone(group);
      NackedNone(desk.state, topic, desk.maxRetries);
      cache.OnlyNone(topic);
      assert events[..0] == [];
      while handled < |events|
        invariant handled <= |events| && Valid() && cache.Valid() && ok
        invariant Accepted() == Wired(events[..handled], group) && attempts == |writes|
        invariant multiset(released + msgRefs) == multiset(Refs(events[..handled]))
        invariant desk.router.Valid() && cache.Only(topic) && cache.stored == StoredBy(events[..handled])
        invariant desk.state == NackedAll(old(desk.state), NackKeys(events[..handled], topic), desk.maxRetries)
      {
        ghost var done := events[..handled];
        assert events[..handled + 1] == done + [events[handled]];
        WiredSnoc(done, events[handled], group);
        KeysSnoc(done, events[handled], topic);
        NackedSnoc(old(desk.state), done, events[handled], topic, desk.maxRetries);
        ok := React(events[handled]);
        handled := handled + 1;
        if !ok {
          return;
        }
      }
      assert events[..|events|] == events;
    }

    /** runSubscriberWriter over the events it reacts to, with the deferred last flush. The stream holds exactly the
        frames of the unexpired messages, in fetch order, each once, in writes of whole frames, as they were queued for
        a subscriber outside any group; after a failed write nothing more is written. Every reference fetched has been
        given up, once. The NACKs counted are those of offsets still cached, in order. */
    method Run(events: seq<Event>) returns (ok: bool, handled: nat)
      requires Valid() && cache.Valid() && Accepted() == [] && released + msgRefs == []
      requires attempts == 0 && writes == [] && cache.stored == [] && desk.router.Valid()
      modifies this, cache, desk, desk.router
      ensures Valid() && cache.Valid() && handled <= |events|
      ensures ok ==> handled == |events| && Flat(groups) == Wired(events, group) && attempts == |writes|
      ensures ok && group == [] ==> Concat(writes) == Concat(QueuedFrames(events))
      ensures !ok ==> Flat(groups) <= Wired(events[..handled], group)
      ensures !ok ==> attempts == |writes| + 1 && writeFails(attempts - 1)
      ensures Concat(writes) == Concat(Flat(groups))
      ensures multiset(released) == multiset(Refs(events[..handled]))
      ensures msgRefs == [] && buf == []
      ensures desk.router.Valid()
      ensures desk.state == NackedAll(old(desk.state), NackKeys(events[..handled], topic), desk.maxRetries)
    {
      hide Concat, QueuedFrames, Coherent, Flat, Wired, Refs, NackKeys, NackedAll, RouterObject.Router.Valid, FrameCache.Valid;
      ok, handled := ReactAll(events);
      ghost var all := Accepted();
      ghost var held := released + msgRefs;
      var last := Flush();
      assert released + msgRefs == released == held;
      CoherentWrites(maxSize, buf, msgRefs, pending, writes, groups);
      assert events[..|events|] == events;
      AloneUnchanged(events);
      assert !last ==> Flat(groups) <= all;
      ok := ok && last;
    }
  }
}
