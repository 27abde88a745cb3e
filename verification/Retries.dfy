/** Where a NACKed message goes: whether its retry comes back to the subscribers it was delivered to. */
module Retries {
  import opened Bytes
  import opened Frames
  import opened Routing
  import opened Publishing
  import opened Deliveries
  import opened Nacks
  import Extensions
  import Topics
  import Wildcard

  // ---- Reading the topic once more ------------------------------------------------------------------------------

  /** The retry is published to the subscription's topic exactly when that topic is settled. */
  lemma RetryTopicIff(k: Key)
    ensures TopicOf(RetryFrame(k)) == k.topic <==> Topics.Settled(k.topic)
  {
    Topics.SettledIff(k.topic);
  }

  /** A dead letter goes to its own topic always. */
  lemma DeadLetterTopic(k: Key)
    ensures TopicOf(DeadLetterFrame(k)) == DLQ_PREFIX + k.topic
  {
    var t := DLQ_PREFIX + k.topic;
    assert t[0] == 0x5F;
    assert !Topics.HasPrefix(t, Topics.TTL_PREFIX) by {
      if |t| >= 4 { assert t[..4][0] == t[0]; }
    }
    assert !Topics.HasPrefix(t, Topics.TOPIC_PREFIX) by {
      if |t| >= 6 { assert t[..6][0] == t[0]; }
    }
  }

  /** Bytes the matcher takes one by one. */
  predicate Ordinary(b: byte) { b != Wildcard.SLASH && b != Wildcard.PLUS && b != Wildcard.HASH }

  predicate AllOrdinary(s: seq<byte>) { forall i :: 0 <= i < |s| ==> Ordinary(s[i]) }

  lemma {:induction false} EatOrdinary(q: seq<byte>, rest: seq<byte>, u: seq<byte>)
    requires AllOrdinary(q) && Wildcard.MatchFrom(q + rest, u)
    ensures q <= u && Wildcard.MatchFrom(rest, u[|q|..])
    decreases q
  {
    if q == [] {
      assert q + rest == rest && u[0..] == u;
    } else {
      assert Ordinary(q[0]) && (q + rest)[0] == q[0];
      assert (q + rest)[1..] == q[1..] + rest;
      EatOrdinary(q[1..], rest, u[1..]);
      assert u == [u[0]] + u[1..] && u[1..][|q| - 1..] == u[|q|..];
    }
  }

  /** A filter is not matched by what is left of it when ordinary bytes are taken off its front. */
  lemma {:induction false} FrontMissing(q: seq<byte>, t: seq<byte>)
    requires q != [] && AllOrdinary(q)
    ensures !Wildcard.MatchFrom(q + t, t)
    decreases |t|
  {
    if Wildcard.MatchFrom(q + t, t) {
      EatOrdinary(q, t, t);
      var u := t[|q|..];
      assert t == q + u;
      FrontMissing(q, u);
    }
  }

  /** Nor by anything when a '+' among those bytes is followed by an ordinary one. */
  lemma PlusWithin(q: seq<byte>, r: seq<byte>, u: seq<byte>)
    requires AllOrdinary(q) && r != [] && Ordinary(r[0])
    ensures !Wildcard.MatchFrom(q + ([Wildcard.PLUS] + r), u)
  {
    if Wildcard.MatchFrom(q + ([Wildcard.PLUS] + r), u) {
      EatOrdinary(q, [Wildcard.PLUS] + r, u);
      PlusFirst(r, u[|q|..]);
    }
  }

  lemma PlusFirst(r: seq<byte>, u: seq<byte>)
    requires r != [] && Ordinary(r[0])
    ensures !Wildcard.MatchFrom([Wildcard.PLUS] + r, u)
  {
    assert ([Wildcard.PLUS] + r)[1..] == r;
  }

  lemma NumberBytes(ms: seq<byte>)
    requires Topics.ParseInt(ms).Some?
    ensures ms != []
    ensures ms[0] != Wildcard.PLUS ==> AllOrdinary(ms)
    ensures ms[0] == Wildcard.PLUS ==> |ms| > 1 && Ordinary(ms[1])
  {
    var signed := ms[0] == 0x2B || ms[0] == 0x2D;
    var digits := if signed then ms[1..] else ms;
    assert Topics.AllDigits(digits);
    forall i | 0 <= i < |ms| && (i > 0 || !signed) ensures Topics.IsDigit(ms[i]) {
      assert ms[i] == digits[if signed then i - 1 else i];
    }
  }

  /** The TTL prefix of a topic that has one. */
  lemma TTLFront(t: seq<byte>) returns (ms: seq<byte>)
    requires Topics.ParseTTL(t).0.Some?
    ensures Topics.ParseInt(ms).Some? && t == Topics.TTL_PREFIX + ms + [Topics.COLON] + Topics.ParseTTL(t).1
  {
    hide Topics.ParseInt;
    var idx := Topics.Index(t[4..], [Topics.COLON]).value;
    ms := t[4..4 + idx];
    assert Topics.At(t[4..], [Topics.COLON], idx);
    assert t[4..][idx..idx + 1] == [Topics.COLON] && t[4 + idx] == t[4..][idx];
  }

  lemma PrefixesOrdinary()
    ensures AllOrdinary(Topics.TTL_PREFIX) && AllOrdinary(Topics.TOPIC_PREFIX) && Ordinary(Topics.COLON)
  {
  }

  /** With a TTL prefix in front, whatever is made of the rest. */
  lemma TTLMissing(ms: seq<byte>, more: seq<byte>, t: seq<byte>)
    requires Topics.ParseInt(ms).Some? && AllOrdinary(more)
    ensures !Wildcard.MatchFrom(Topics.TTL_PREFIX + ms + [Topics.COLON] + (more + t), t)
  {
    NumberBytes(ms);
    PrefixesOrdinary();
    var p := Topics.TTL_PREFIX + ms + [Topics.COLON] + (more + t);
    if ms[0] == Wildcard.PLUS {
      var r := ms[1..] + [Topics.COLON] + (more + t);
      assert p == Topics.TTL_PREFIX + ([Wildcard.PLUS] + r);
      PlusWithin(Topics.TTL_PREFIX, r, t);
    } else {
      var q := Topics.TTL_PREFIX + ms + [Topics.COLON] + more;
      assert p == q + t;
      FrontMissing(q, t);
    }
  }

  /** An unsettled topic is read as another one, which it does not match as a filter either. */
  lemma UnsettledMisses(t: seq<byte>)
    requires !Topics.Settled(t)
    ensures var u := Topics.ParsePublishTopic(t).1; u != t && !Wildcard.Matches(t, u)
  {
    hide Wildcard.MatchFrom, Topics.ParseInt, Topics.Index;
    Topics.SettledIff(t);
    PrefixesOrdinary();
    var rest := Topics.ParseTTL(t).1;
    var u := Topics.ParsePublishTopic(t).1;
    var more := if u == rest then [] else Topics.TOPIC_PREFIX;
    assert rest == more + u;
    if Topics.ParseTTL(t).0.Some? {
      var ms := TTLFront(t);
      TTLMissing(ms, more, u);
    } else {
      FrontMissing(Topics.TOPIC_PREFIX, u);
    }
  }

  // ---- Whom the retry reaches -------------------------------------------------------------------------------------

  /** A retry of a settled topic reaches every active ungrouped subscriber of the topic and one active member of each
      group that has any there. */
  lemma RetryReaches(t: Table, k: Key)
    requires Exact(t) && Topics.Settled(k.topic)
    ensures var to := Recipients(t, TopicOf(RetryFrame(k)));
      && (forall i: nat :: Alone(t, k.topic, i) && t.active[i] ==> i in to)
      && OnePerGroup(t, k.topic, Picks(t, Get(t.groups, k.topic)))
      && (forall i: nat :: i in Picks(t, Get(t.groups, k.topic)) ==> i in to)
  {
    hide Exact, Recipients, Picks, OnePerGroup;
    RetryTopicIff(k);
    var to := Recipients(t, k.topic);
    ShapedOf(t);
    forall i: nat | Alone(t, k.topic, i) && t.active[i] ensures i in to {
      SentTo(t, k.topic, i);
      OccursIs(to, i);
    }
    GroupPicks(t, k.topic);
    forall i: nat | i in Picks(t, Get(t.groups, k.topic)) ensures i in to {
      SentTo(t, k.topic, i);
      OccursIs(Picks(t, Get(t.groups, k.topic)), i);
      OccursIs(to, i);
    }
  }

  /** A retry of an unsettled topic reaches no subscriber of the topic at all, grouped or not. */
  lemma RetryMisses(t: Table, k: Key, i: nat)
    requires Exact(t) && !Topics.Settled(k.topic) && i < Size(t) && t.topics[i] == k.topic
    ensures i !in Recipients(t, TopicOf(RetryFrame(k)))
  {
    hide Exact, Recipients, Picks, Occurs, Wildcard.Matches;
    UnsettledMisses(k.topic);
    var u := TopicOf(RetryFrame(k));
    ShapedOf(t);
    SentTo(t, u, i);
    PicksOnce(t, u, i);
    OccursIs(Recipients(t, u), i);
  }

  /** The retry reaches some active subscriber of the subscription's topic exactly when that topic is settled. */
  lemma RetryReachesIff(t: Table, k: Key)
    requires Exact(t) && exists i: nat :: ActiveOn(t, k.topic, i)
    ensures (exists i: nat :: ActiveOn(t, k.topic, i) && i in Recipients(t, TopicOf(RetryFrame(k))))
      <==> Topics.Settled(k.topic)
  {
    hide Exact, Recipients, Picks;
    ShapedOf(t);
    if Topics.Settled(k.topic) {
      RetryReaches(t, k);
      var i: nat :| ActiveOn(t, k.topic, i);
      if t.subGroups[i] != [] {
        var picks := Picks(t, Get(t.groups, k.topic));
        var j :| 0 <= j < |picks| && picks[j] < |t.subGroups| && t.subGroups[picks[j]] == t.subGroups[i];
        assert picks[j] in picks && ActiveOn(t, k.topic, picks[j]);
      }
    } else {
      forall i: nat | ActiveOn(t, k.topic, i) ensures i !in Recipients(t, TopicOf(RetryFrame(k))) {
        RetryMisses(t, k, i);
      }
    }
  }

  // ---- Whether the message comes back -----------------------------------------------------------------------------

  /** A subscription to f is sent messages of topic m. */
  predicate Receives(f: Text, m: Text) { f == m || (Wildcard.IsWildcardTopic(f) && Wildcard.Matches(f, m)) }

  /** Whoever is sent a message has a subscription that receives its topic. */
  lemma DeliveredIsReceived(t: Table, m: Text, i: nat)
    requires Exact(t) && i in Recipients(t, m)
    ensures i < Size(t) && Receives(t.topics[i], m)
  {
    hide Exact, Recipients, Picks, Occurs, Wildcard.Matches;
    ShapedOf(t);
    OccursIs(Recipients(t, m), i);
    SentTo(t, m, i);
    PicksOnce(t, m, i);
  }

  /** The writer caches the text of the subscription, not the topic of the message, and that text is what a NACK
      publishes: the retry is of the message's topic exactly when the subscription names that topic and has no prefix
      left to strip. */
  lemma MessageTopicIff(f: Text, m: Text, offset: nat)
    requires Receives(f, m)
    ensures TopicOf(RetryFrame(Key(f, offset))) == m <==> Topics.Settled(f) && f == m
  {
    hide Wildcard.MatchFrom;
    RetryTopicIff(Key(f, offset));
    if !Topics.Settled(f) {
      UnsettledMisses(f);
    }
  }

  /** A NACKed message comes back, as a message of its topic, to some active subscriber like the one that NACKed it,
      exactly when the subscription names its topic and has no prefix left to strip. */
  lemma MessageComesBackIff(t: Table, f: Text, m: Text, offset: nat)
    requires Exact(t) && Receives(f, m) && exists i: nat :: ActiveOn(t, f, i)
    ensures var again := TopicOf(RetryFrame(Key(f, offset)));
      (again == m && exists i: nat :: ActiveOn(t, f, i) && i in Recipients(t, again)) <==> Topics.Settled(f) && f == m
  {
    hide Exact, Recipients, Wildcard.Matches;
    MessageTopicIff(f, m, offset);
    RetryReachesIff(t, Key(f, offset));
  }

  /** The dead letter names the message's topic exactly when the subscription does. */
  lemma DeadLetterNamesIff(f: Text, m: Text, offset: nat)
    ensures TopicOf(DeadLetterFrame(Key(f, offset))) == DLQ_PREFIX + m <==> f == m
  {
    DeadLetterTopic(Key(f, offset));
    assert (DLQ_PREFIX + f)[|DLQ_PREFIX|..] == f && (DLQ_PREFIX + m)[|DLQ_PREFIX|..] == m;
  }

  /** The retry keeps the message's priority exactly when that is the default one. */
  lemma RetryPriorityIff(f: Frame, k: Key)
    requires k.offset < U64
    ensures LevelOf(RetryFrame(k)) == LevelOf(f) <==> LevelOf(f) == Extensions.DEFAULT_PRIORITY
  {
    hide LE;
    var e := Extensions.Entry(Extensions.EXT_RETRY_OFFSET, LE(k.offset, 8));
    assert Extensions.Encode([e]) == Extensions.EncodeEntry(e) + Extensions.Encode([]);
    Extensions.FindFirstNonEmpty([e], [], Extensions.EXT_PRIORITY);
    assert Extensions.Block([e]) + [] == Extensions.Block([e]);
    assert Extensions.FirstNonEmpty([e], Extensions.EXT_PRIORITY) == Extensions.FirstNonEmpty([e][1..], Extensions.EXT_PRIORITY);
  }

  // ---- Which messages share a counter -----------------------------------------------------------------------------

  /** Under this subscription, the key a NACK counts for tells which message it was. */
  ghost predicate TellsApart(f: Text)
  {
    forall m, n, a: nat, b: nat :: Receives(f, m) && Receives(f, n) && Key(f, a) == Key(f, b) ==> m == n && a == b
  }

  /** A topic the filter matches: a letter for every wildcard. */
  function Lettered(f: Text): (m: Text)
    ensures |m| == |f| && forall i :: 0 <= i < |f| ==> m[i] == if f[i] == Wildcard.PLUS || f[i] == Wildcard.HASH then 0x78 else f[i]
  {
    if f == [] then []
    else [if f[0] == Wildcard.PLUS || f[0] == Wildcard.HASH then 0x78 else f[0]] + Lettered(f[1..])
  }

  lemma {:induction false} LetteredMatches(f: Text)
    requires Wildcard.WellFormed(f)
    ensures Wildcard.MatchFrom(f, Lettered(f))
  {
    if f != [] {
      var m := Lettered(f);
      assert m[1..] == Lettered(f[1..]);
      Wildcard.WellFormedTail(f);
      LetteredMatches(f[1..]);
      if f[0] == Wildcard.PLUS {
        Wildcard.WildcardFillsLevel(f);
        assert Wildcard.SkipLevel(m) == Wildcard.SkipLevel(m[1..]) == m[1..];
      }
    }
  }

  /** Some topic matches a filter, behind k plus signs: up to its first '#', a run of plus signs is followed by a slash,
      or by that '#', or, if it is a single one, by the end. */
  predicate CanMatch(p: Text, k: nat)
  {
    if p == [] then k < 2
    else if p[0] == Wildcard.HASH then true
    else if p[0] == Wildcard.PLUS then CanMatch(p[1..], k + 1)
    else (k == 0 || p[0] == Wildcard.SLASH) && CanMatch(p[1..], 0)
  }

  /** What is left of a topic behind k plus signs: it starts at a level's end, and a second one needs a slash there. */
  predicate Behind(t: Text, k: nat) { (k >= 1 && t != [] ==> t[0] == Wildcard.SLASH) && (k >= 2 ==> t != []) }

  lemma {:induction false} SomeMatch(p: Text, k: nat) returns (t: Text)
    requires CanMatch(p, k)
    ensures Wildcard.MatchFrom(p, t) && Behind(t, k) && !Wildcard.IsWildcardTopic(t)
    decreases p
  {
    if p == [] {
      t := [];
    } else if p[0] == Wildcard.HASH {
      t := [Wildcard.SLASH];
    } else {
      var more := SomeMatch(p[1..], if p[0] == Wildcard.PLUS then k + 1 else 0);
      if p[0] != Wildcard.PLUS {
        t := [p[0]] + more;
        assert t[1..] == more;
      } else if k == 0 {
        t := [0x78] + more;
        assert t[1..] == more;
        assert Wildcard.SkipLevel(t) == Wildcard.SkipLevel(t[1..]) == more;
      } else {
        t := more;
      }
    }
  }

  lemma {:induction false} MatchedCan(p: Text, t: Text, k: nat)
    requires Wildcard.MatchFrom(p, t) && Behind(t, k)
    ensures CanMatch(p, k)
    decreases p
  {
    if p != [] && p[0] != Wildcard.HASH {
      if p[0] == Wildcard.PLUS {
        MatchedCan(p[1..], Wildcard.SkipLevel(t), k + 1);
      } else if t != [] {
        MatchedCan(p[1..], t[1..], 0);
      }
    }
  }

  /** Keys tell messages apart exactly under a subscription without wildcards, or with such that no topic matches,
      which no well-formed filter has: under any other, messages of different topics that have the same offset share one
      counter and one cache entry. */
  lemma TellsApartIff(f: Text)
    ensures TellsApart(f) <==> !(Wildcard.IsWildcardTopic(f) && CanMatch(f, 0))
    ensures Wildcard.WellFormed(f) ==> CanMatch(f, 0)
  {
    hide Wildcard.MatchFrom, Wildcard.WellFormed, CanMatch;
    if Wildcard.IsWildcardTopic(f) && CanMatch(f, 0) {
      var m := SomeMatch(f, 0);
      assert Receives(f, m) && Receives(f, f) && Key(f, 1) == Key(f, 1) && m != f;
    } else {
      forall m, n | Receives(f, m) && Receives(f, n) ensures m == n {
        if Wildcard.IsWildcardTopic(f) {
          OnlyItself(f, m);
          OnlyItself(f, n);
        }
      }
    }
    if Wildcard.WellFormed(f) {
      LetteredMatches(f);
      MatchedCan(f, Lettered(f), 0);
    }
  }

  lemma OnlyItself(f: Text, m: Text)
    requires Receives(f, m) && !CanMatch(f, 0)
    ensures f == m
  {
    hide Wildcard.MatchFrom, CanMatch;
    if f != m {
      MatchedCan(f, m, 0);
      assert false;
    }
  }

  // ---- Cases --------------------------------------------------------------------------------------------------------

  // "a/+", "a/x" and "a/y"
  const A_PLUS: Text := [0x61, Wildcard.SLASH, Wildcard.PLUS]
  const A_X: Text := [0x61, Wildcard.SLASH, 0x78]
  const A_Y: Text := [0x61, Wildcard.SLASH, 0x79]

  lemma LetterMatches(b: byte)
    requires b != Wildcard.SLASH
    ensures Wildcard.Matches(A_PLUS, [0x61, Wildcard.SLASH, b])
  {
    var t: Text := [0x61, Wildcard.SLASH, b];
    assert A_PLUS[1..][1..] == [Wildcard.PLUS] && t[1..][1..] == [b];
    var p: Text, x: Text := [Wildcard.PLUS], [b];
    assert p[1..] == [] && x[1..] == [];
    assert Wildcard.SkipLevel(x) == Wildcard.SkipLevel(x[1..]);
    assert Wildcard.MatchFrom(p, x);
  }

  /** An input: a subscriber of "a/+" that NACKs a message "a/x" is sent a message "a/+" in its place. */
  lemma WildcardRetryCase(offset: nat)
    ensures Receives(A_PLUS, A_X) && Topics.Settled(A_PLUS)
    ensures TopicOf(RetryFrame(Key(A_PLUS, offset))) == A_PLUS
    ensures TopicOf(DeadLetterFrame(Key(A_PLUS, offset))) == DLQ_PREFIX + A_PLUS
  {
    LetterMatches(0x78);
    DeadLetterTopic(Key(A_PLUS, offset));
    assert |A_PLUS| < 4;
    RetryTopicIff(Key(A_PLUS, offset));
  }

  /** An input: NACKs of the fifth messages of "a/x" and of "a/y" by a subscriber of "a/+" count together, so a limit of
      two dead-letters on the second of them, though each message was NACKed once. */
  lemma SharedCounterCase()
    ensures Receives(A_PLUS, A_X) && Receives(A_PLUS, A_Y)
    ensures NackedAll(FRESH, [Key(A_PLUS, 5), Key(A_PLUS, 5)], 2).dead == [Key(A_PLUS, 5)]
  {
    LetterMatches(0x78);
    LetterMatches(0x79);
    var k := Key(A_PLUS, 5);
    assert [k, k][..1] == [k] && [k][..0] == [];
    assert NackedAll(FRESH, [k], 2) == Nacked(FRESH, k, 2);
  }

  lemma {:induction false} ToAllHas(ts: seq<nat>, level: nat, topic: Text, offset: nat, i: nat)
    requires i in ts
    ensures Delivery(i, level, topic, offset) in ToAll(ts, level, topic, offset)
  {
    var init := ts[..|ts| - 1];
    if i in init {
      ToAllHas(init, level, topic, offset, i);
    }
  }

  /** Publishing the retry sends it to every recipient in a frame whose delivery offset is the NACKed one, so the next
      NACK counts against the same key. */
  lemma RetrySent(c: Config, b: Broker<Message>, k: Key, now: int, i: nat)
    requires Good(b) && Topics.Settled(k.topic) && |k.topic| <= MAX_PAYLOAD_SIZE && k.offset < U64
    requires i in Recipients(b.table, k.topic)
    ensures var f := RetryFrame(k);
      var own := NextOffset(b, k.topic);
      var sent := ToAll(Recipients(b.table, k.topic), LevelOf(f), k.topic, own);
      && DeliveryOffset(LocalFrame(f), own) == k.offset
      && PublishLocal(c, b, f, now).sent == b.sent + sent && Delivery(i, LevelOf(f), k.topic, own) in sent
  {
    hide Exact, Recipients, ToAll, LocalFrame, LevelOf, DeliveryOffset, PublishLocal;
    var f, own := RetryFrame(k), NextOffset(b, k.topic);
    RetryTopicIff(k);
    RetryKeepsOffset(k, own);
    PublishSends(c, b, f, now);
    ToAllHas(Recipients(b.table, k.topic), LevelOf(f), k.topic, own, i);
  }

  /** An input: the subscription "topic:topic:x" is for "topic:x", and its retries are published to "x". */
  lemma LostRetryCase(offset: nat)
    ensures var k := Key(Topics.TOPIC_PREFIX + [0x78], offset);
      && Topics.ParseSubscriptionPayload(Topics.TOPIC_PREFIX + k.topic) == Topics.Parsed(Topics.Spec(k.topic, [], false, [], 0))
      && TopicOf(RetryFrame(k)) == [0x78] && !Topics.Settled(k.topic)
  {
    var x := Topics.TOPIC_PREFIX + [0x78];
    assert x[..6] == Topics.TOPIC_PREFIX && x[6..] == [0x78];
    assert !Topics.HasPrefix(x, Topics.TTL_PREFIX) by { assert x[..4][1] == x[1]; }
    forall i | 0 <= i <= |x| ensures !Topics.At(x, Topics.Marker(Topics.GROUP), i) && !Topics.At(x, Topics.Marker(Topics.DURABLE), i) {
      assert x[0] != Topics.Marker(Topics.GROUP)[0];
    }
    Topics.PlainSubscription(x);
  }
}
