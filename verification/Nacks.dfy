/** Negative acknowledgements: retry counting per topic and offset, retries and dead letters. */
module Nacks {
  import opened Bytes
  import opened Frames
  import Extensions
  import opened Publishing
  import opened Routing

  // "__dlq__"
  const DLQ_PREFIX: Text := [0x5F, 0x5F, 0x64, 0x6C, 0x71, 0x5F, 0x5F]

  datatype Key = Key(topic: Text, offset: nat)

  /** The shared counters, and the history of what was published again and what was given up on. */
  datatype State = State(counters: map<Key, int>, retried: seq<Key>, dead: seq<Key>)

  const FRESH: State := State(map[], [], [])

  /** Counters are 8-bit signed. */
  function Inc8(x: int): int { if x == 127 then -128 else x + 1 }

  function Counter(s: State, k: Key): int { if k in s.counters then s.counters[k] else 0 }

  /** One NACK of a cached message. */
  function Nacked(s: State, k: Key, maxRetries: int): State
  {
    var count := Inc8(Counter(s, k));
    if count < maxRetries then State(s.counters[k := count], s.retried + [k], s.dead)
    else State(s.counters - {k}, s.retried, s.dead + [k])
  }

  function NackedAll(s: State, ks: seq<Key>, maxRetries: int): State
  {
    if ks == [] then s else Nacked(NackedAll(s, ks[..|ks| - 1], maxRetries), ks[|ks| - 1], maxRetries)
  }

  function Times(ks: seq<Key>, k: Key): nat { multiset(ks)[k] }

  lemma TimesSnoc(ks: seq<Key>, x: Key, k: Key)
    ensures Times(ks + [x], k) == Times(ks, k) + if x == k then 1 else 0
  {
  }

  /** NACKs of one message it takes to dead-letter it. */
  function Patience(maxRetries: int): (p: nat) ensures p >= 1 { if maxRetries < 1 then 1 else maxRetries }

  lemma NackedCounts(s: State, x: Key, maxRetries: int, k: Key)
    ensures var s' := Nacked(s, x, maxRetries);
      if x != k then
        && Counter(s', k) == Counter(s, k)
        && Times(s'.retried, k) == Times(s.retried, k) && Times(s'.dead, k) == Times(s.dead, k)
      else if Inc8(Counter(s, k)) < maxRetries then
        && Counter(s', k) == Inc8(Counter(s, k))
        && Times(s'.retried, k) == Times(s.retried, k) + 1 && Times(s'.dead, k) == Times(s.dead, k)
      else
        && Counter(s', k) == 0
        && Times(s'.retried, k) == Times(s.retried, k) && Times(s'.dead, k) == Times(s.dead, k) + 1
  {
    TimesSnoc(s.retried, x, k);
    TimesSnoc(s.dead, x, k);
  }

  lemma MulSucc(a: nat, p: nat)
    ensures (a + 1) * p == a * p + p
  {
  }

  /** Every NACK either retries or dead-letters; and as long as the limit fits the counter, each message is
      dead-lettered on every p-th of its NACKs and on no other, whatever other messages are NACKed in between. */
  lemma {:induction false} NacksConverge(ks: seq<Key>, k: Key, maxRetries: int)
    requires maxRetries <= 127
    ensures var s, p := NackedAll(FRESH, ks, maxRetries), Patience(maxRetries);
      && Times(s.retried, k) + Times(s.dead, k) == Times(ks, k)
      && Times(ks, k) == Times(s.dead, k) * p + Counter(s, k)
      && 0 <= Counter(s, k) < p
  {
    hide Times, Nacked;
    if ks == [] {
      TimesNone(k);
    } else {
      var init, x := ks[..|ks| - 1], ks[|ks| - 1];
      NacksConverge(init, k, maxRetries);
      var s := NackedAll(FRESH, init, maxRetries);
      NackedCounts(s, x, maxRetries, k);
      assert ks == init + [x];
      TimesSnoc(init, x, k);
      MulSucc(Times(s.dead, k), Patience(maxRetries));
    }
  }

  lemma TimesNone(k: Key)
    ensures Times([], k) == 0
  {
  }

  /** A limit above 127 is never reached: the counter wraps first. */
  lemma {:induction false} NeverDeadAbove127(ks: seq<Key>, k: Key, maxRetries: int)
    requires maxRetries > 127
    ensures var s := NackedAll(FRESH, ks, maxRetries);
      Times(s.dead, k) == 0 && Times(s.retried, k) == Times(ks, k) && -128 <= Counter(s, k) <= 127
  {
    hide Times, Nacked;
    if ks == [] {
      TimesNone(k);
    } else {
      var init, x := ks[..|ks| - 1], ks[|ks| - 1];
      NeverDeadAbove127(init, k, maxRetries);
      NackedCounts(NackedAll(FRESH, init, maxRetries), x, maxRetries, k);
      assert ks == init + [x];
      TimesSnoc(init, x, k);
    }
  }

  function Repeat(k: Key, n: nat): (ks: seq<Key>)
    ensures |ks| == n && Times(ks, k) == n
  {
    if n == 0 then []
    else
      TimesSnoc(Repeat(k, n - 1), k, k);
      Repeat(k, n - 1) + [k]
  }

  /** NACKing a message often enough gets it dead-lettered exactly when the limit fits the 8-bit counter. */
  lemma DeadLetterReachableIff(k: Key, maxRetries: int)
    ensures (exists n: nat :: Times(NackedAll(FRESH, Repeat(k, n), maxRetries).dead, k) > 0) <==> maxRetries <= 127
  {
    hide Times, NackedAll;
    if maxRetries <= 127 {
      var n := Patience(maxRetries);
      NacksConverge(Repeat(k, n), k, maxRetries);
      var s := NackedAll(FRESH, Repeat(k, n), maxRetries);
      assert Times(s.dead, k) * n + Counter(s, k) == n;
      DeadOnce(Times(s.dead, k), n, Counter(s, k));
      assert Times(NackedAll(FRESH, Repeat(k, n), maxRetries).dead, k) > 0;
    } else {
      forall n: nat ensures Times(NackedAll(FRESH, Repeat(k, n), maxRetries).dead, k) == 0 {
        NeverDeadAbove127(Repeat(k, n), k, maxRetries);
      }
    }
  }

  lemma DeadOnce(d: nat, p: nat, c: int)
    requires d * p + c == p && c < p
    ensures d > 0
  {
  }

  // ---- The frames published -------------------------------------------------------------------------------------

  /** The retry: the subscription's topic, with the original offset as an extension. */
  function RetryFrame(k: Key): Frame { Frame(CMD_PUBLISH, 0, k.topic, Extensions.RetryBlock(k.offset)) }

  function DeadLetterFrame(k: Key): Frame { Frame(CMD_PUBLISH, 0, DLQ_PREFIX + k.topic, []) }

  /** What a NACK publishes: a retry until the limit, then the dead letter. */
  function NackFrame(s: State, k: Key, maxRetries: int): Frame
  {
    if Inc8(Counter(s, k)) < maxRetries then RetryFrame(k) else DeadLetterFrame(k)
  }

  /** What a NACK publishes is what it is booked as. */
  lemma NackPublishes(s: State, k: Key, maxRetries: int)
    ensures NackFrame(s, k, maxRetries) == RetryFrame(k) ==>
      Nacked(s, k, maxRetries).retried == s.retried + [k] && Nacked(s, k, maxRetries).dead == s.dead
    ensures NackFrame(s, k, maxRetries) == DeadLetterFrame(k) ==>
      Nacked(s, k, maxRetries).retried == s.retried && Nacked(s, k, maxRetries).dead == s.dead + [k]
    ensures RetryFrame(k) != DeadLetterFrame(k)
  {
    assert |RetryFrame(k).payload| != |DeadLetterFrame(k).payload|;
  }

  /** Whatever else is NACKed in between: for a limit up to 127, a NACK publishes the dead letter exactly when it is one of
      the key's every p-th, and the retry otherwise; for a larger limit always the retry. */
  lemma EveryPthIsDead(ks: seq<Key>, k: Key, maxRetries: int)
    ensures NackFrame(NackedAll(FRESH, ks, maxRetries), k, maxRetries)
      == if maxRetries <= 127 && (Times(ks, k) + 1) % Patience(maxRetries) == 0 then DeadLetterFrame(k) else RetryFrame(k)
  {
    hide Times, NackedAll, RetryFrame, DeadLetterFrame;
    var s, p := NackedAll(FRESH, ks, maxRetries), Patience(maxRetries);
    if maxRetries <= 127 {
      NacksConverge(ks, k, maxRetries);
      NextMultiple(Times(s.dead, k), p, Counter(s, k));
    } else {
      NeverDeadAbove127(ks, k, maxRetries);
    }
  }

  lemma NextMultiple(d: nat, p: nat, c: nat)
    requires c < p
    ensures (d * p + c + 1) % p == 0 <==> c + 1 == p
  {
    if c + 1 == p {
      MulSucc(d, p);
      ModUnique((d + 1) * p, d + 1, 0, p);
    } else {
      ModUnique(d * p + c + 1, d, c + 1, p);
    }
  }

  lemma ModUnique(x: nat, q: nat, r: nat, p: nat)
    requires r < p && x == q * p + r
    ensures x % p == r
  {
    var q', r' := x / p, x % p;
    assert x == q' * p + r' && 0 <= r' < p;
    assert q' < q ==> (q' + 1) * p <= q * p;
    assert q < q' ==> (q + 1) * p <= q' * p;
  }

  /** The offset a delivery is known by: the one a retry carries, else the message's own. */
  function DeliveryOffset(frame: seq<byte>, offset: nat): nat
  {
    if |frame| >= HEADER_SIZE && HasExtensionsBit(frame[1]) then
      match Extensions.Find(frame[HEADER_SIZE..], Extensions.EXT_RETRY_OFFSET)
      case None => offset
      case Some(v) => if |v| >= 8 then FromLE(v[..8]) else offset
    else offset
  }

  lemma RetryBlockFinds(offset: nat, rest: seq<byte>)
    requires offset < U64
    ensures Extensions.Find(Extensions.RetryBlock(offset) + rest, Extensions.EXT_RETRY_OFFSET) == Some(LE(offset, 8))
    ensures |Extensions.RetryBlock(offset)| == 12
  {
    hide LE;
    var e := Extensions.Entry(Extensions.EXT_RETRY_OFFSET, LE(offset, 8));
    assert Extensions.Encode([e]) == Extensions.EncodeEntry(e) + Extensions.Encode([]);
    Extensions.FindFirstNonEmpty([e], rest, Extensions.EXT_RETRY_OFFSET);
  }

  /** A retry is delivered under the offset that was NACKed, whatever offset its own publish drew; so a NACK of it
      counts against the same key. */
  lemma RetryKeepsOffset(k: Key, own: nat)
    requires k.offset < U64
    ensures DeliveryOffset(LocalFrame(RetryFrame(k)), own) == k.offset
  {
    hide LE, FromLE, Extensions.Find, Extensions.RetryBlock, TopicOf;
    var f := RetryFrame(k);
    var t := TopicOf(f);
    RetryBlockFinds(k.offset, t);
    var w := LocalFrame(f);
    var h := Header(SetExtensionsBit(CMD_PUBLISH), 0, 12 + |t|);
    assert w == h + (f.extensions + t);
    assert w[HEADER_SIZE..] == f.extensions + t && w[1] == h[1];
    var v := LE(k.offset, 8);
    assert v[..8] == v;
    U64RoundTrip(k.offset);
  }

  /** The retry entry of a frame's extensions: eight bytes at least. */
  predicate HasRetryEntry(f: Frame)
  {
    f.HasExtensions() && match Extensions.Find(f.extensions, Extensions.EXT_RETRY_OFFSET)
                         case None => false
                         case Some(v) => |v| >= 8
  }

  /** A delivery goes under its own offset unless its extensions carry a retry entry, and then under that one. */
  lemma DeliveryOffsetIs(f: Frame, own: nat)
    requires Carriable(f)
    ensures DeliveryOffset(LocalFrame(f), own)
      == if HasRetryEntry(f) then FromLE(Extensions.Find(f.extensions, Extensions.EXT_RETRY_OFFSET).value[..8]) else own
  {
    hide LE, FromLE, Extensions.Find, TopicOf;
    var w, t := LocalFrame(f), TopicOf(f);
    if f.HasExtensions() {
      Extensions.FindIgnoresRest(f.extensions, t, Extensions.EXT_RETRY_OFFSET);
      var h := Header(SetExtensionsBit(CMD_PUBLISH), 0, |f.extensions| + |t|);
      assert w == h + (f.extensions + t);
      assert w[HEADER_SIZE..] == f.extensions + t && w[1] == h[1];
    } else {
      assert w[1] == CMD_PUBLISH;
    }
  }
}
