/** Topic spellings: what a publish payload routes to and what a subscribe payload registers. */
module Topics {
  import opened Bytes

  const COLON: byte := 0x3A
  const TTL_PREFIX: seq<byte> := [0x74, 0x74, 0x6C, 0x3A]                 // "ttl:"
  const TOPIC_PREFIX: seq<byte> := [0x74, 0x6F, 0x70, 0x69, 0x63, 0x3A]   // "topic:"
  const GROUP: seq<byte> := [0x67, 0x72, 0x6F, 0x75, 0x70]                // "group"
  const DURABLE: seq<byte> := [0x64, 0x75, 0x72, 0x61, 0x62, 0x6C, 0x65]  // "durable"

  /** ":group:" and ":durable:". */
  function Marker(word: seq<byte>): seq<byte> { [COLON] + word + [COLON] }

  // ---- Searching -----------------------------------------------------------------------------------

  predicate At(s: seq<byte>, pat: seq<byte>, i: nat)
  {
    i + |pat| <= |s| && s[i..i + |pat|] == pat
  }

  predicate Contains(s: seq<byte>, pat: seq<byte>)
  {
    exists i :: 0 <= i <= |s| && At(s, pat, i)
  }

  /** strings.Index: the first occurrence. */
  function Index(s: seq<byte>, pat: seq<byte>): (r: Option<nat>)
    requires pat != []
    ensures r.Some? ==> At(s, pat, r.value)
  {
    if |s| < |pat| then None
    else if s[..|pat|] == pat then Some(0)
    else
      match Index(s[1..], pat)
      case None => None
      case Some(i) =>
        SliceOfTail(s, i, |pat|);
        Some(i + 1)
  }

  lemma SliceOfTail(s: seq<byte>, i: nat, n: nat)
    requires s != [] && i + 1 + n <= |s|
    ensures s[i + 1..i + 1 + n] == s[1..][i..i + n]
  {
    var a, b := s[i + 1..i + 1 + n], s[1..][i..i + n];
    forall k | 0 <= k < n ensures a[k] == b[k] {
      assert a[k] == s[i + 1 + k] == s[1..][i + k];
    }
  }

  lemma {:induction false} IndexIsFirst(s: seq<byte>, pat: seq<byte>)
    requires pat != []
    ensures Index(s, pat).None? ==> !Contains(s, pat)
    ensures Index(s, pat).Some? ==> forall j :: 0 <= j < Index(s, pat).value ==> !At(s, pat, j)
  {
    if |s| >= |pat| && s[..|pat|] != pat {
      IndexIsFirst(s[1..], pat);
      forall j | 0 <= j <= |s| && At(s, pat, j)
        ensures j > 0 && At(s[1..], pat, j - 1)
      {
        assert s[0..|pat|] == s[..|pat|];
        assert s[1..][j - 1..j - 1 + |pat|] == s[j..j + |pat|];
      }
    }
  }

  lemma IndexAt(s: seq<byte>, pat: seq<byte>, i: nat)
    requires pat != [] && At(s, pat, i)
    requires forall j :: 0 <= j < i ==> !At(s, pat, j)
    ensures Index(s, pat) == Some(i)
  {
    IndexIsFirst(s, pat);
  }

  /** The text before and after the first separator. */
  function Cut(s: seq<byte>, sep: seq<byte>): Option<(seq<byte>, seq<byte>)>
    requires sep != []
  {
    match Index(s, sep)
    case None => None
    case Some(i) => Some((s[..i], s[i + |sep|..]))
  }

  // ---- Numbers -------------------------------------------------------------------------------------

  predicate IsDigit(b: byte) { 0x30 <= b <= 0x39 }

  predicate AllDigits(s: seq<byte>) { s != [] && forall i :: 0 <= i < |s| ==> IsDigit(s[i]) }

  function DigitsValue(s: seq<byte>): nat
    requires forall i :: 0 <= i < |s| ==> IsDigit(s[i])
  {
    if s == [] then 0
    else
      assert IsDigit(s[|s| - 1]);
      10 * DigitsValue(s[..|s| - 1]) + s[|s| - 1] - 0x30
  }

  /** strconv.ParseUint(s, 10, 64) with the error dropped: zero for bad syntax, the largest value when out of range. */
  function ParseUint(s: seq<byte>): (n: nat)
    ensures n < U64
  {
    if !AllDigits(s) then 0 else if DigitsValue(s) < U64 then DigitsValue(s) else U64 - 1
  }

  /** strconv.ParseInt(s, 10, 64). */
  function ParseInt(s: seq<byte>): Option<int>
  {
    var signed := s != [] && (s[0] == 0x2B || s[0] == 0x2D);
    var digits := if signed then s[1..] else s;
    if !AllDigits(digits) then None
    else
      var n: int := DigitsValue(digits);
      var v := if signed && s[0] == 0x2D then -n else n;
      if -(U64 / 2) <= v < U64 / 2 then Some(v) else None
  }

  function Decimal(n: nat): (s: seq<byte>)
    ensures AllDigits(s)
  {
    if n < 10 then [0x30 + n] else Decimal(n / 10) + [0x30 + n % 10]
  }

  lemma {:induction false} DecimalValue(n: nat)
    ensures DigitsValue(Decimal(n)) == n
  {
    if n >= 10 {
      DecimalValue(n / 10);
      assert Decimal(n)[..|Decimal(n)| - 1] == Decimal(n / 10);
    } else {
      assert Decimal(n)[..0] == [];
    }
  }

  /** Decimal numbers are read as themselves as far as 64 bits go, with or without a sign; beyond that a signed one is
      refused and an unsigned one becomes the largest. */
  lemma NumbersRead(n: nat)
    ensures ParseInt(Decimal(n)) == if n < U64 / 2 then Some(n) else None
    ensures ParseInt([0x2B] + Decimal(n)) == if n < U64 / 2 then Some(n) else None
    ensures ParseInt([0x2D] + Decimal(n)) == if n <= U64 / 2 then Some(0 - n as int) else None
    ensures ParseUint(Decimal(n)) == if n < U64 then n else U64 - 1
  {
    DecimalValue(n);
    var s := Decimal(n);
    assert IsDigit(s[0]);
    assert ([0x2B] + s)[1..] == s && ([0x2D] + s)[1..] == s;
  }

  /** Nothing else is a number: an optional sign, then digits and only digits. */
  lemma OnlyNumbersRead(s: seq<byte>)
    ensures !AllDigits(s) ==> ParseUint(s) == 0
    ensures ParseInt(s).Some? ==> AllDigits(s) || (s != [] && s[0] in [0x2B, 0x2D] && AllDigits(s[1..]))
  {
  }

  // ---- Publishing ----------------------------------------------------------------------------------

  predicate HasPrefix(s: seq<byte>, p: seq<byte>) { |p| <= |s| && s[..|p|] == p }

  /** parseTTL: the milliseconds of a "ttl:<ms>:" prefix, and what follows it. */
  function ParseTTL(payload: seq<byte>): (Option<int>, seq<byte>)
  {
    if HasPrefix(payload, TTL_PREFIX) then
      match Index(payload[4..], [COLON])
      case None => (None, payload)
      case Some(idx) =>
        if idx == 0 then (None, payload)
        else
          match ParseInt(payload[4..4 + idx])
          case None => (None, payload)
          case Some(ms) => (Some(ms), payload[4 + idx + 1..])
    else (None, payload)
  }

  /** parsePublishTopic: strips the TTL prefix, then one "topic:" prefix that something follows. */
  function ParsePublishTopic(payload: seq<byte>): (Option<int>, seq<byte>)
  {
    var (ttl, rest) := ParseTTL(payload);
    if HasPrefix(rest, TOPIC_PREFIX) && |rest| > |TOPIC_PREFIX| then (ttl, rest[|TOPIC_PREFIX|..])
    else (ttl, rest)
  }

  predicate BareTopic(t: seq<byte>)
  {
    t != [] && !HasPrefix(t, TTL_PREFIX) && !HasPrefix(t, TOPIC_PREFIX)
  }

  lemma TTLStripped(ms: seq<byte>, rest: seq<byte>)
    requires ParseInt(ms).Some? && COLON !in ms
    ensures ParseTTL(TTL_PREFIX + ms + [COLON] + rest) == (ParseInt(ms), rest)
  {
    var s := TTL_PREFIX + ms + [COLON] + rest;
    assert s[..4] == TTL_PREFIX;
    var after := ms + [COLON] + rest;
    assert s[4..] == after;
    assert ms != [];
    assert after[|ms|..|ms| + 1] == [COLON];
    forall j | 0 <= j < |ms| ensures !At(after, [COLON], j) {
      assert after[j..j + 1][0] == ms[j] && ms[j] in ms;
    }
    IndexAt(after, [COLON], |ms|);
    assert s[4..4 + |ms|] == ms && s[4 + |ms| + 1..] == rest;
  }

  /** What stands between "ttl:" and the next colon without being a number is no TTL: nothing is taken off. */
  lemma TTLKept(ms: seq<byte>, rest: seq<byte>)
    requires ParseInt(ms).None? && COLON !in ms
    ensures ParseTTL(TTL_PREFIX + ms + [COLON] + rest) == (None, TTL_PREFIX + ms + [COLON] + rest)
  {
    hide ParseInt;
    var s := TTL_PREFIX + ms + [COLON] + rest;
    var after := ms + [COLON] + rest;
    assert s[4..] == after;
    CutColon(ms, rest);
    assert s[4..4 + |ms|] == ms;
  }

  /** All four spellings of a topic publish to that topic. */
  lemma PublishSpellings(t: seq<byte>, ms: seq<byte>)
    requires BareTopic(t) && ParseInt(ms).Some? && COLON !in ms
    ensures ParsePublishTopic(t) == (None, t)
    ensures ParsePublishTopic(TOPIC_PREFIX + t) == (None, t)
    ensures ParsePublishTopic(TTL_PREFIX + ms + [COLON] + t) == (ParseInt(ms), t)
    ensures ParsePublishTopic(TTL_PREFIX + ms + [COLON] + (TOPIC_PREFIX + t)) == (ParseInt(ms), t)
  {
    var p := TOPIC_PREFIX + t;
    assert p[..6] == TOPIC_PREFIX && p[6..] == t;
    assert !HasPrefix(p, TTL_PREFIX) by {
      assert p[..4][1] == TOPIC_PREFIX[1];
    }
    TTLStripped(ms, t);
    TTLStripped(ms, p);
  }

  /** Reading the topic once more changes nothing: no TTL prefix and no "topic:" prefix is left on it. */
  predicate Settled(t: seq<byte>)
  {
    ParseTTL(t).0.None? && !(HasPrefix(t, TOPIC_PREFIX) && |t| > |TOPIC_PREFIX|)
  }

  lemma SettledIff(t: seq<byte>)
    ensures ParsePublishTopic(t).1 == t <==> Settled(t)
    ensures Settled(t) ==> ParsePublishTopic(t) == (None, t)
  {
  }

  // ---- Subscribing ---------------------------------------------------------------------------------

  datatype Spec = Spec(topic: seq<byte>, group: seq<byte>, durable: bool, consumer: seq<byte>, offset: nat)

  datatype SpecError = TopicRequired | TopicEmpty

  datatype SpecResult = Parsed(spec: Spec) | Invalid(error: SpecError)

  /** The ":group:<id>" part, taken out of the text around it. */
  function TakeGroup(raw: seq<byte>): (seq<byte>, seq<byte>)
  {
    match Index(raw, Marker(GROUP))
    case None => ([], raw)
    case Some(idx) =>
      var rest := raw[idx + |Marker(GROUP)|..];
      match Index(rest, [COLON])
      case None => (rest, raw[..idx])
      case Some(end) => (rest[..end], raw[..idx] + rest[end..])
  }

  /** The ":durable:<consumer>[:<offset>]" part. */
  function TakeDurable(raw: seq<byte>, group: seq<byte>): Spec
  {
    match Cut(raw, Marker(DURABLE))
    case None => Spec(raw, group, false, [], 0)
    case Some((topic, after)) =>
      var part := match Cut(after, Marker(DURABLE)) case None => after case Some((p, _)) => p;
      match Cut(part, [COLON])
      case None => Spec(topic, group, true, part, 0)
      case Some((consumer, tail)) =>
        var digits := match Cut(tail, [COLON]) case None => tail case Some((d, _)) => d;
        Spec(topic, group, true, consumer, ParseUint(digits))
  }

  /** parseSubscriptionPayload. */
  function ParseSubscriptionPayload(payload: seq<byte>): SpecResult
  {
    if !HasPrefix(payload, TOPIC_PREFIX) then Invalid(TopicRequired)
    else if payload[6..] == [] then Invalid(TopicEmpty)
    else
      var (group, raw) := TakeGroup(payload[6..]);
      Parsed(TakeDurable(raw, group))
  }

  /** A spelling "topic:T[:group:G][:durable:C:N]". */
  function GroupPart(g: Option<seq<byte>>): seq<byte>
  {
    if g.None? then [] else Marker(GROUP) + g.value
  }

  function DurablePart(d: Option<(seq<byte>, nat)>): seq<byte>
  {
    if d.None? then [] else Marker(DURABLE) + d.value.0 + [COLON] + Decimal(d.value.1)
  }

  function Intended(t: seq<byte>, g: Option<seq<byte>>, d: Option<(seq<byte>, nat)>): Spec
  {
    Spec(t, if g.None? then [] else g.value, d.Some?,
         if d.None? then [] else d.value.0, if d.None? then 0 else d.value.1)
  }

  predicate EndsWith(s: seq<byte>, p: seq<byte>) { |p| <= |s| && s[|s| - |p|..] == p }

  /** A marker that starts in a text without one, and runs on into the colon behind it, ends with that colon. */
  lemma MarkerAcross(t: seq<byte>, x: seq<byte>, word: seq<byte>, j: nat)
    requires COLON !in word
    requires !Contains(t, Marker(word))
    requires x != [] && x[0] == COLON
    requires j < |t| && At(t + x, Marker(word), j)
    ensures j == |t| - |word| - 1 && EndsWith(t, [COLON] + word)
  {
    var m := Marker(word);
    var s := t + x;
    if j + |m| <= |t| {
      assert t[j..j + |m|] == s[j..j + |m|];
      assert At(t, m, j);
    }
    var k := |t| - j;
    assert m[k] == s[j..j + |m|][k] == s[|t|] == COLON;
    assert k == |word| + 1;
    assert t[j..] == s[j..j + |m|][..|word| + 1];
  }

  /** The first marker in T + X when X starts with it. */
  lemma FirstMarker(t: seq<byte>, x: seq<byte>, word: seq<byte>)
    requires COLON !in word && !Contains(t, Marker(word)) && HasPrefix(x, Marker(word))
    ensures Index(t + x, Marker(word))
      == Some(if EndsWith(t, [COLON] + word) then |t| - |word| - 1 else |t|)
  {
    var m := Marker(word);
    var s := t + x;
    assert x[0] == x[..|m|][0] == COLON;
    if EndsWith(t, [COLON] + word) {
      var i := |t| - |word| - 1;
      assert s[i..i + |m|] == [COLON] + word + [COLON];
      forall j | 0 <= j < i ensures !At(s, m, j) {
        if At(s, m, j) { MarkerAcross(t, x, word, j); }
      }
      IndexAt(s, m, i);
    } else {
      assert s[|t|..|t| + |m|] == x[..|m|];
      forall j | 0 <= j < |t| ensures !At(s, m, j) {
        if At(s, m, j) { MarkerAcross(t, x, word, j); }
      }
      IndexAt(s, m, |t|);
    }
  }

  lemma CutColon(a: seq<byte>, b: seq<byte>)
    requires COLON !in a
    ensures Index(a + [COLON] + b, [COLON]) == Some(|a|)
    ensures Cut(a + [COLON] + b, [COLON]) == Some((a, b))
  {
    var s := a + [COLON] + b;
    forall j | 0 <= j < |a| ensures !At(s, [COLON], j) {
      assert s[j..j + 1][0] == a[j] && a[j] in a;
    }
    assert s[|a|..|a| + 1] == [COLON];
    IndexAt(s, [COLON], |a|);
    assert s[..|a|] == a && s[|a| + 1..] == b;
  }

  lemma NoColon(a: seq<byte>, sep: seq<byte>)
    requires COLON !in a && COLON in sep
    ensures Index(a, sep) == None && Cut(a, sep) == None
  {
  }

  lemma ColonFreeWords()
    ensures COLON !in GROUP && COLON !in DURABLE
    ensures forall n: nat {:trigger Decimal(n)} :: COLON !in Decimal(n)
  {
    forall n: nat ensures COLON !in Decimal(n) {
      assert AllDigits(Decimal(n));
    }
  }

  lemma GroupFound(t: seq<byte>, g: seq<byte>, d: seq<byte>)
    requires COLON !in g && !Contains(t, Marker(GROUP)) && (d == [] || d[0] == COLON) && !EndsWith(t, [COLON] + GROUP)
    ensures TakeGroup(t + (Marker(GROUP) + g + d)) == (g, t + d)
  {
    hide Index, Contains;
    ColonFreeWords();
    var m := Marker(GROUP);
    var x := m + g + d;
    var raw := t + x;
    assert x[..|m|] == m;
    FirstMarker(t, x, GROUP);
    assert raw[|t| + 7..] == g + d && raw[..|t|] == t;
    GroupName(g, d);
    assert (g + d)[..|g|] == g && (g + d)[|g|..] == d;
    assert d == [] ==> t + d == t && g + d == g;
  }

  lemma GroupMisread(t: seq<byte>, g: seq<byte>, d: seq<byte>)
    requires COLON !in g && !Contains(t, Marker(GROUP)) && EndsWith(t, [COLON] + GROUP)
    ensures TakeGroup(t + (Marker(GROUP) + g + d)) == (GROUP, t[..|t| - 6] + [COLON] + g + d)
  {
    hide Index, Contains;
    ColonFreeWords();
    var m := Marker(GROUP);
    var x := m + g + d;
    var raw := t + x;
    assert x[..|m|] == m;
    FirstMarker(t, x, GROUP);
    var u := t[..|t| - 6];
    var rest := raw[|u| + 7..];
    assert rest == GROUP + [COLON] + (g + d);
    assert raw[..|u|] == u;
    CutColon(GROUP, g + d);
    assert rest[..5] == GROUP && rest[5..] == [COLON] + (g + d);
    assert u + ([COLON] + (g + d)) == u + [COLON] + g + d;
  }

  /** The group part comes out whole, unless the topic ends in ":group" and the first marker is found there. */
  lemma GroupTaken(t: seq<byte>, g: seq<byte>, d: seq<byte>)
    requires COLON !in g && !Contains(t, Marker(GROUP)) && (d == [] || d[0] == COLON)
    ensures TakeGroup(t + (Marker(GROUP) + g + d))
      == if EndsWith(t, [COLON] + GROUP) then (GROUP, t[..|t| - 6] + [COLON] + g + d) else (g, t + d)
  {
    hide TakeGroup, Marker, Contains;
    if EndsWith(t, [COLON] + GROUP) {
      GroupMisread(t, g, d);
    } else {
      GroupFound(t, g, d);
    }
  }

  lemma GroupName(g: seq<byte>, d: seq<byte>)
    requires COLON !in g && (d == [] || d[0] == COLON)
    ensures Index(g + d, [COLON]) == if d == [] then None else Some(|g|)
  {
    if d == [] {
      assert g + d == g;
      NoColon(g, [COLON]);
    } else {
      assert g + d == g + [COLON] + d[1..];
      CutColon(g, d[1..]);
    }
  }

  lemma {:induction false} NoMarker(s: seq<byte>, m: seq<byte>)
    requires m != [] && forall j :: 0 <= j <= |s| ==> !At(s, m, j)
    ensures Index(s, m) == None
  {
    IndexIsFirst(s, m);
  }

  /** The colons of ":durable:C:N" and nothing else. */
  lemma DurableColons(c: seq<byte>, n: nat, j: nat)
    requires COLON !in c
    ensures var d := Marker(DURABLE) + c + [COLON] + Decimal(n);
      j < |d| && d[j] == COLON ==> j == 0 || j == 8 || j == 9 + |c|
  {
    ColonFreeWords();
    var d := Marker(DURABLE) + c + [COLON] + Decimal(n);
    if 1 <= j < 8 {
      assert d[j] == DURABLE[j - 1] && DURABLE[j - 1] in DURABLE;
    } else if 9 <= j < 9 + |c| {
      assert d[j] == c[j - 9] && c[j - 9] in c;
    } else if 9 + |c| < j < |d| {
      assert d[j] == Decimal(n)[j - 10 - |c|] && Decimal(n)[j - 10 - |c|] in Decimal(n);
    }
  }

  /** ":durable:C:N" holds a group marker only when the consumer is called "group". */
  lemma GroupInDurable(c: seq<byte>, n: nat, j: nat)
    requires COLON !in c && At(Marker(DURABLE) + c + [COLON] + Decimal(n), Marker(GROUP), j)
    ensures c == GROUP
  {
    ColonFreeWords();
    var d := Marker(DURABLE) + c + [COLON] + Decimal(n);
    assert d[j] == d[j..j + 7][0] == COLON && d[j + 6] == d[j..j + 7][6] == COLON;
    assert d[j + 1] == d[j..j + 7][1] == GROUP[0];
    DurableColons(c, n, j);
    DurableColons(c, n, j + 6);
    assert j == 8 && |c| == 5;
    assert d[9..14] == c;
    assert d[8..15][1..6] == d[9..14] && Marker(GROUP)[1..6] == GROUP;
  }

  /** Without a group part, the text is left alone exactly when no group marker is made by accident. */
  lemma NoGroupTaken(t: seq<byte>, c: seq<byte>, n: nat)
    requires COLON !in c && !Contains(t, Marker(GROUP))
    ensures var raw := t + (Marker(DURABLE) + c + [COLON] + Decimal(n));
      if EndsWith(t, [COLON] + GROUP) || c == GROUP then TakeGroup(raw).0 != [] else TakeGroup(raw) == ([], raw)
  {
    ColonFreeWords();
    var d := Marker(DURABLE) + c + [COLON] + Decimal(n);
    var raw := t + d;
    var m := Marker(GROUP);
    if EndsWith(t, [COLON] + GROUP) {
      AccidentalGroup(t, c, n);
    } else if c == GROUP {
      ConsumerCalledGroup(t, n);
    } else {
      forall j | 0 <= j <= |raw| ensures !At(raw, m, j) {
        if j < |t| {
          if At(raw, m, j) {
            MarkerAcross(t, d, GROUP, j);
          }
        } else {
          assert j + 7 <= |raw| ==> raw[j..j + 7] == d[j - |t|..j - |t| + 7];
          if At(raw, m, j) {
            GroupInDurable(c, n, j - |t|);
          }
        }
      }
      NoMarker(raw, m);
    }
  }

  lemma AccidentalGroup(t: seq<byte>, c: seq<byte>, n: nat)
    requires !Contains(t, Marker(GROUP)) && EndsWith(t, [COLON] + GROUP)
    ensures TakeGroup(t + (Marker(DURABLE) + c + [COLON] + Decimal(n))).0 == DURABLE
  {
    ColonFreeWords();
    var d := Marker(DURABLE) + c + [COLON] + Decimal(n);
    var raw := t + d;
    var m := Marker(GROUP);
    var i := |t| - 6;
    assert raw[i..i + 7] == [COLON] + GROUP + [COLON];
    forall j | 0 <= j < i ensures !At(raw, m, j) {
      if At(raw, m, j) {
        MarkerAcross(t, d, GROUP, j);
      }
    }
    IndexAt(raw, m, i);
    var tail := c + [COLON] + Decimal(n);
    assert raw[i + 7..] == DURABLE + [COLON] + tail;
    CutColon(DURABLE, tail);
  }

  lemma ConsumerCalledGroup(t: seq<byte>, n: nat)
    requires !Contains(t, Marker(GROUP)) && !EndsWith(t, [COLON] + GROUP)
    ensures TakeGroup(t + (Marker(DURABLE) + GROUP + [COLON] + Decimal(n))).0 == Decimal(n)
  {
    hide Index, Decimal, Contains, EndsWith, At;
    ColonFreeWords();
    var d := Marker(DURABLE) + GROUP + [COLON] + Decimal(n);
    var raw := t + d;
    var m := Marker(GROUP);
    var i := |t| + 8;
    assert raw[i..i + 7] == m;
    assert At(raw, m, i) by { AtIs(raw, m, i); }
    forall j | 0 <= j < i ensures !At(raw, m, j) {
      if j < |t| {
        if At(raw, m, j) {
          MarkerAcross(t, d, GROUP, j);
        }
      } else {
        AtIs(raw, m, j);
        assert raw[j..j + 7][0] == d[j - |t|] && raw[j..j + 7][1] == d[j - |t| + 1];
        DurableColons(GROUP, n, j - |t|);
      }
    }
    IndexAt(raw, m, i);
    assert raw[i + 7..] == Decimal(n);
    NoColon(Decimal(n), [COLON]);
  }

  lemma AtIs(s: seq<byte>, pat: seq<byte>, i: nat)
    ensures At(s, pat, i) <==> i + |pat| <= |s| && s[i..i + |pat|] == pat
  {
  }

  /** The durable part comes out whole, unless the topic ends in ":durable". */
  lemma DurableTaken(t: seq<byte>, g: seq<byte>, c: seq<byte>, n: nat)
    requires COLON !in c && n < U64 && !Contains(t, Marker(DURABLE))
    ensures var spec := TakeDurable(t + (Marker(DURABLE) + c + [COLON] + Decimal(n)), g);
      if EndsWith(t, [COLON] + DURABLE) then spec.topic != t else spec == Spec(t, g, true, c, n)
  {
    hide Index, Decimal, Contains;
    ColonFreeWords();
    var m := Marker(DURABLE);
    var x := m + c + [COLON] + Decimal(n);
    var raw := t + x;
    assert x[..|m|] == m;
    FirstMarker(t, x, DURABLE);
    if !EndsWith(t, [COLON] + DURABLE) {
      assert raw[..|t|] == t;
      assert raw[|t| + |m|..] == c + [COLON] + Decimal(n);
      NoSecondDurable(c, n);
      CutColon(c, Decimal(n));
      NoColon(Decimal(n), [COLON]);
      DecimalValue(n);
    }
  }

  /** The same without an offset, which is then 0. */
  lemma DurableWithoutOffset(t: seq<byte>, g: seq<byte>, c: seq<byte>)
    requires COLON !in c && !Contains(t, Marker(DURABLE)) && !EndsWith(t, [COLON] + DURABLE)
    ensures TakeDurable(t + (Marker(DURABLE) + c), g) == Spec(t, g, true, c, 0)
  {
    hide Index, Contains;
    ColonFreeWords();
    var m := Marker(DURABLE);
    var raw := t + (m + c);
    assert (m + c)[..|m|] == m;
    FirstMarker(t, m + c, DURABLE);
    assert raw[..|t|] == t && raw[|t| + |m|..] == c;
    NoColon(c, m);
    NoColon(c, [COLON]);
  }

  lemma NoSecondDurable(c: seq<byte>, n: nat)
    requires COLON !in c
    ensures Index(c + [COLON] + Decimal(n), Marker(DURABLE)) == None
  {
    hide Index, Decimal, At;
    var m := Marker(DURABLE);
    var after := c + [COLON] + Decimal(n);
    var x := m + c + [COLON] + Decimal(n);
    forall j | 0 <= j <= |after| ensures !At(after, m, j) {
      AtIs(after, m, j);
      if j + 9 <= |after| {
        assert after[j..j + 9][0] == x[j + 9] && after[j..j + 9][8] == x[j + 17];
        DurableColons(c, n, j + 9);
        DurableColons(c, n, j + 17);
      }
    }
    NoMarker(after, m);
  }

  lemma NotGrouped(t: seq<byte>)
    requires !Contains(t, Marker(GROUP))
    ensures TakeGroup(t) == ([], t)
  {
    NoMarker(t, Marker(GROUP));
  }

  lemma NotDurable(t: seq<byte>, g: seq<byte>)
    requires !Contains(t, Marker(DURABLE))
    ensures TakeDurable(t, g) == Spec(t, g, false, [], 0)
  {
    NoMarker(t, Marker(DURABLE));
  }

  /** A subscription is refused exactly when it does not name a topic behind "topic:". */
  lemma InvalidIff(payload: seq<byte>)
    ensures ParseSubscriptionPayload(payload).Invalid? <==> !exists r: seq<byte> :: r != [] && payload == TOPIC_PREFIX + r
    ensures ParseSubscriptionPayload(payload) == Invalid(TopicEmpty) <==> payload == TOPIC_PREFIX
  {
    hide TakeGroup, TakeDurable;
    if HasPrefix(payload, TOPIC_PREFIX) {
      assert payload == TOPIC_PREFIX + payload[6..];
      assert payload[6..] == [] ==> payload == TOPIC_PREFIX + [];
    }
    forall r: seq<byte> | payload == TOPIC_PREFIX + r ensures HasPrefix(payload, TOPIC_PREFIX) && payload[6..] == r {
      assert payload[..6] == TOPIC_PREFIX;
    }
  }

  /** A topic without markers is registered as it stands. */
  lemma PlainSubscription(t: seq<byte>)
    requires t != [] && !Contains(t, Marker(GROUP)) && !Contains(t, Marker(DURABLE))
    ensures ParseSubscriptionPayload(TOPIC_PREFIX + t) == Parsed(Spec(t, [], false, [], 0))
  {
    hide TakeGroup, TakeDurable, Contains;
    var payload := TOPIC_PREFIX + t;
    assert payload[..6] == TOPIC_PREFIX && payload[6..] == t;
    NotGrouped(t);
    NotDurable(t, []);
  }

  /** The spellings that mean what they say: no accidental marker is made where the topic meets its suffixes. */
  predicate Recoverable(t: seq<byte>, g: Option<seq<byte>>, d: Option<(seq<byte>, nat)>)
  {
    || (g.None? && d.None?)
    || (&& (EndsWith(t, [COLON] + GROUP) ==> g == Some(GROUP))
        && (d.Some? ==> !EndsWith(t, [COLON] + DURABLE) && (g.None? ==> d.value.0 != GROUP)))
  }

  /** "topic:T[:group:G][:durable:C:N]" registers T with G, C and N exactly when the spelling is recoverable. */
  lemma SubscriptionRecoveredIff(t: seq<byte>, g: Option<seq<byte>>, d: Option<(seq<byte>, nat)>)
    requires t != [] && !Contains(t, Marker(GROUP)) && !Contains(t, Marker(DURABLE))
    requires g.Some? ==> COLON !in g.value
    requires d.Some? ==> COLON !in d.value.0 && d.value.1 < U64
    ensures ParseSubscriptionPayload(TOPIC_PREFIX + (t + (GroupPart(g) + DurablePart(d)))) == Parsed(Intended(t, g, d))
      <==> Recoverable(t, g, d)
  {
    hide Index, Marker, Contains, Decimal, TakeGroup, TakeDurable;
    var dp := DurablePart(d);
    var raw := t + (GroupPart(g) + dp);
    var payload := TOPIC_PREFIX + raw;
    assert payload[..6] == TOPIC_PREFIX && payload[6..] == raw;
    DurablePartColon(d);
    DurableKeepsGroup(TakeGroup(raw).1, TakeGroup(raw).0);
    if g.Some? {
      assert GroupPart(g) + dp == Marker(GROUP) + g.value + dp;
      GroupTaken(t, g.value, dp);
      if EndsWith(t, [COLON] + GROUP) && g.value == GROUP {
        assert t[..|t| - 6] + [COLON] + GROUP == t;
      }
    } else {
      assert [] + dp == dp;
      if d.Some? {
        NoGroupTaken(t, d.value.0, d.value.1);
      } else {
        assert t + dp == t;
        NotGrouped(t);
      }
    }
    if d.Some? {
      DurableTaken(t, if g.Some? then g.value else [], d.value.0, d.value.1);
    } else {
      assert t + dp == t;
      NotDurable(t, if g.Some? then g.value else []);
    }
  }

  lemma DurableKeepsGroup(raw: seq<byte>, group: seq<byte>)
    ensures TakeDurable(raw, group).group == group
  {
  }

  /** The topic "a:group" with group "g" is registered as another topic in another group. */
  lemma MisreadGroup()
    ensures var t, g := [0x61, COLON] + GROUP, [0x67];
      && !Recoverable(t, Some(g), None)
      && ParseSubscriptionPayload(TOPIC_PREFIX + (t + (GroupPart(Some(g)) + DurablePart(None)))) != Parsed(Intended(t, Some(g), None))
  {
    hide Index, Decimal, ParseSubscriptionPayload;
    var t := [0x61, COLON] + GROUP;
    assert t[1..] == [COLON] + GROUP;
    forall i | 0 <= i <= |t| ensures !At(t, Marker(GROUP), i) && !At(t, Marker(DURABLE), i) {
      assert t[0] != Marker(GROUP)[0];
    }
    SubscriptionRecoveredIff(t, Some([0x67]), None);
  }

  lemma DurablePartColon(d: Option<(seq<byte>, nat)>)
    ensures DurablePart(d) == [] || DurablePart(d)[0] == COLON
  {
  }
}
