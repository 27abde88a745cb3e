/** MQTT topic filters: the two-index matcher against level-by-level matching. */
module Wildcard {
  import opened Bytes

  const SLASH: byte := 0x2F
  const PLUS: byte := 0x2B
  const HASH: byte := 0x23

  predicate IsWildcardTopic(topic: seq<byte>) { PLUS in topic || HASH in topic }

  // ---- The reference: filters and topics as lists of levels ---------------------------------------

  /** The levels between the slashes; there is always at least one. */
  function Levels(s: seq<byte>): (r: seq<seq<byte>>)
    ensures r != []
  {
    if s == [] then [[]]
    else
      var r := Levels(s[1..]);
      if s[0] == SLASH then [[]] + r else [[s[0]] + r[0]] + r[1..]
  }

  predicate Literal(level: seq<byte>) { !IsWildcardTopic(level) }

  /** Section 4.7.1 of MQTT 3.1.1: a wildcard fills its level, and '#' is the last level. */
  predicate WellFormedLevels(ls: seq<seq<byte>>)
  {
    forall i :: 0 <= i < |ls| ==> Literal(ls[i]) || ls[i] == [PLUS] || (ls[i] == [HASH] && i == |ls| - 1)
  }

  predicate WellFormed(filter: seq<byte>) { WellFormedLevels(Levels(filter)) }

  /** '#' stands for all remaining levels, none included, so it also matches its parent level; '+' stands for
      one level, except an empty last one. */
  predicate LevelMatch(ps: seq<seq<byte>>, ts: seq<seq<byte>>)
  {
    if ps == [] then ts == []
    else if ps[0] == [HASH] then true
    else
      && ts != []
      && (if ps[0] == [PLUS] then ts != [[]] else ps[0] == ts[0])
      && LevelMatch(ps[1..], ts[1..])
  }

  // ---- The matcher --------------------------------------------------------------------------------

  function SkipLevel(t: seq<byte>): (r: seq<byte>)
    ensures |r| <= |t| && (r == [] || r[0] == SLASH)
  {
    if t == [] || t[0] == SLASH then t else SkipLevel(t[1..])
  }

  /** The loop's verdict from any pair of positions. */
  predicate MatchFrom(p: seq<byte>, t: seq<byte>)
  {
    if p == [] then t == []
    else if p[0] == HASH then true
    else if p[0] == PLUS then t != [] && MatchFrom(p[1..], SkipLevel(t))
    else if t == [] then p[0] == SLASH && |p| > 1 && p[1] == HASH
    else p[0] == t[0] && MatchFrom(p[1..], t[1..])
  }

  predicate Matches(pattern: seq<byte>, topic: seq<byte>)
  {
    pattern == topic || MatchFrom(pattern, topic)
  }

  /** MatchWildcard: pIdx and tIdx advance together; '+' runs tIdx to the next slash. */
  method MatchWildcard(pattern: seq<byte>, topic: seq<byte>) returns (r: bool)
    ensures r == Matches(pattern, topic)
  {
    if pattern == topic {
      return true;
    }
    var pLen, tLen := |pattern|, |topic|;
    var pIdx, tIdx := 0, 0;
    assert pattern[0..] == pattern && topic[0..] == topic;
    while pIdx < pLen
      invariant 0 <= pIdx <= pLen && 0 <= tIdx <= tLen
      invariant MatchFrom(pattern[pIdx..], topic[tIdx..]) == MatchFrom(pattern, topic)
    {
      assert pattern[pIdx..][1..] == pattern[pIdx + 1..];
      if pattern[pIdx] == HASH {
        return true;
      }
      if pattern[pIdx] == PLUS {
        if tIdx >= tLen {
          return false;
        }
        ghost var rest := SkipLevel(topic[tIdx..]);
        while tIdx < tLen && topic[tIdx] != SLASH
          invariant 0 <= tIdx <= tLen
          invariant SkipLevel(topic[tIdx..]) == rest
        {
          assert topic[tIdx..][1..] == topic[tIdx + 1..];
          tIdx := tIdx + 1;
        }
        assert rest == topic[tIdx..];
        pIdx := pIdx + 1;
        continue;
      }
      if tIdx >= tLen {
        if pattern[pIdx] == SLASH && pIdx + 1 < pLen && pattern[pIdx + 1] == HASH {
          return true;
        }
        return false;
      }
      if pattern[pIdx] != topic[tIdx] {
        return false;
      }
      assert topic[tIdx..][1..] == topic[tIdx + 1..];
      pIdx := pIdx + 1;
      tIdx := tIdx + 1;
    }
    return pIdx == pLen && tIdx == tLen;
  }

  // ---- The matcher is level-by-level matching -------------------------------------------------------

  lemma WellFormedTail(s: seq<byte>)
    requires s != [] && WellFormed(s)
    ensures WellFormed(s[1..])
  {
    var ls, r := Levels(s), Levels(s[1..]);
    assert |ls| == |r| + if s[0] == SLASH then 1 else 0;
    forall i | 0 <= i < |r|
      ensures Literal(r[i]) || r[i] == [PLUS] || (r[i] == [HASH] && i == |r| - 1)
    {
      if s[0] == SLASH {
        assert ls[i + 1] == r[i];
      } else if i > 0 {
        assert ls[i] == r[i];
      } else {
        assert ls[0] == [s[0]] + r[0];
        assert forall b :: b in r[0] ==> b in ls[0];
        if |r[0]| > 0 {
          assert Literal(ls[0]);
        }
      }
    }
  }

  /** A wildcard character of a well-formed filter is its whole level. */
  lemma WildcardFillsLevel(s: seq<byte>)
    requires s != [] && WellFormed(s) && (s[0] == PLUS || s[0] == HASH)
    ensures Levels(s)[0] == [s[0]]
    ensures s == [s[0]] || s[1] == SLASH
    ensures s[0] == HASH ==> s == [HASH]
  {
    var ls, r := Levels(s), Levels(s[1..]);
    assert ls[0] == [s[0]] + r[0];
    assert s[0] in ls[0];
    assert r[0] == [];
    if |s| > 1 {
      assert s[1..][0] == s[1];
    }
  }

  lemma {:induction false} SkipLevelLevels(t: seq<byte>)
    ensures var d := SkipLevel(t);
      if d == [] then |Levels(t)| == 1 else Levels(t)[1..] == Levels(d[1..])
    ensures Levels(t) == [[]] <==> t == []
  {
    if t != [] && t[0] != SLASH {
      SkipLevelLevels(t[1..]);
    }
  }

  lemma HashStarts(s: seq<byte>)
    requires WellFormed(s)
    ensures LevelMatch(Levels(s), []) <==> s != [] && s[0] == HASH
  {
    if s != [] && s[0] == HASH {
      WildcardFillsLevel(s);
    }
    FirstLevel(s);
  }

  lemma {:induction false} FirstLevel(s: seq<byte>)
    ensures s == [] || s[0] == SLASH ==> Levels(s)[0] == []
    ensures s != [] && s[0] != SLASH ==> Levels(s)[0] != [] && Levels(s)[0][0] == s[0]
  {
  }

  lemma {:induction false} MatchFromIsLevelMatch(p: seq<byte>, t: seq<byte>)
    requires WellFormed(p)
    ensures MatchFrom(p, t) <==> LevelMatch(Levels(p), Levels(t))
    decreases |p|
  {
    if p == [] {
      SkipLevelLevels(t);
      FirstLevel(t);
      assert LevelMatch(Levels(p)[1..], Levels(t)[1..]) == (Levels(t)[1..] == []);
    } else {
      WellFormedTail(p);
      FirstLevel(p);
      FirstLevel(t);
      if p[0] == HASH {
        WildcardFillsLevel(p);
      } else if p[0] == PLUS {
        PlusStep(p, t);
      } else if p[0] == SLASH {
        SlashStep(p, t);
      } else if t != [] && t[0] == p[0] {
        LiteralStep(p, t);
        MatchFromIsLevelMatch(p[1..], t[1..]);
      } else {
        assert p[0] in Levels(p)[0];
      }
    }
  }

  lemma {:induction false} PlusStep(p: seq<byte>, t: seq<byte>)
    requires p != [] && p[0] == PLUS && WellFormed(p)
    ensures MatchFrom(p, t) <==> LevelMatch(Levels(p), Levels(t))
    decreases |p|, 0
  {
    WildcardFillsLevel(p);
    SkipLevelLevels(t);
    WellFormedTail(p);
    if |p| > 1 {
      var q := p[1..];
      WellFormedTail(q);
      assert q[0] == p[1] == SLASH;
      assert Levels(p)[1..] == Levels(q)[1..] == Levels(q[1..]);
      var d := SkipLevel(t);
      if d == [] {
        assert Levels(t)[1..] == [];
        HashStarts(q[1..]);
      } else {
        MatchFromIsLevelMatch(q[1..], d[1..]);
      }
    } else {
      assert p[1..] == [] && Levels(p)[1..] == [];
    }
  }

  lemma {:induction false} SlashStep(p: seq<byte>, t: seq<byte>)
    requires p != [] && p[0] == SLASH && WellFormed(p)
    ensures MatchFrom(p, t) <==> LevelMatch(Levels(p), Levels(t))
    decreases |p|, 0
  {
    WellFormedTail(p);
    FirstLevel(t);
    assert Levels(p)[1..] == Levels(p[1..]);
    if t == [] {
      assert Levels(t)[1..] == [];
      HashStarts(p[1..]);
    } else if t[0] == SLASH {
      assert Levels(t)[1..] == Levels(t[1..]);
      MatchFromIsLevelMatch(p[1..], t[1..]);
    }
  }

  lemma LiteralStep(p: seq<byte>, t: seq<byte>)
    requires WellFormed(p) && p != [] && t != [] && p[0] == t[0]
    requires p[0] != SLASH && p[0] != PLUS && p[0] != HASH
    ensures LevelMatch(Levels(p), Levels(t)) <==> LevelMatch(Levels(p[1..]), Levels(t[1..]))
  {
    var ps, ts, pr, tr := Levels(p), Levels(t), Levels(p[1..]), Levels(t[1..]);
    assert ps[0] == [p[0]] + pr[0] && ts[0] == [p[0]] + tr[0];
    assert ps[1..] == pr[1..] && ts[1..] == tr[1..];
    assert p[0] in ps[0];
    assert Literal(ps[0]) by {
      assert ps[0][0] == p[0];
    }
    assert forall b :: b in pr[0] ==> b in ps[0];
    if pr[0] != [] {
      assert pr[0][0] in ps[0];
    }
    assert ps[0] == ts[0] <==> pr[0] == tr[0] by {
      assert ps[0][1..] == pr[0] && ts[0][1..] == tr[0];
    }
  }

  lemma {:induction false} LevelMatchReflexive(ls: seq<seq<byte>>)
    ensures LevelMatch(ls, ls)
  {
    if ls != [] {
      LevelMatchReflexive(ls[1..]);
    }
  }

  /** For every well-formed filter and every topic, MatchWildcard decides level-by-level matching. */
  lemma MatchIsLevelwise(filter: seq<byte>, topic: seq<byte>)
    requires WellFormed(filter)
    ensures Matches(filter, topic) <==> LevelMatch(Levels(filter), Levels(topic))
  {
    MatchFromIsLevelMatch(filter, topic);
    LevelMatchReflexive(Levels(filter));
  }
}
