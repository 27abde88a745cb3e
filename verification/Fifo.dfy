/** One bounded queue under the three backpressure policies. */
module Fifo {
  import opened Bytes

  /** The priority levels, a queue each. */
  const LEVELS: nat := 4

  /** A level that is none is the default one. */
  function KnownLevel(level: nat): (p: nat)
    ensures p == if level < 4 then level else 2
  {
    if level >= LEVELS then 2 else level
  }

  datatype Policy = DropOldest | DropNewest | Disconnect

  /** What an enqueue leaves behind: the queue, the message given up if any, and whether the subscriber goes. */
  datatype Pushed<T> = Pushed(queue: seq<T>, dropped: Option<T>, disconnect: bool)

  /** enqueueToSubscriber on one queue: a send when there is room, handleOverflow when there is not. */
  function Push<T>(q: seq<T>, m: T, cap: nat, policy: Policy): Pushed<T>
  {
    if |q| < cap then Pushed(q + [m], None, false)
    else
      match policy
      case DropOldest => if q == [] then Pushed(q, Some(m), false) else Pushed(q[1..] + [m], Some(q[0]), false)
      case DropNewest => Pushed(q, Some(m), false)
      case Disconnect => Pushed(q, Some(m), true)
  }

  /** Nothing is lost or invented: what was there and what came in is what is there and what was given up. */
  lemma PushConserves<T>(q: seq<T>, m: T, cap: nat, policy: Policy)
    ensures var r := Push(q, m, cap, policy);
      multiset(r.queue) + (if r.dropped.Some? then multiset{r.dropped.value} else multiset{}) == multiset(q) + multiset{m}
    ensures var r := Push(q, m, cap, policy);
      r.dropped.Some? ==> r.dropped.value == m || r.dropped.value in q
  {
    if q != [] {
      assert q == [q[0]] + q[1..];
    }
  }

  function PushAll<T>(q: seq<T>, ms: seq<T>, cap: nat, policy: Policy): seq<T>
    decreases ms
  {
    if ms == [] then q else PushAll(Push(q, ms[0], cap, policy).queue, ms[1..], cap, policy)
  }

  function Last<T>(s: seq<T>, n: nat): seq<T> { if |s| <= n then s else s[|s| - n..] }

  function First<T>(s: seq<T>, n: nat): seq<T> { if |s| <= n then s else s[..n] }

  /** drop_oldest keeps the newest messages, as many as fit. */
  lemma {:induction false} DropOldestKeepsNewest<T>(q: seq<T>, ms: seq<T>, cap: nat)
    requires 1 <= cap && |q| <= cap
    ensures PushAll(q, ms, cap, DropOldest) == Last(q + ms, cap)
    decreases ms
  {
    hide Last;
    if ms == [] {
      assert q + ms == q;
      LastAll(q, cap);
    } else {
      var q' := Push(q, ms[0], cap, DropOldest).queue;
      DropOldestKeepsNewest(q', ms[1..], cap);
      if |q| < cap {
        assert q + ms == q' + ms[1..];
      } else {
        OldestGone(q, ms);
        LastOfTail(q + ms, cap);
      }
    }
  }

  lemma LastAll<T>(s: seq<T>, cap: nat)
    requires |s| <= cap
    ensures Last(s, cap) == s
  {
  }

  lemma OldestGone<T>(q: seq<T>, ms: seq<T>)
    requires q != [] && ms != []
    ensures q[1..] + [ms[0]] + ms[1..] == (q + ms)[1..]
  {
    assert [ms[0]] + ms[1..] == ms;
  }

  lemma LastOfTail<T>(s: seq<T>, cap: nat)
    requires |s| > cap
    ensures Last(s[1..], cap) == Last(s, cap)
  {
  }

  /** drop_newest keeps the earliest, and so does disconnect. */
  lemma {:induction false} DropNewestKeepsEarliest<T>(q: seq<T>, ms: seq<T>, cap: nat, policy: Policy)
    requires |q| <= cap && policy != DropOldest
    ensures PushAll(q, ms, cap, policy) == First(q + ms, cap)
    decreases ms
  {
    if ms == [] {
      assert q + ms == q;
    } else {
      var q' := Push(q, ms[0], cap, policy).queue;
      DropNewestKeepsEarliest(q', ms[1..], cap, policy);
      if |q| < cap {
        assert q + ms == q' + ms[1..];
      } else {
        assert First(q' + ms[1..], cap) == q == First(q + ms, cap);
      }
    }
  }
}
