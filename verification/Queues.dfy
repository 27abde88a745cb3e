/** Lazily acquired, pooled channels against four always-present bounded queues per subscriber. */
module Queues {
  import opened Bytes
  import opened Lists
  import opened Fifo

  /** A buffered channel: an object, shared with whoever has a pointer to it. */
  class Chan<T> {
    var items: seq<T>

    constructor ()
      ensures items == []
    {
      items := [];
    }
  }

  /** A priority level of a subscriber slot. */
  datatype Key = Key(slot: nat, level: nat)

  /** subQueues of every slot. A key outside `owned` is a nil channel pointer. */
  class QueueTable<T> {
    const queueSize: nat
    const policy: Policy
    var active: seq<bool>
    var owned: map<Key, Chan<T>>
    var pool: set<Chan<T>>

    /** No channel belongs to two queues or to a queue and the pool; pooled channels are empty. */
    ghost predicate Valid()
      reads this, owned.Values, pool
    {
      && queueSize >= 1
      && (forall k :: k in owned ==> k.slot < |active| && k.level < LEVELS)
      && (forall k, j :: k in owned && j in owned && k != j ==> owned[k] != owned[j])
      && (forall k :: k in owned ==> owned[k] !in pool && |owned[k].items| <= queueSize)
      && (forall c :: c in pool ==> c.items == [])
    }

    /** The queue a subscriber sees at a level, whether or not a channel stands behind it. */
    ghost function View(k: Key): seq<T>
      reads this, owned.Values
    {
      if k in owned then owned[k].items else []
    }

    constructor (size: nat, p: Policy)
      requires size >= 1
      ensures Valid() && queueSize == size && policy == p && |active| == 0
      ensures forall k :: View(k) == []
    {
      queueSize, policy := size, p;
      active, owned, pool := [], map[], {};
    }

    method Subscribe() returns (idx: nat)
      requires Valid()
      modifies this
      ensures Valid()
      ensures idx == |old(active)| && active == old(active) + [true]
      ensures forall k :: View(k) == old(View(k))
      ensures owned == old(owned)
    {
      idx := |active|;
      active := active + [true];
    }

    /** sync.Pool.Get: any pooled channel, or a new one. */
    method GetQueueFromPool() returns (c: Chan<T>)
      requires Valid()
      modifies this
      ensures Valid() && owned == old(owned) && active == old(active)
      ensures c.items == [] && c !in pool && c !in owned.Values
      ensures pool <= old(pool) && (c in old(pool) || fresh(c))
    {
      if * {
        if pool != {} {
          c :| c in pool;
          pool := pool - {c};
          return;
        }
      }
      c := new Chan();
    }

    /** returnQueueToPool: the messages left in the channel are released one by one, then it is pooled. */
    method ReturnQueueToPool(k: Key) returns (released: seq<T>)
      requires Valid() && k in owned
      modifies this, owned.Values
      ensures Valid() && active == old(active)
      ensures released == old(View(k)) && k !in owned
      ensures forall j :: View(j) == if j == k then [] else old(View(j))
      ensures forall j :: j != k ==> (j in owned <==> j in old(owned)) && (j in owned ==> owned[j] == old(owned[j]))
      ensures pool == old(pool) + {old(owned[k])}
    {
      var q := owned[k];
      released := [];
      while q.items != []
        invariant released + q.items == old(View(k))
        invariant forall j :: j in owned && j != k ==> owned[j].items == old(owned[j].items)
        invariant forall c :: c in pool ==> c.items == []
        modifies q
        decreases |q.items|
      {
        released := released + [q.items[0]];
        q.items := q.items[1..];
      }
      owned := owned - {k};
      pool := pool + {q};
    }

    /** enqueueToSubscriber, as one step: an absent channel is taken from the pool first. */
    method Enqueue(idx: nat, m: T, priority: nat) returns (taken: bool, dropped: Option<T>, disconnect: bool)
      requires Valid()
      modifies this, owned.Values, pool
      ensures Valid() && active == old(active)
      ensures taken <==> idx < |active| && active[idx]
      ensures !taken ==> forall k :: View(k) == old(View(k))
      ensures taken ==>
        var k := Key(idx, if priority > 3 then 2 else priority);
        var r := Push(old(View(k)), m, queueSize, policy);
        && View(k) == r.queue && dropped == r.dropped && disconnect == r.disconnect
        && forall j :: j != k ==> View(j) == old(View(j))
    {
      dropped, disconnect := None, false;
      var p := if priority > 3 then 2 else priority;
      if idx >= |active| || !active[idx] {
        return false, None, false;
      }
      taken := true;
      var k := Key(idx, p);
      if k !in owned {
        var c := GetQueueFromPool();
        owned := owned[k := c];
      }
      assert Valid();
      assert forall j :: View(j) == old(View(j));
      dropped, disconnect := Send(k, m);
    }

    /** The channel send and handleOverflow. */
    method Send(k: Key, m: T) returns (dropped: Option<T>, disconnect: bool)
      requires Valid() && k in owned
      modifies owned[k]
      ensures Valid()
      ensures var r := Push(old(View(k)), m, queueSize, policy);
        View(k) == r.queue && dropped == r.dropped && disconnect == r.disconnect
      ensures forall j :: j != k ==> View(j) == old(View(j))
    {
      dropped, disconnect := None, false;
      var q := owned[k];
      if |q.items| < queueSize {
        q.items := q.items + [m];
      } else {
        match policy {
          case DropOldest =>
            dropped := Some(q.items[0]);
            q.items := q.items[1..];
            q.items := q.items + [m];
          case DropNewest =>
            dropped := Some(m);
          case Disconnect =>
            dropped := Some(m);
            disconnect := true;
        }
      }
    }

    /** fetchNextMessage: the levels in order; a queue that runs empty gives its channel back. */
    method Fetch(idx: nat) returns (r: Option<(T, nat)>)
      requires Valid()
      modifies this, owned.Values
      ensures Valid() && active == old(active)
      ensures r.None? ==> forall p :: 0 <= p < LEVELS ==> old(View(Key(idx, p))) == []
      ensures r.None? ==> forall k :: View(k) == old(View(k))
      ensures r.Some? ==>
        var (m, p) := r.value;
        && p < LEVELS && old(View(Key(idx, p))) == [m] + View(Key(idx, p))
        && (forall higher :: 0 <= higher < p ==> old(View(Key(idx, higher))) == [])
        && (forall k :: k != Key(idx, p) ==> View(k) == old(View(k)))
    {
      for p := 0 to LEVELS
        invariant Valid() && active == old(active) && owned == old(owned) && pool == old(pool)
        invariant forall k :: View(k) == old(View(k))
        invariant forall higher :: 0 <= higher < p ==> old(View(Key(idx, higher))) == []
      {
        var k := Key(idx, p);
        if k in owned && owned[k].items != [] {
          var q := owned[k];
          var m := q.items[0];
          q.items := q.items[1..];
          assert Valid();
          r := Some((m, p));
          assert forall j :: j != k ==> View(j) == old(View(j));
          if |q.items| == 0 {
            var none := ReturnQueueToPool(k);
          }
          return;
        }
      }
      r := None;
    }

    /** drainSubscriberQueues: every level of the slot, in order. */
    method Drain(idx: nat) returns (released: seq<T>)
      requires Valid()
      modifies this, owned.Values
      ensures Valid() && active == old(active)
      ensures forall k: Key :: View(k) == if k.slot == idx && k.level < LEVELS then [] else old(View(k))
      ensures released == Flat(old(seq(LEVELS, p requires 0 <= p reads this, owned.Values => View(Key(idx, p)))))
      ensures forall k :: k in owned ==> k.slot != idx
    {
      ghost var was := seq(LEVELS, p requires 0 <= p reads this, owned.Values => View(Key(idx, p)));
      released := [];
      for p := 0 to LEVELS
        invariant Valid() && active == old(active)
        invariant owned.Values <= old(owned.Values)
        invariant forall k: Key :: View(k) == if k.slot == idx && k.level < p then [] else old(View(k))
        invariant forall k :: k in owned ==> k.slot != idx || k.level >= p
        invariant released == Flat(was[..p])
      {
        var more := DrainLevel(idx, p);
        assert was[..p + 1][..p] == was[..p] && more == was[p];
        released := released + more;
      }
      assert was[..LEVELS] == was;
    }

    method DrainLevel(idx: nat, p: nat) returns (released: seq<T>)
      requires Valid()
      modifies this, owned.Values
      ensures Valid() && active == old(active)
      ensures released == old(View(Key(idx, p))) && Key(idx, p) !in owned
      ensures forall k :: View(k) == if k == Key(idx, p) then [] else old(View(k))
      ensures owned.Keys <= old(owned.Keys) && owned.Values <= old(owned.Values)
    {
      released := [];
      if Key(idx, p) in owned {
        released := ReturnQueueToPool(Key(idx, p));
      }
    }
  }
}
