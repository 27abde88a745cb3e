/** Who holds which message, over every interleaving of publishers, subscriber writers and backfill workers. */
module Ownership {
  import opened Bytes
  import opened RefHeap
  import opened Fifo

  type RefId = nat

  datatype Target = Target(slot: nat, priority: nat)

  /** A publisher goroutine. It holds the message it is dispatching, once more between Retain and enqueue, and
      the batch parent while a batch is open. */
  datatype Publisher =
    | Idle
    | Publishing(m: RefId, targets: seq<Target>, retained: bool, batch: Option<RefId>)
    | Batching(parent: RefId)

  /** A subscriber slot and its writer: four queues, the message just fetched, the accumulator's refs, and the
      refs a flush has still to release. */
  datatype Slot = Slot(active: bool, queues: seq<seq<RefId>>, hand: Option<RefId>, acc: seq<RefId>, out: seq<RefId>)

  datatype Config = Config(queueSize: nat, policy: Policy)

  /** `kept` holds the references backfill never gives up; `batches` the refs in use as batch parents;
      `acquired` every buffer that was ever wrapped. */
  datatype World = World(heap: Heap<RefId>, pubs: seq<Publisher>, slots: seq<Slot>, kept: multiset<RefId>,
                         batches: set<RefId>, acquired: set<BufId>)

  // ---- Who holds what --------------------------------------------------------------------------------

  function Opt(o: Option<RefId>): multiset<RefId> { if o.None? then multiset{} else multiset{o.value} }

  function PubHeld(p: Publisher): multiset<RefId>
  {
    match p
    case Idle => multiset{}
    case Publishing(m, _, retained, batch) => multiset{m} + (if retained then multiset{m} else multiset{}) + Opt(batch)
    case Batching(parent) => multiset{parent}
  }

  function QueueHeld(q: seq<RefId>): multiset<RefId> { multiset(q) }

  function SlotHeld(s: Slot): multiset<RefId>
  {
    Total(s.queues, QueueHeld) + Opt(s.hand) + multiset(s.acc) + multiset(s.out)
  }

  function Total<T>(xs: seq<T>, f: T -> multiset<RefId>): multiset<RefId>
  {
    if xs == [] then multiset{} else f(xs[0]) + Total(xs[1..], f)
  }

  function PubsHeld(w: World): multiset<RefId> { Total(w.pubs, PubHeld) }

  function SlotsHeld(w: World): multiset<RefId> { Total(w.slots, SlotHeld) }

  function Held(w: World): multiset<RefId> { PubsHeld(w) + SlotsHeld(w) + w.kept }

  lemma {:induction false} TotalUpdate<T>(xs: seq<T>, i: nat, x: T, f: T -> multiset<RefId>)
    requires i < |xs|
    ensures Total(xs[i := x], f) + f(xs[i]) == Total(xs, f) + f(x)
    ensures f(xs[i]) <= Total(xs, f)
  {
    if i == 0 {
      assert xs[i := x][1..] == xs[1..];
    } else {
      TotalUpdate(xs[1..], i - 1, x, f);
      assert xs[i := x][1..] == xs[1..][i - 1 := x];
      assert xs[1..][i - 1] == xs[i];
      var a, b := Total(xs[1..], f), Total(xs[1..][i - 1 := x], f);
      assert f(xs[0]) + b + f(xs[i]) == f(xs[0]) + (b + f(xs[i])) == f(xs[0]) + (a + f(x)) == f(xs[0]) + a + f(x);
    }
  }

  lemma TotalSame<T>(xs: seq<T>, i: nat, x: T, f: T -> multiset<RefId>)
    requires i < |xs| && f(x) == f(xs[i])
    ensures Total(xs[i := x], f) == Total(xs, f)
  {
    TotalUpdate(xs, i, x, f);
    var a, b, e := Total(xs[i := x], f), Total(xs, f), f(x);
    forall r ensures a[r] == b[r] {
      assert (a + e)[r] == (b + e)[r];
    }
  }

  lemma {:induction false} TotalSnoc<T>(xs: seq<T>, x: T, f: T -> multiset<RefId>)
    ensures Total(xs + [x], f) == Total(xs, f) + f(x)
  {
    if xs == [] {
      assert xs + [x] == [x];
      assert Total([x], f) == f(x) + Total([], f);
    } else {
      assert (xs + [x])[1..] == xs[1..] + [x];
      TotalSnoc(xs[1..], x, f);
    }
  }

  // ---- Steps -----------------------------------------------------------------------------------------

  datatype Label =
    | StartPublish(p: nat, r: RefId, buf: BufId, targets: seq<Target>)
    | StartBatch(p: nat, r: RefId, buf: BufId)
    | StartChild(p: nat, r: RefId, targets: seq<Target>)
    | RetainNext(p: nat)
    | EnqueueNext(p: nat)
    | FinishMessage(p: nat)
    | FinishBatch(p: nat)
    | Backfill(r: RefId, buf: BufId, slot: nat)
    | Fetch(slot: nat)
    | Discard(slot: nat)
    | Append(slot: nat)
    | FlushBegin(slot: nat)
    | FlushRelease(slot: nat)
    | Drain(slot: nat, priority: nat)
    | Subscribe
    | Deactivate(slot: nat)

  /** r.mu.RLock is held while a message is dispatched; a plain publish lets go of it before its last Release. */
  predicate Dispatching(p: Publisher)
  {
    p.Publishing? && (p.targets != [] || p.retained || p.batch.Some?)
  }

  predicate IsActive(slots: seq<Slot>, slot: nat) { slot < |slots| && slots[slot].active }

  predicate TargetsActive(slots: seq<Slot>, ts: seq<Target>)
  {
    forall i :: 0 <= i < |ts| ==> IsActive(slots, ts[i].slot)
  }

  predicate NoDispatch(w: World) { forall i :: 0 <= i < |w.pubs| ==> !Dispatching(w.pubs[i]) }

  /** A new MessageRef comes from the pool or the allocator: it is nobody's. */
  predicate FreshRef(w: World, r: RefId) { r !in w.heap.cells }

  /** When the code can take the step. */
  predicate Enabled(w: World, l: Label)
  {
    match l
    case StartPublish(p, r, buf, targets) =>
      p < |w.pubs| && w.pubs[p].Idle? && FreshRef(w, r) && buf !in w.acquired && TargetsActive(w.slots, targets)
    case StartBatch(p, r, buf) => p < |w.pubs| && w.pubs[p].Idle? && FreshRef(w, r) && buf !in w.acquired
    case StartChild(p, r, targets) => p < |w.pubs| && w.pubs[p].Batching? && FreshRef(w, r) && TargetsActive(w.slots, targets)
    case RetainNext(p) => p < |w.pubs| && w.pubs[p].Publishing? && !w.pubs[p].retained && w.pubs[p].targets != []
    case EnqueueNext(p) => p < |w.pubs| && w.pubs[p].Publishing? && w.pubs[p].retained && w.pubs[p].targets != []
    case FinishMessage(p) => p < |w.pubs| && w.pubs[p].Publishing? && !w.pubs[p].retained && w.pubs[p].targets == []
    case FinishBatch(p) => p < |w.pubs| && w.pubs[p].Batching?
    case Backfill(r, buf, slot) => FreshRef(w, r) && buf !in w.acquired
    case Fetch(s) => s < |w.slots| && w.slots[s].hand.None? && Best(w.slots[s].queues, 0) < |w.slots[s].queues|
    case Discard(s) => s < |w.slots| && w.slots[s].hand.Some?
    case Append(s) => s < |w.slots| && w.slots[s].hand.Some?
    case FlushBegin(s) => s < |w.slots| && w.slots[s].out == []
    case FlushRelease(s) => s < |w.slots| && w.slots[s].out != []
    case Drain(s, p) => s < |w.slots| && p < |w.slots[s].queues| && w.slots[s].queues[p] != []
    case Subscribe => NoDispatch(w)
    case Deactivate(s) => s < |w.slots| && NoDispatch(w)
  }

  /** The highest priority with a message, from level p on; the number of levels when there is none. */
  function Best(queues: seq<seq<RefId>>, p: nat): (r: nat)
    requires p <= |queues|
    ensures p <= r <= |queues|
    ensures r < |queues| ==> queues[r] != []
    ensures forall k :: p <= k < r ==> queues[k] == []
    decreases |queues| - p
  {
    if p == |queues| || queues[p] != [] then p else Best(queues, p + 1)
  }

  function SetPub(w: World, p: nat, pub: Publisher): World
    requires p < |w.pubs|
  {
    w.(pubs := w.pubs[p := pub])
  }

  function SetSlot(w: World, s: nat, slot: Slot): World
    requires s < |w.slots|
  {
    w.(slots := w.slots[s := slot])
  }

  /** Release, on a ref that is live. */
  function Give(w: World, r: RefId): World
  {
    if r in w.heap.cells then w.(heap := Release(w.heap, r)) else w
  }

  /** enqueueToSubscriber: an inactive slot swallows the reference, a full queue gives one up. */
  function EnqueueTo(c: Config, w: World, m: RefId, slot: nat, priority: nat): World
  {
    if !IsActive(w.slots, slot) || KnownLevel(priority) >= |w.slots[slot].queues| then w.(kept := w.kept + multiset{m})
    else
      var s, p := w.slots[slot], KnownLevel(priority);
      var r := Push(s.queues[p], m, c.queueSize, c.policy);
      var w' := SetSlot(w, slot, s.(queues := s.queues[p := r.queue]));
      if r.dropped.Some? then Give(w', r.dropped.value) else w'
  }

  function Step(c: Config, w: World, l: Label): World
    requires Enabled(w, l)
  {
    match l
    case StartPublish(p, r, buf, targets) =>
      SetPub(w, p, Publishing(r, targets, false, None))
        .(heap := Acquire(w.heap, r, buf), batches := w.batches - {r}, acquired := w.acquired + {buf})
    case StartBatch(p, r, buf) =>
      SetPub(w, p, Batching(r))
        .(heap := Acquire(w.heap, r, buf), batches := w.batches + {r}, acquired := w.acquired + {buf})
    case StartChild(p, r, targets) =>
      var parent := w.pubs[p].parent;
      if parent !in w.heap.cells then w
      else
        SetPub(w, p, Publishing(r, targets, false, Some(parent)))
          .(heap := AcquireChild(w.heap, r, parent), batches := w.batches - {r})
    case RetainNext(p) =>
      if w.pubs[p].m !in w.heap.cells then w
      else SetPub(w, p, w.pubs[p].(retained := true)).(heap := Retain(w.heap, w.pubs[p].m))
    case EnqueueNext(p) =>
      var pub := w.pubs[p];
      var w' := SetPub(w, p, pub.(retained := false, targets := pub.targets[1..]));
      EnqueueTo(c, w', pub.m, pub.targets[0].slot, pub.targets[0].priority)
    case FinishMessage(p) =>
      var pub := w.pubs[p];
      Give(SetPub(w, p, if pub.batch.None? then Idle else Batching(pub.batch.value)), pub.m)
    case FinishBatch(p) => Give(SetPub(w, p, Idle), w.pubs[p].parent)
    case Backfill(r, buf, slot) =>
      var h := Retain(Acquire(w.heap, r, buf), r);
      EnqueueTo(c, w.(heap := h, kept := w.kept + multiset{r}, batches := w.batches - {r}, acquired := w.acquired + {buf}),
                r, slot, 2)
    case Fetch(s) =>
      var slot := w.slots[s];
      var p := Best(slot.queues, 0);
      SetSlot(w, s, slot.(queues := slot.queues[p := slot.queues[p][1..]], hand := Some(slot.queues[p][0])))
    case Discard(s) => Give(SetSlot(w, s, w.slots[s].(hand := None)), w.slots[s].hand.value)
    case Append(s) => SetSlot(w, s, w.slots[s].(hand := None, acc := w.slots[s].acc + [w.slots[s].hand.value]))
    case FlushBegin(s) => SetSlot(w, s, w.slots[s].(acc := [], out := w.slots[s].acc))
    case FlushRelease(s) => Give(SetSlot(w, s, w.slots[s].(out := w.slots[s].out[1..])), w.slots[s].out[0])
    case Drain(s, p) =>
      var slot := w.slots[s];
      Give(SetSlot(w, s, slot.(queues := slot.queues[p := slot.queues[p][1..]])), slot.queues[p][0])
    case Subscribe => w.(slots := w.slots + [Slot(true, [[], [], [], []], None, [], [])])
    case Deactivate(s) => SetSlot(w, s, w.slots[s].(active := false))
  }

  // ---- The invariant -----------------------------------------------------------------------------------

  /** Only batch parents are parents, and a batch parent has none itself. */
  ghost predicate ParentsApart(cells: map<RefId, Cell<RefId>>, batches: set<RefId>)
  {
    && (forall r :: r in cells && cells[r].parent.Some? ==> cells[r].parent.value in batches)
    && (forall r :: r in batches && r in cells ==> cells[r].parent.None?)
  }

  /** Only a publisher holds a batch parent, at most once. */
  ghost predicate ParentsPrivate(batches: set<RefId>, pubs: multiset<RefId>, others: multiset<RefId>)
  {
    forall r :: r in batches ==> others[r] == 0 && pubs[r] <= 1
  }

  ghost predicate PubShape(batches: set<RefId>, slots: seq<Slot>, p: Publisher)
  {
    match p
    case Idle => true
    case Publishing(m, targets, _, batch) =>
      m !in batches && (batch.Some? ==> batch.value in batches) && TargetsActive(slots, targets)
    case Batching(parent) => parent in batches
  }

  ghost predicate PubShapes(batches: set<RefId>, slots: seq<Slot>, pubs: seq<Publisher>)
  {
    forall i :: 0 <= i < |pubs| ==> PubShape(batches, slots, pubs[i])
  }

  ghost predicate BatchesApart(w: World)
  {
    && ParentsApart(w.heap.cells, w.batches)
    && ParentsPrivate(w.batches, PubsHeld(w), SlotsHeld(w) + w.kept)
    && PubShapes(w.batches, w.slots, w.pubs)
  }

  ghost predicate FourQueues(w: World)
  {
    forall i :: 0 <= i < |w.slots| ==> |w.slots[i].queues| == 4
  }

  /** Counts exact for what is held, and every buffer owned once or handed back once. */
  ghost predicate Sound(h: Heap<RefId>, held: multiset<RefId>, acquired: set<BufId>)
  {
    Balanced(h.cells, held) && BuffersOnce(h) && Known(h) == acquired
  }

  /** The invariant, with `extra` references in somebody's hands between two halves of a step. */
  ghost predicate InvWith(w: World, extra: multiset<RefId>)
  {
    Sound(w.heap, Held(w) + extra, w.acquired) && BatchesApart(w) && FourQueues(w)
  }

  ghost predicate Inv(w: World)
  {
    Sound(w.heap, Held(w), w.acquired) && BatchesApart(w) && FourQueues(w)
  }

  lemma NothingExtra(w: World)
    ensures InvWith(w, multiset{}) <==> Inv(w)
  {
    assert Held(w) + multiset{} == Held(w);
  }

  ghost predicate Initial(w: World)
  {
    w.heap == Heap(map[], []) && w.slots == [] && w.kept == multiset{} && w.batches == {} && w.acquired == {}
    && forall i :: 0 <= i < |w.pubs| ==> w.pubs[i] == Idle
  }

  lemma {:induction false} IdleHoldsNothing(pubs: seq<Publisher>)
    requires forall i :: 0 <= i < |pubs| ==> pubs[i] == Idle
    ensures Total(pubs, PubHeld) == multiset{}
  {
    if pubs != [] {
      IdleHoldsNothing(pubs[1..]);
    }
  }

  lemma InitialInv(w: World)
    requires Initial(w)
    ensures Inv(w)
  {
    IdleHoldsNothing(w.pubs);
  }

  // ---- Moving references about -------------------------------------------------------------------------

  lemma Cancel(x: multiset<RefId>, y: multiset<RefId>, a: multiset<RefId>, b: multiset<RefId>, e: multiset<RefId>)
    requires x + a == y + b && a == b + e
    ensures x + e == y
  {
    forall r ensures (x + e)[r] == y[r] {
      assert (x + a)[r] == (y + b)[r];
    }
  }

  /** Putting `gone` more references out of a slot than into it. */
  lemma MoveSlot(w: World, s: nat, slot: Slot, gone: multiset<RefId>)
    requires s < |w.slots| && SlotHeld(w.slots[s]) == SlotHeld(slot) + gone
    ensures Held(SetSlot(w, s, slot)) + gone == Held(w)
    ensures SlotsHeld(SetSlot(w, s, slot)) <= SlotsHeld(w)
    ensures gone <= SlotsHeld(w)
  {
    hide SlotHeld;
    TotalUpdate(w.slots, s, slot, SlotHeld);
    var w' := SetSlot(w, s, slot);
    Cancel(SlotsHeld(w'), SlotsHeld(w), SlotHeld(w.slots[s]), SlotHeld(slot), gone);
    assert Held(w') + gone == PubsHeld(w) + (SlotsHeld(w') + gone) + w.kept;
  }

  lemma MovePub(w: World, p: nat, pub: Publisher, gone: multiset<RefId>)
    requires p < |w.pubs| && PubHeld(w.pubs[p]) == PubHeld(pub) + gone
    ensures Held(SetPub(w, p, pub)) + gone == Held(w)
    ensures PubsHeld(SetPub(w, p, pub)) <= PubsHeld(w)
  {
    hide PubHeld;
    TotalUpdate(w.pubs, p, pub, PubHeld);
    var w' := SetPub(w, p, pub);
    Cancel(PubsHeld(w'), PubsHeld(w), PubHeld(w.pubs[p]), PubHeld(pub), gone);
    assert Held(w') + gone == (PubsHeld(w') + gone) + SlotsHeld(w) + w.kept;
  }

  /** Taking `more` references into a publisher's hands. */
  lemma GrowPub(w: World, p: nat, pub: Publisher, more: multiset<RefId>)
    requires p < |w.pubs| && PubHeld(pub) == PubHeld(w.pubs[p]) + more
    ensures Held(SetPub(w, p, pub)) == Held(w) + more
    ensures PubsHeld(SetPub(w, p, pub)) == PubsHeld(w) + more
  {
    hide PubHeld;
    TotalUpdate(w.pubs, p, pub, PubHeld);
    var w' := SetPub(w, p, pub);
    Cancel(PubsHeld(w), PubsHeld(w'), PubHeld(pub), PubHeld(w.pubs[p]), more);
    assert Held(w') == (PubsHeld(w) + more) + SlotsHeld(w) + w.kept;
  }

  /** Changing one queue of a slot. */
  lemma QueueChange(s: Slot, p: nat, q: seq<RefId>)
    requires p < |s.queues|
    ensures SlotHeld(s.(queues := s.queues[p := q])) + multiset(s.queues[p]) == SlotHeld(s) + multiset(q)
  {
    TotalUpdate(s.queues, p, q, QueueHeld);
    var t, t' := Total(s.queues, QueueHeld), Total(s.queues[p := q], QueueHeld);
    var rest := Opt(s.hand) + multiset(s.acc) + multiset(s.out);
    assert t' + multiset(s.queues[p]) == t + multiset(q);
    assert SlotHeld(s.(queues := s.queues[p := q])) == t' + rest && SlotHeld(s) == t + rest;
    assert t' + rest + multiset(s.queues[p]) == (t' + multiset(s.queues[p])) + rest;
    assert t + rest + multiset(q) == (t + multiset(q)) + rest;
  }

  // ---- What keeps the batch parents apart ----------------------------------------------------------------

  lemma SetPubBatches(w: World, p: nat, pub: Publisher)
    requires BatchesApart(w) && p < |w.pubs|
    requires PubShape(w.batches, w.slots, pub) && PubsHeld(SetPub(w, p, pub)) <= PubsHeld(w)
    ensures BatchesApart(SetPub(w, p, pub))
  {
    hide Total, ParentsApart, PubShape;
  }

  /** Slots that stay active keep the publishers' targets active. */
  lemma SlotsShapes(batches: set<RefId>, slots: seq<Slot>, slots': seq<Slot>, pubs: seq<Publisher>)
    requires PubShapes(batches, slots, pubs)
    requires forall i :: 0 <= i < |slots| && slots[i].active ==> i < |slots'| && slots'[i].active
    ensures PubShapes(batches, slots', pubs)
  {
    forall i | 0 <= i < |pubs| ensures PubShape(batches, slots', pubs[i]) {
      assert PubShape(batches, slots, pubs[i]);
    }
  }

  lemma SetSlotBatches(w: World, s: nat, slot: Slot)
    requires BatchesApart(w) && s < |w.slots| && (w.slots[s].active ==> slot.active)
    requires forall r :: r in w.batches ==> SlotsHeld(SetSlot(w, s, slot))[r] == 0
    ensures BatchesApart(SetSlot(w, s, slot))
  {
    SlotsShapes(w.batches, w.slots, w.slots[s := slot], w.pubs);
    hide Total, ParentsApart, PubShapes;
  }

  lemma {:induction false} ReleaseKeepsParents(h: Heap<RefId>, r: RefId)
    requires r in h.cells
    ensures forall c :: c in Release(h, r).cells ==> c in h.cells && Release(h, r).cells[c].parent == h.cells[c].parent
    decreases |h.cells|
  {
    var c := h.cells[r];
    if c.count == 1 && c.parent.Some? {
      DropSmaller(h.cells, r);
      var h' := h.(cells := h.cells - {r});
      if c.parent.value in h'.cells {
        ReleaseKeepsParents(h', c.parent.value);
      }
    }
  }

  lemma SoundRelease(h: Heap<RefId>, held: multiset<RefId>, acquired: set<BufId>, r: RefId)
    requires Sound(h, held + multiset{r}, acquired)
    ensures r in h.cells && Sound(Release(h, r), held, acquired)
  {
    assert r in held + multiset{r};
    ReleaseBalanced(h, held + multiset{r}, r);
    ReleaseOnce(h, held + multiset{r}, r);
    assert held + multiset{r} - multiset{r} == held;
  }

  /** Giving up the extra reference. */
  lemma GiveInv(w: World, r: RefId)
    requires InvWith(w, multiset{r})
    ensures Inv(Give(w, r))
  {
    hide Sound, Total;
    var w' := Give(w, r);
    assert Held(w') == Held(w);
    SoundRelease(w.heap, Held(w), w.acquired, r);
    ReleaseKeepsParents(w.heap, r);
    hide PubShapes;
  }

  // ---- Publisher steps -----------------------------------------------------------------------------------

  lemma PubHoldsLive(w: World, p: nat)
    requires Inv(w) && p < |w.pubs|
    ensures forall r :: r in PubHeld(w.pubs[p]) ==> r in w.heap.cells && r in Held(w)
  {
    hide PubHeld;
    TotalUpdate(w.pubs, p, w.pubs[p], PubHeld);
    forall r | r in PubHeld(w.pubs[p]) ensures r in w.heap.cells && r in Held(w) {
      assert r in PubsHeld(w);
      assert r in Held(w);
    }
  }

  lemma SoundAcquire(h: Heap<RefId>, held: multiset<RefId>, acquired: set<BufId>, r: RefId, buf: BufId)
    requires Sound(h, held, acquired) && r !in h.cells && buf !in acquired
    ensures Sound(Acquire(h, r, buf), held + multiset{r}, acquired + {buf})
    ensures r !in held
  {
    AcquireBalanced(h, held, r, buf);
    AcquireOnce(h, r, buf);
  }

  lemma SoundRetain(h: Heap<RefId>, held: multiset<RefId>, acquired: set<BufId>, r: RefId)
    requires Sound(h, held, acquired) && r in h.cells
    ensures Sound(Retain(h, r), held + multiset{r}, acquired)
  {
    RetainBalanced(h, held, r);
    SameBuffers(h, Retain(h, r));
  }

  lemma SoundChild(h: Heap<RefId>, held: multiset<RefId>, acquired: set<BufId>, r: RefId, parent: RefId)
    requires Sound(h, held, acquired) && r !in h.cells && parent in h.cells
    ensures Sound(AcquireChild(h, r, parent), held + multiset{r}, acquired)
    ensures r !in held
  {
    hide Balanced, BuffersOnce, Known;
    AcquireChildBalanced(h, held, r, parent);
    DeadNotHeld(h.cells, held, r);
    SameBuffers(h, AcquireChild(h, r, parent));
  }

  lemma DeadNotHeld(cells: map<RefId, Cell<RefId>>, held: multiset<RefId>, r: RefId)
    requires Balanced(cells, held) && r !in cells
    ensures r !in held
  {
    hide Kids;
  }

  /** A ref nobody holds and no live ref has for parent may be put to any use. */
  lemma FreshIsNobodys(w: World, r: RefId)
    requires Inv(w) && r !in w.heap.cells
    ensures SlotsHeld(w)[r] == 0 && PubsHeld(w)[r] == 0 && w.kept[r] == 0
    ensures forall c :: c in w.heap.cells ==> w.heap.cells[c].parent != Some(r)
    ensures PubShapes(w.batches - {r}, w.slots, w.pubs) && PubShapes(w.batches + {r}, w.slots, w.pubs)
  {
    assert r !in Held(w);
    hide Total;
    FreshShapes(w.batches, w.slots, w.pubs, r);
  }

  lemma FreshShapes(batches: set<RefId>, slots: seq<Slot>, pubs: seq<Publisher>, r: RefId)
    requires PubShapes(batches, slots, pubs) && Total(pubs, PubHeld)[r] == 0
    ensures PubShapes(batches - {r}, slots, pubs) && PubShapes(batches + {r}, slots, pubs)
  {
    forall i | 0 <= i < |pubs|
      ensures PubShape(batches - {r}, slots, pubs[i]) && PubShape(batches + {r}, slots, pubs[i])
    {
      TotalUpdate(pubs, i, pubs[i], PubHeld);
      assert PubHeld(pubs[i])[r] == 0;
      assert PubShape(batches, slots, pubs[i]);
    }
  }

  /** A publisher comes to hold one more reference, to r. */
  lemma GainInv(w: World, p: nat, pub: Publisher, r: RefId, h: Heap<RefId>, batches: set<RefId>, acquired: set<BufId>)
    requires Inv(w) && p < |w.pubs| && PubHeld(pub) == PubHeld(w.pubs[p]) + multiset{r}
    requires Sound(h, Held(w) + multiset{r}, acquired)
    requires ParentsApart(h.cells, batches)
    requires ParentsPrivate(batches, PubsHeld(w) + multiset{r}, SlotsHeld(w) + w.kept)
    requires PubShape(batches, w.slots, pub) && PubShapes(batches, w.slots, w.pubs)
    ensures Inv(SetPub(w, p, pub).(heap := h, batches := batches, acquired := acquired))
  {
    hide Sound, Total, ParentsApart, ParentsPrivate, PubHeld;
    var w' := SetPub(w, p, pub).(heap := h, batches := batches, acquired := acquired);
    GrowPub(w, p, pub, multiset{r});
    assert Held(w') == Held(w) + multiset{r};
  }

  lemma ParentsAcquire(cells: map<RefId, Cell<RefId>>, batches: set<RefId>, r: RefId, buf: BufId)
    requires ParentsApart(cells, batches) && forall c :: c in cells ==> cells[c].parent != Some(r)
    ensures ParentsApart(cells[r := Cell(1, Some(buf), None)], batches - {r})
    ensures ParentsApart(cells[r := Cell(1, Some(buf), None)], batches + {r})
  {
  }

  lemma ParentsRetain(h: Heap<RefId>, batches: set<RefId>, r: RefId)
    requires ParentsApart(h.cells, batches) && r in h.cells
    ensures ParentsApart(Retain(h, r).cells, batches)
  {
  }

  lemma ParentsChild(h: Heap<RefId>, batches: set<RefId>, r: RefId, parent: RefId)
    requires ParentsApart(h.cells, batches) && forall c :: c in h.cells ==> h.cells[c].parent != Some(r)
    requires r !in h.cells && parent in h.cells && parent in batches
    ensures ParentsApart(AcquireChild(h, r, parent).cells, batches - {r})
  {
    ParentsRetain(h, batches, parent);
    var cells := Retain(h, parent).cells;
    assert forall c :: c in cells ==> c in h.cells && cells[c].parent == h.cells[c].parent;
  }

  lemma PrivateGain(batches: set<RefId>, pubs: multiset<RefId>, others: multiset<RefId>, r: RefId)
    requires ParentsPrivate(batches, pubs, others)
    ensures ParentsPrivate(batches - {r}, pubs + multiset{r}, others)
    ensures pubs[r] == 0 && others[r] == 0 ==> ParentsPrivate(batches + {r}, pubs + multiset{r}, others)
  {
  }

  lemma StartPublishInv(w: World, p: nat, r: RefId, buf: BufId, targets: seq<Target>)
    requires Inv(w)
    requires p < |w.pubs| && w.pubs[p].Idle? && r !in w.heap.cells && buf !in w.acquired && TargetsActive(w.slots, targets)
    ensures Inv(SetPub(w, p, Publishing(r, targets, false, None))
      .(heap := Acquire(w.heap, r, buf), batches := w.batches - {r}, acquired := w.acquired + {buf}))
  {
    hide Sound, Total, ParentsApart, ParentsPrivate, PubShapes;
    var pub := Publishing(r, targets, false, None);
    assert PubHeld(pub) == PubHeld(w.pubs[p]) + multiset{r};
    FreshIsNobodys(w, r);
    SoundAcquire(w.heap, Held(w), w.acquired, r, buf);
    ParentsAcquire(w.heap.cells, w.batches, r, buf);
    PrivateGain(w.batches, PubsHeld(w), SlotsHeld(w) + w.kept, r);
    GainInv(w, p, pub, r, Acquire(w.heap, r, buf), w.batches - {r}, w.acquired + {buf});
  }

  lemma StartBatchInv(w: World, p: nat, r: RefId, buf: BufId)
    requires Inv(w)
    requires p < |w.pubs| && w.pubs[p].Idle? && r !in w.heap.cells && buf !in w.acquired
    ensures Inv(SetPub(w, p, Batching(r))
      .(heap := Acquire(w.heap, r, buf), batches := w.batches + {r}, acquired := w.acquired + {buf}))
  {
    hide Sound, Total, ParentsApart, ParentsPrivate, PubShapes;
    assert PubHeld(Batching(r)) == PubHeld(w.pubs[p]) + multiset{r};
    FreshIsNobodys(w, r);
    SoundAcquire(w.heap, Held(w), w.acquired, r, buf);
    ParentsAcquire(w.heap.cells, w.batches, r, buf);
    PrivateGain(w.batches, PubsHeld(w), SlotsHeld(w) + w.kept, r);
    GainInv(w, p, Batching(r), r, Acquire(w.heap, r, buf), w.batches + {r}, w.acquired + {buf});
  }

  lemma StartChildInv(w: World, p: nat, r: RefId, targets: seq<Target>)
    requires Inv(w)
    requires p < |w.pubs| && w.pubs[p].Batching? && r !in w.heap.cells && TargetsActive(w.slots, targets)
    ensures w.pubs[p].parent in w.heap.cells
    ensures Inv(SetPub(w, p, Publishing(r, targets, false, Some(w.pubs[p].parent)))
      .(heap := AcquireChild(w.heap, r, w.pubs[p].parent), batches := w.batches - {r}))
  {
    hide Sound, Total, ParentsApart, ParentsPrivate, PubShapes;
    var parent := w.pubs[p].parent;
    var pub := Publishing(r, targets, false, Some(parent));
    PubHoldsLive(w, p);
    assert parent in PubHeld(w.pubs[p]);
    assert PubHeld(pub) == PubHeld(w.pubs[p]) + multiset{r};
    FreshIsNobodys(w, r);
    ShapeOf(w, p);
    SoundChild(w.heap, Held(w), w.acquired, r, parent);
    ParentsChild(w.heap, w.batches, r, parent);
    PrivateGain(w.batches, PubsHeld(w), SlotsHeld(w) + w.kept, r);
    GainInv(w, p, pub, r, AcquireChild(w.heap, r, parent), w.batches - {r}, w.acquired);
  }

  lemma RetainNextInv(w: World, p: nat)
    requires Inv(w)
    requires p < |w.pubs| && w.pubs[p].Publishing? && !w.pubs[p].retained
    ensures w.pubs[p].m in w.heap.cells
    ensures Inv(SetPub(w, p, w.pubs[p].(retained := true)).(heap := Retain(w.heap, w.pubs[p].m)))
  {
    hide Sound, Total, ParentsApart, ParentsPrivate, PubShapes;
    var m := w.pubs[p].m;
    var pub := w.pubs[p].(retained := true);
    PubHoldsLive(w, p);
    assert m in PubHeld(w.pubs[p]);
    assert PubHeld(pub) == PubHeld(w.pubs[p]) + multiset{m};
    ShapeOf(w, p);
    SoundRetain(w.heap, Held(w), w.acquired, m);
    ParentsRetain(w.heap, w.batches, m);
    PrivateGain(w.batches, PubsHeld(w), SlotsHeld(w) + w.kept, m);
    assert w.batches - {m} == w.batches;
    GainInv(w, p, pub, m, Retain(w.heap, m), w.batches, w.acquired);
  }

  /** A publisher lets one reference go: the halfway state. */
  lemma LetGo(w: World, p: nat, pub: Publisher, m: RefId)
    requires Inv(w) && p < |w.pubs|
    requires PubHeld(w.pubs[p]) == PubHeld(pub) + multiset{m} && PubShape(w.batches, w.slots, pub)
    ensures InvWith(SetPub(w, p, pub), multiset{m})
  {
    hide Sound, Total;
    MovePub(w, p, pub, multiset{m});
    SetPubBatches(w, p, pub);
  }

  lemma FinishMessageInv(w: World, p: nat)
    requires Inv(w) && p < |w.pubs| && w.pubs[p].Publishing? && !w.pubs[p].retained
    ensures var pub := w.pubs[p];
      Inv(Give(SetPub(w, p, if pub.batch.None? then Idle else Batching(pub.batch.value)), pub.m))
  {
    ShapeOf(w, p);
    hide InvWith;
    var pub := w.pubs[p];
    var pub' := if pub.batch.None? then Idle else Batching(pub.batch.value);
    assert PubHeld(pub) == PubHeld(pub') + multiset{pub.m};
    LetGo(w, p, pub', pub.m);
    GiveInv(SetPub(w, p, pub'), pub.m);
  }

  lemma FinishBatchInv(w: World, p: nat)
    requires Inv(w) && p < |w.pubs| && w.pubs[p].Batching?
    ensures Inv(Give(SetPub(w, p, Idle), w.pubs[p].parent))
  {
    hide InvWith;
    assert PubHeld(w.pubs[p]) == PubHeld(Idle) + multiset{w.pubs[p].parent};
    LetGo(w, p, Idle, w.pubs[p].parent);
    GiveInv(SetPub(w, p, Idle), w.pubs[p].parent);
  }

  lemma ShapeOf(w: World, p: nat)
    requires Inv(w) && p < |w.pubs|
    ensures PubShape(w.batches, w.slots, w.pubs[p])
  {
  }

  // ---- Enqueueing ------------------------------------------------------------------------------------------

  /** An enqueue passes the extra reference to the queue, to the pool, or to nobody who will give it up. */
  lemma EnqueueInv(c: Config, w: World, m: RefId, slot: nat, priority: nat)
    requires InvWith(w, multiset{m}) && m !in w.batches
    ensures Inv(EnqueueTo(c, w, m, slot, priority))
  {
    if !IsActive(w.slots, slot) {
      KeepInv(w, m);
    } else {
      var s, p := w.slots[slot], KnownLevel(priority);
      assert |s.queues| == 4;
      var r := Push(s.queues[p], m, c.queueSize, c.policy);
      PushConserves(s.queues[p], m, c.queueSize, c.policy);
      QueueInv(w, m, slot, p, r.queue, r.dropped);
      NothingExtra(SetSlot(w, slot, s.(queues := s.queues[p := r.queue])));
      if r.dropped.Some? {
        GiveInv(SetSlot(w, slot, s.(queues := s.queues[p := r.queue])), r.dropped.value);
      }
    }
  }

  lemma KeepInv(w: World, m: RefId)
    requires InvWith(w, multiset{m}) && m !in w.batches
    ensures Inv(w.(kept := w.kept + multiset{m}))
  {
    hide Sound, Total;
    var w' := w.(kept := w.kept + multiset{m});
    assert Held(w') == Held(w) + multiset{m};
    hide PubShapes, ParentsApart;
    assert SlotsHeld(w') + w'.kept == SlotsHeld(w) + w.kept + multiset{m};
  }

  lemma QueueInv(w: World, m: RefId, slot: nat, p: nat, q: seq<RefId>, dropped: Option<RefId>)
    requires InvWith(w, multiset{m}) && m !in w.batches && IsActive(w.slots, slot) && p < 4
    requires multiset(q) + Opt(dropped) == multiset(w.slots[slot].queues[p]) + multiset{m}
    requires dropped.Some? ==> dropped.value == m || dropped.value in w.slots[slot].queues[p]
    ensures InvWith(SetSlot(w, slot, w.slots[slot].(queues := w.slots[slot].queues[p := q])), Opt(dropped))
  {
    hide Sound, Total, SlotHeld;
    var s := w.slots[slot];
    var s' := s.(queues := s.queues[p := q]);
    var w' := SetSlot(w, slot, s');
    QueueChange(s, p, q);
    QueueLedger(SlotHeld(s), SlotHeld(s'), multiset(s.queues[p]), multiset(q), m, Opt(dropped));
    SlotLedger(w, slot, s', m, Opt(dropped));
    forall r | r in w.batches ensures SlotsHeld(w')[r] == 0 {
      assert (SlotsHeld(w') + Opt(dropped))[r] == (SlotsHeld(w) + multiset{m})[r];
    }
    SetSlotBatches(w, slot, s');
  }

  lemma QueueLedger(s: multiset<RefId>, s': multiset<RefId>, q: multiset<RefId>, q': multiset<RefId>, m: RefId,
                    d: multiset<RefId>)
    requires s' + q == s + q' && q' + d == q + multiset{m}
    ensures s' + d == s + multiset{m}
  {
    forall r ensures (s' + d)[r] == (s + multiset{m})[r] {
      assert (s' + q)[r] == (s + q')[r];
      assert (q' + d)[r] == (q + multiset{m})[r];
    }
  }

  lemma SlotLedger(w: World, slot: nat, s: Slot, m: RefId, d: multiset<RefId>)
    requires slot < |w.slots| && SlotHeld(s) + d == SlotHeld(w.slots[slot]) + multiset{m}
    ensures SlotsHeld(SetSlot(w, slot, s)) + d == SlotsHeld(w) + multiset{m}
    ensures Held(SetSlot(w, slot, s)) + d == Held(w) + multiset{m}
  {
    hide SlotHeld;
    TotalUpdate(w.slots, slot, s, SlotHeld);
    var w' := SetSlot(w, slot, s);
    QueueLedger(SlotsHeld(w), SlotsHeld(w'), SlotHeld(w.slots[slot]), SlotHeld(s), m, d);
    assert Held(w') + d == PubsHeld(w) + (SlotsHeld(w') + d) + w.kept;
    assert Held(w) + multiset{m} == PubsHeld(w) + (SlotsHeld(w) + multiset{m}) + w.kept;
  }

  lemma EnqueueNextInv(c: Config, w: World, p: nat)
    requires Inv(w) && p < |w.pubs| && w.pubs[p].Publishing? && w.pubs[p].retained && w.pubs[p].targets != []
    ensures var pub := w.pubs[p];
      Inv(EnqueueTo(c, SetPub(w, p, pub.(retained := false, targets := pub.targets[1..])),
                    pub.m, pub.targets[0].slot, pub.targets[0].priority))
  {
    ShapeOf(w, p);
    hide InvWith, EnqueueTo;
    var pub := w.pubs[p];
    var pub' := pub.(retained := false, targets := pub.targets[1..]);
    assert PubHeld(pub) == PubHeld(pub') + multiset{pub.m};
    assert PubShape(w.batches, w.slots, pub');
    LetGo(w, p, pub', pub.m);
    EnqueueInv(c, SetPub(w, p, pub'), pub.m, pub.targets[0].slot, pub.targets[0].priority);
  }

  lemma PrivateKept(batches: set<RefId>, pubs: multiset<RefId>, others: multiset<RefId>, others': multiset<RefId>, r: RefId)
    requires ParentsPrivate(batches, pubs, others) && others' == others + multiset{r}
    ensures ParentsPrivate(batches - {r}, pubs, others')
  {
  }

  lemma KeptLedger(a: multiset<RefId>, kept: multiset<RefId>, r: RefId)
    ensures a + (kept + multiset{r}) + multiset{r} == a + kept + multiset{r} + multiset{r}
  {
  }

  /** The worker has its two references, one of them for good. */
  lemma BackfillHalf(w: World, w1: World, r: RefId, buf: BufId)
    requires Inv(w) && r !in w.heap.cells && buf !in w.acquired
    requires w1 == w.(heap := Retain(Acquire(w.heap, r, buf), r), kept := w.kept + multiset{r},
                      batches := w.batches - {r}, acquired := w.acquired + {buf})
    ensures InvWith(w1, multiset{r})
  {
    hide Sound, Total, ParentsApart, ParentsPrivate, PubShapes;
    FreshIsNobodys(w, r);
    var h1 := Acquire(w.heap, r, buf);
    SoundAcquire(w.heap, Held(w), w.acquired, r, buf);
    SoundRetain(h1, Held(w) + multiset{r}, w1.acquired, r);
    KeptLedger(PubsHeld(w) + SlotsHeld(w), w.kept, r);
    ParentsAcquire(w.heap.cells, w.batches, r, buf);
    ParentsRetain(h1, w.batches - {r}, r);
    PrivateKept(w.batches, PubsHeld(w), SlotsHeld(w) + w.kept, SlotsHeld(w1) + w1.kept, r);
  }

  lemma BackfillInv(c: Config, w: World, r: RefId, buf: BufId, slot: nat)
    requires Inv(w)
    requires r !in w.heap.cells && buf !in w.acquired
    ensures Inv(EnqueueTo(c, w.(heap := Retain(Acquire(w.heap, r, buf), r), kept := w.kept + multiset{r},
                            batches := w.batches - {r}, acquired := w.acquired + {buf}), r, slot, 2))
  {
    var h1 := Acquire(w.heap, r, buf);
    var h2 := Retain(h1, r);
    var w1 := w.(heap := h2, kept := w.kept + multiset{r}, batches := w.batches - {r}, acquired := w.acquired + {buf});
    BackfillHalf(w, w1, r, buf);
    hide EnqueueTo, InvWith;
    EnqueueInv(c, w1, r, slot, 2);
  }

  // ---- Writer steps ------------------------------------------------------------------------------------------

  /** A slot lets one reference go, or none: the halfway state. */
  lemma SlotLetsGo(w: World, s: nat, slot: Slot, gone: multiset<RefId>)
    requires Inv(w) && s < |w.slots| && SlotHeld(w.slots[s]) == SlotHeld(slot) + gone
    requires slot.active == w.slots[s].active && |slot.queues| == 4
    ensures InvWith(SetSlot(w, s, slot), gone)
  {
    hide Sound, Total;
    MoveSlot(w, s, slot, gone);
    SetSlotBatches(w, s, slot);
  }

  lemma PopQueue(s: Slot, p: nat)
    requires p < |s.queues| && s.queues[p] != []
    ensures SlotHeld(s) == SlotHeld(s.(queues := s.queues[p := s.queues[p][1..]])) + multiset{s.queues[p][0]}
  {
    var q := s.queues[p];
    assert q == [q[0]] + q[1..];
    QueueChange(s, p, q[1..]);
    hide SlotHeld;
    var s' := s.(queues := s.queues[p := q[1..]]);
    forall r ensures SlotHeld(s)[r] == (SlotHeld(s') + multiset{q[0]})[r] {
      assert (SlotHeld(s') + multiset(q))[r] == (SlotHeld(s) + multiset(q[1..]))[r];
      assert multiset(q)[r] == (multiset{q[0]} + multiset(q[1..]))[r];
    }
  }

  lemma FetchInv(w: World, s: nat, p: nat)
    requires Inv(w) && s < |w.slots| && p < 4
    requires w.slots[s].hand.None? && |w.slots[s].queues| == 4 && w.slots[s].queues[p] != []
    ensures var slot := w.slots[s];
      Inv(SetSlot(w, s, slot.(queues := slot.queues[p := slot.queues[p][1..]], hand := Some(slot.queues[p][0]))))
  {
    hide Sound, Total, BatchesApart;
    var slot := w.slots[s];
    var m := slot.queues[p][0];
    var popped := slot.(queues := slot.queues[p := slot.queues[p][1..]]);
    PopQueue(slot, p);
    assert SlotHeld(popped.(hand := Some(m))) == SlotHeld(popped) + multiset{m};
    assert SlotHeld(slot) == SlotHeld(popped.(hand := Some(m))) + multiset{};
    SlotLetsGo(w, s, popped.(hand := Some(m)), multiset{});
    NothingExtra(SetSlot(w, s, popped.(hand := Some(m))));
  }

  /** The writer moves references between its hand, its accumulator and the flush list. */
  lemma ShuffleInv(w: World, s: nat, slot: Slot)
    requires Inv(w) && s < |w.slots| && SlotHeld(w.slots[s]) == SlotHeld(slot)
    requires slot.active == w.slots[s].active && |slot.queues| == 4
    ensures Inv(SetSlot(w, s, slot))
  {
    hide InvWith, SlotHeld;
    assert SlotHeld(slot) + multiset{} == SlotHeld(slot);
    SlotLetsGo(w, s, slot, multiset{});
    NothingExtra(SetSlot(w, s, slot));
  }

  /** The writer gives up one reference. */
  lemma DiscardInv(w: World, s: nat, slot: Slot, m: RefId)
    requires Inv(w) && s < |w.slots| && SlotHeld(w.slots[s]) == SlotHeld(slot) + multiset{m}
    requires slot.active == w.slots[s].active && |slot.queues| == 4
    ensures Inv(Give(SetSlot(w, s, slot), m))
  {
    hide InvWith, SlotHeld;
    SlotLetsGo(w, s, slot, multiset{m});
    GiveInv(SetSlot(w, s, slot), m);
  }

  /** The references outside the queues. */
  function InHand(s: Slot): multiset<RefId> { Opt(s.hand) + multiset(s.acc) + multiset(s.out) }

  lemma SameHeld(s: Slot, s': Slot)
    requires s'.queues == s.queues && InHand(s') == InHand(s)
    ensures SlotHeld(s') == SlotHeld(s)
  {
    hide Total;
    assert SlotHeld(s) == Total(s.queues, QueueHeld) + InHand(s);
    assert SlotHeld(s') == Total(s.queues, QueueHeld) + InHand(s');
  }

  lemma LessHeld(s: Slot, s': Slot, m: RefId)
    requires s'.queues == s.queues && InHand(s) == InHand(s') + multiset{m}
    ensures SlotHeld(s) == SlotHeld(s') + multiset{m}
  {
    hide Total;
    assert SlotHeld(s) == Total(s.queues, QueueHeld) + InHand(s);
    assert SlotHeld(s') == Total(s.queues, QueueHeld) + InHand(s');
  }

  lemma FlushHeld(s: Slot)
    requires s.out != []
    ensures SlotHeld(s) == SlotHeld(s.(out := s.out[1..])) + multiset{s.out[0]}
  {
    assert s.out == [s.out[0]] + s.out[1..];
    LessHeld(s, s.(out := s.out[1..]), s.out[0]);
  }

  lemma DiscardHandInv(w: World, s: nat)
    requires Inv(w) && s < |w.slots| && w.slots[s].hand.Some?
    ensures Inv(Give(SetSlot(w, s, w.slots[s].(hand := None)), w.slots[s].hand.value))
  {
    var slot := w.slots[s];
    FourOf(w, s);
    LessHeld(slot, slot.(hand := None), slot.hand.value);
    DiscardInv(w, s, slot.(hand := None), slot.hand.value);
  }

  lemma AppendInv(w: World, s: nat)
    requires Inv(w) && s < |w.slots| && w.slots[s].hand.Some?
    ensures Inv(SetSlot(w, s, w.slots[s].(hand := None, acc := w.slots[s].acc + [w.slots[s].hand.value])))
  {
    var slot := w.slots[s];
    var slot' := slot.(hand := None, acc := slot.acc + [slot.hand.value]);
    FourOf(w, s);
    SameHeld(slot, slot');
    ShuffleInv(w, s, slot');
  }

  lemma FlushBeginInv(w: World, s: nat)
    requires Inv(w) && s < |w.slots| && w.slots[s].out == []
    ensures Inv(SetSlot(w, s, w.slots[s].(acc := [], out := w.slots[s].acc)))
  {
    var slot := w.slots[s];
    FourOf(w, s);
    SameHeld(slot, slot.(acc := [], out := slot.acc));
    ShuffleInv(w, s, slot.(acc := [], out := slot.acc));
  }

  lemma FlushReleaseInv(w: World, s: nat)
    requires Inv(w) && s < |w.slots| && w.slots[s].out != []
    ensures Inv(Give(SetSlot(w, s, w.slots[s].(out := w.slots[s].out[1..])), w.slots[s].out[0]))
  {
    var slot := w.slots[s];
    FourOf(w, s);
    FlushHeld(slot);
    DiscardInv(w, s, slot.(out := slot.out[1..]), slot.out[0]);
  }

  lemma DrainInv(w: World, s: nat, p: nat)
    requires Inv(w) && s < |w.slots| && p < |w.slots[s].queues| && w.slots[s].queues[p] != []
    ensures var slot := w.slots[s];
      Inv(Give(SetSlot(w, s, slot.(queues := slot.queues[p := slot.queues[p][1..]])), slot.queues[p][0]))
  {
    var slot := w.slots[s];
    FourOf(w, s);
    PopQueue(slot, p);
    DiscardInv(w, s, slot.(queues := slot.queues[p := slot.queues[p][1..]]), slot.queues[p][0]);
  }

  lemma FourOf(w: World, s: nat)
    requires Inv(w) && s < |w.slots|
    ensures |w.slots[s].queues| == 4
  {
  }

  lemma {:induction false} EmptyQueues(queues: seq<seq<RefId>>)
    requires forall i :: 0 <= i < |queues| ==> queues[i] == []
    ensures Total(queues, QueueHeld) == multiset{}
  {
    if queues != [] {
      EmptyQueues(queues[1..]);
    }
  }

  lemma EmptySlot(slot: Slot)
    requires slot == Slot(true, [[], [], [], []], None, [], [])
    ensures SlotHeld(slot) == multiset{}
  {
    EmptyQueues(slot.queues);
  }

  /** A change of slots that moves no reference. */
  lemma SlotsOnly(w: World, slots: seq<Slot>)
    requires Inv(w) && Total(slots, SlotHeld) == SlotsHeld(w)
    requires PubShapes(w.batches, slots, w.pubs) && forall i :: 0 <= i < |slots| ==> |slots[i].queues| == 4
    ensures Inv(w.(slots := slots))
  {
    hide Sound, Total, SlotHeld, ParentsApart, ParentsPrivate, PubShapes;
    var w' := w.(slots := slots);
    assert SlotsHeld(w') == SlotsHeld(w) && PubsHeld(w') == PubsHeld(w);
    assert Held(w') == Held(w);
  }

  lemma SubscribeInv(w: World)
    requires Inv(w)
    ensures Inv(w.(slots := w.slots + [Slot(true, [[], [], [], []], None, [], [])]))
  {
    hide Sound, Total, ParentsApart, ParentsPrivate, PubShapes, SlotHeld;
    var slot := Slot(true, [[], [], [], []], None, [], []);
    EmptySlot(slot);
    TotalSnoc(w.slots, slot, SlotHeld);
    assert SlotsHeld(w) + multiset{} == SlotsHeld(w);
    SlotsShapes(w.batches, w.slots, w.slots + [slot], w.pubs);
    SlotsOnly(w, w.slots + [slot]);
  }

  lemma DeactivateInv(w: World, s: nat)
    requires Inv(w) && s < |w.slots| && NoDispatch(w)
    ensures Inv(SetSlot(w, s, w.slots[s].(active := false)))
  {
    hide Sound, Total, ParentsApart, ParentsPrivate, PubShapes, SlotHeld;
    var slot := w.slots[s].(active := false);
    SameHeld(w.slots[s], slot);
    TotalSame(w.slots, s, slot, SlotHeld);
    NoTargets(w.batches, w.slots, w.slots[s := slot], w.pubs);
    SlotsOnly(w, w.slots[s := slot]);
  }

  /** A publisher that is not dispatching has no targets left. */
  lemma NoTargets(batches: set<RefId>, slots: seq<Slot>, slots': seq<Slot>, pubs: seq<Publisher>)
    requires PubShapes(batches, slots, pubs)
    requires forall i :: 0 <= i < |pubs| ==> !Dispatching(pubs[i])
    ensures PubShapes(batches, slots', pubs)
  {
    forall i | 0 <= i < |pubs| ensures PubShape(batches, slots', pubs[i]) {
      assert PubShape(batches, slots, pubs[i]) && !Dispatching(pubs[i]);
    }
  }

  /** Every step keeps the invariant. */
  lemma StepInv(c: Config, w: World, l: Label)
    requires Inv(w) && Enabled(w, l)
    ensures Inv(Step(c, w, l))
  {
    hide Inv, SlotHeld, Give, EnqueueTo;
    match l
    case StartPublish(p, r, buf, targets) => StartPublishInv(w, p, r, buf, targets);
    case StartBatch(p, r, buf) => StartBatchInv(w, p, r, buf);
    case StartChild(p, r, targets) => StartChildInv(w, p, r, targets);
    case RetainNext(p) => RetainNextInv(w, p);
    case EnqueueNext(p) => EnqueueNextInv(c, w, p);
    case FinishMessage(p) => FinishMessageInv(w, p);
    case FinishBatch(p) => FinishBatchInv(w, p);
    case Backfill(r, buf, slot) => BackfillInv(c, w, r, buf, slot);
    case Fetch(s) =>
      FourOf(w, s);
      FetchInv(w, s, Best(w.slots[s].queues, 0));
    case Discard(s) => DiscardHandInv(w, s);
    case Append(s) => AppendInv(w, s);
    case FlushBegin(s) => FlushBeginInv(w, s);
    case FlushRelease(s) => FlushReleaseInv(w, s);
    case Drain(s, p) => DrainInv(w, s, p);
    case Subscribe => SubscribeInv(w);
    case Deactivate(s) => DeactivateInv(w, s);
  }

  // ---- Whole runs ----------------------------------------------------------------------------------------------

  ghost predicate Run(c: Config, ws: seq<World>, ls: seq<Label>)
  {
    && |ws| == |ls| + 1
    && Initial(ws[0])
    && (forall i :: 0 <= i < |ls| ==> Enabled(ws[i], ls[i]) && ws[i + 1] == Step(c, ws[i], ls[i]))
  }

  /** The invariant holds in every state of every run. */
  lemma {:induction false} RunInv(c: Config, ws: seq<World>, ls: seq<Label>, i: nat)
    requires Run(c, ws, ls) && i < |ws|
    ensures Inv(ws[i])
  {
    hide Inv, Step, Enabled, Initial;
    if i == 0 {
      InitialInv(ws[0]);
    } else {
      RunInv(c, ws, ls, i - 1);
      assert Enabled(ws[i - 1], ls[i - 1]);
      StepInv(c, ws[i - 1], ls[i - 1]);
    }
  }

  /** The buffer behind a live ref: its own, or its batch parent's. */
  ghost function BufferOf(cells: map<RefId, Cell<RefId>>, r: RefId): Option<BufId>
    requires r in cells
  {
    var p := cells[r].parent;
    if p.None? then cells[r].buf else if p.value in cells then cells[p.value].buf else None
  }

  /** A buffer is never handed back while a queue, an accumulator, a writer or a publisher holds its message:
      whatever is held is live, owns a buffer, and that buffer is not among those handed back. */
  lemma NeverEarly(c: Config, ws: seq<World>, ls: seq<Label>, i: nat, r: RefId)
    requires Run(c, ws, ls) && i < |ws| && r in Held(ws[i])
    ensures r in ws[i].heap.cells
    ensures BufferOf(ws[i].heap.cells, r).Some?
    ensures BufferOf(ws[i].heap.cells, r).value !in ws[i].heap.returned
  {
    RunInv(c, ws, ls, i);
    HeldBuffer(ws[i], r);
  }

  lemma HeldBuffer(w: World, r: RefId)
    requires Inv(w) && r in Held(w)
    ensures r in w.heap.cells && BufferOf(w.heap.cells, r).Some?
    ensures BufferOf(w.heap.cells, r).value !in w.heap.returned
  {
    hide Total, PubShapes, ParentsPrivate, Kids, Held;
    var p := w.heap.cells[r].parent;
    if p.Some? {
      assert p.value in w.batches && p.value in w.heap.cells;
    }
  }

  /** A counter is exactly the number of holders and live children, in every state of every run. */
  lemma CountsExact(c: Config, ws: seq<World>, ls: seq<Label>, i: nat, r: RefId)
    requires Run(c, ws, ls) && i < |ws| && r in ws[i].heap.cells
    ensures ws[i].heap.cells[r].count == Held(ws[i])[r] + Kids(ws[i].heap.cells, r)
    ensures ws[i].heap.cells[r].count > 0
  {
    RunInv(c, ws, ls, i);
    hide Total, PubShapes, ParentsPrivate, Kids, Held;
  }

  /** A batch parent counts its publisher's hold, while there is one, and its live children; nobody else has it. */
  lemma BatchParentCount(c: Config, ws: seq<World>, ls: seq<Label>, i: nat, p: RefId)
    requires Run(c, ws, ls) && i < |ws| && p in ws[i].batches && p in ws[i].heap.cells
    ensures ws[i].heap.cells[p].count == PubsHeld(ws[i])[p] + Kids(ws[i].heap.cells, p)
    ensures PubsHeld(ws[i])[p] <= 1
    ensures ws[i].heap.cells[p].buf.Some? && ws[i].heap.cells[p].buf.value !in ws[i].heap.returned
  {
    RunInv(c, ws, ls, i);
    hide Total, PubShapes, Kids;
    var w := ws[i];
    assert (SlotsHeld(w) + w.kept)[p] == 0;
    assert Held(w)[p] == PubsHeld(w)[p];
    assert w.heap.cells[p].parent.None?;
  }

  lemma GiveReturned(w: World, r: RefId)
    ensures w.heap.returned <= Give(w, r).heap.returned
  {
    if r in w.heap.cells {
      ReleaseReturned(w.heap, r);
    }
  }

  lemma {:induction false} ReleaseReturned(h: Heap<RefId>, r: RefId)
    requires r in h.cells
    ensures h.returned <= Release(h, r).returned
    decreases |h.cells|
  {
    var c := h.cells[r];
    if c.count == 1 && c.parent.Some? {
      DropSmaller(h.cells, r);
      if c.parent.value in h.cells - {r} {
        ReleaseReturned(h.(cells := h.cells - {r}), c.parent.value);
      }
    }
  }

  /** No step takes a hand-back back. */
  lemma StepReturned(c: Config, w: World, l: Label)
    requires Enabled(w, l)
    ensures w.heap.returned <= Step(c, w, l).heap.returned
  {
    hide Release, Push;
    forall w1: World, r ensures w1.heap.returned <= Give(w1, r).heap.returned {
      GiveReturned(w1, r);
    }
    hide Give;
  }

  lemma {:induction false} ReturnedGrows(c: Config, ws: seq<World>, ls: seq<Label>, i: nat, j: nat)
    requires Run(c, ws, ls) && i <= j < |ws|
    ensures ws[i].heap.returned <= ws[j].heap.returned
    decreases j
  {
    hide Step, Enabled, Initial;
    if i < j {
      ReturnedGrows(c, ws, ls, i, j - 1);
      assert Enabled(ws[j - 1], ls[j - 1]);
      StepReturned(c, ws[j - 1], ls[j - 1]);
    }
  }

  /** Over a whole run no buffer is handed back twice: the history only grows and never repeats itself. */
  lemma NeverTwice(c: Config, ws: seq<World>, ls: seq<Label>, i: nat, j: nat)
    requires Run(c, ws, ls) && i <= j < |ws|
    ensures ws[i].heap.returned <= ws[j].heap.returned
    ensures forall a, b :: 0 <= a < b < |ws[j].heap.returned| ==> ws[j].heap.returned[a] != ws[j].heap.returned[b]
  {
    ReturnedGrows(c, ws, ls, i, j);
    RunInv(c, ws, ls, j);
  }

  lemma StepKept(c: Config, w: World, l: Label)
    requires Inv(w) && Enabled(w, l) && !l.Backfill?
    ensures Step(c, w, l).kept == w.kept
  {
    hide Sound, Total, ParentsApart, ParentsPrivate, Release;
    if l.EnqueueNext? {
      var pub := w.pubs[l.p];
      assert PubShape(w.batches, w.slots, pub);
      assert IsActive(w.slots, pub.targets[0].slot);
    }
  }

  /** On the publish paths no reference is ever lost: only backfill keeps one. */
  lemma {:induction false} PublishLosesNothing(c: Config, ws: seq<World>, ls: seq<Label>, i: nat)
    requires Run(c, ws, ls) && i < |ws|
    requires forall k :: 0 <= k < |ls| ==> !ls[k].Backfill?
    ensures ws[i].kept == multiset{}
    ensures Held(ws[i]) == PubsHeld(ws[i]) + SlotsHeld(ws[i])
  {
    hide Inv, Step, Enabled, Total;
    if i > 0 {
      PublishLosesNothing(c, ws, ls, i - 1);
      RunInv(c, ws, ls, i - 1);
      assert Enabled(ws[i - 1], ls[i - 1]);
      StepKept(c, ws[i - 1], ls[i - 1]);
    }
  }

  /** When nothing is held any more, every buffer ever wrapped has come back, each once. */
  lemma QuiescentReturnsAll(c: Config, ws: seq<World>, ls: seq<Label>, i: nat)
    requires Run(c, ws, ls) && i < |ws| && Held(ws[i]) == multiset{}
    ensures ws[i].heap.cells == map[]
    ensures (set b | b in ws[i].heap.returned) == ws[i].acquired
  {
    RunInv(c, ws, ls, i);
    NobodyHeld(ws[i]);
  }

  lemma NobodyHeld(w: World)
    requires Inv(w) && Held(w) == multiset{}
    ensures w.heap.cells == map[]
    ensures (set b | b in w.heap.returned) == w.acquired
  {
    hide Total, PubShapes, ParentsPrivate, Held;
    var cells := w.heap.cells;
    forall r ensures r !in cells {
      OrphanFree(cells, w.batches, r);
    }
  }

  /** With nothing held, a live ref would need a live child, and that child a child of its own. */
  lemma OrphanFree(cells: map<RefId, Cell<RefId>>, batches: set<RefId>, r: RefId)
    requires Balanced(cells, multiset{}) && ParentsApart(cells, batches)
    ensures r !in cells
  {
    forall k | k in cells ensures cells[k].parent.None? {
      NoKids(cells, k);
    }
    NoKids(cells, r);
  }

  // ---- The life of one message ----------------------------------------------------------------------------------------

  /** The steps can be taken one after another and lead from w to w'. */
  ghost predicate Leads(c: Config, w: World, ls: seq<Label>, w': World)
    decreases ls
  {
    if ls == [] then w == w' else Enabled(w, ls[0]) && Leads(c, Step(c, w, ls[0]), ls[1..], w')
  }

  lemma LeadsCons(c: Config, w: World, l: Label, w1: World, ls: seq<Label>, w': World)
    requires Enabled(w, l) && Step(c, w, l) == w1 && Leads(c, w1, ls, w')
    ensures Leads(c, w, [l] + ls, w')
  {
    hide Enabled, Step;
    assert ([l] + ls)[1..] == ls;
  }

  lemma LeadsNone(c: Config, w: World)
    ensures Leads(c, w, [], w)
  {
  }

  /** A subscriber with nothing queued and nothing in its writer's hands. */
  const VACANT: Slot := Slot(true, [[], [], [], []], None, [], [])

  /** The world with one publisher, one slot, the counters and the books replaced. */
  function At(w: World, heap: Heap<RefId>, p: nat, pub: Publisher, s: nat, slot: Slot, batches: set<RefId>, acquired: set<BufId>): World
    requires p < |w.pubs| && s < |w.slots|
  {
    World(heap, w.pubs[p := pub], w.slots[s := slot], w.kept, batches, acquired)
  }

  /** VACANT with one message at a level. */
  function Queued(m: RefId, level: nat): Slot
    requires level < 4
  {
    VACANT.(queues := VACANT.queues[level := [m]])
  }

  lemma AtRetain(c: Config, w: World, h: Heap<RefId>, p: nat, m: RefId, ts: seq<Target>, batch: Option<RefId>, s: nat, slot: Slot,
                 bs: set<RefId>, acq: set<BufId>)
    requires p < |w.pubs| && s < |w.slots| && m in h.cells && ts != []
    ensures var w0, l := At(w, h, p, Publishing(m, ts, false, batch), s, slot, bs, acq), RetainNext(p);
      Enabled(w0, l) && Step(c, w0, l) == At(w, Retain(h, m), p, Publishing(m, ts, true, batch), s, slot, bs, acq)
  {
    var a, b := Publishing(m, ts, false, batch), Publishing(m, ts, true, batch);
    assert w.pubs[p := a][p := b] == w.pubs[p := b];
  }

  lemma AtEnqueue(c: Config, w: World, h: Heap<RefId>, p: nat, m: RefId, priority: nat, batch: Option<RefId>, s: nat,
                  bs: set<RefId>, acq: set<BufId>)
    requires p < |w.pubs| && s < |w.slots| && c.queueSize > 0
    ensures var w0, l := At(w, h, p, Publishing(m, [Target(s, priority)], true, batch), s, VACANT, bs, acq), EnqueueNext(p);
      && Enabled(w0, l)
      && Step(c, w0, l) == At(w, h, p, Publishing(m, [], false, batch), s, Queued(m, KnownLevel(priority)), bs, acq)
  {
    var ts := [Target(s, priority)];
    assert ts[1..] == [];
    var a, b := Publishing(m, ts, true, batch), Publishing(m, [], false, batch);
    assert w.pubs[p := a][p := b] == w.pubs[p := b];
    NoneQueued(KnownLevel(priority));
    assert [] + [m] == [m];
    var slot := Queued(m, KnownLevel(priority));
    assert w.slots[s := VACANT][s := slot] == w.slots[s := slot];
  }

  lemma AtFinish(c: Config, w: World, h: Heap<RefId>, p: nat, m: RefId, batch: Option<RefId>, s: nat, slot: Slot,
                 bs: set<RefId>, acq: set<BufId>)
    requires p < |w.pubs| && s < |w.slots| && m in h.cells && h.cells[m].count == 2
    ensures var w0, l := At(w, h, p, Publishing(m, [], false, batch), s, slot, bs, acq), FinishMessage(p);
      var after := if batch.None? then Idle else Batching(batch.value);
      Enabled(w0, l) && Step(c, w0, l) == At(w, h.(cells := h.cells[m := h.cells[m].(count := 1)]), p, after, s, slot, bs, acq)
  {
    var a := Publishing(m, [], false, batch);
    var b := if batch.None? then Idle else Batching(batch.value);
    assert w.pubs[p := a][p := b] == w.pubs[p := b];
  }

  lemma AtStart(c: Config, w: World, p: nat, r: RefId, buf: BufId, s: nat, ts: seq<Target>)
    requires p < |w.pubs| && w.pubs[p].Idle? && FreshRef(w, r) && buf !in w.acquired && s < |w.slots| && TargetsActive(w.slots, ts)
    ensures Enabled(w, StartPublish(p, r, buf, ts)) && Enabled(w, StartBatch(p, r, buf))
    ensures Step(c, w, StartPublish(p, r, buf, ts))
      == At(w, Acquire(w.heap, r, buf), p, Publishing(r, ts, false, None), s, w.slots[s], w.batches - {r}, w.acquired + {buf})
    ensures Step(c, w, StartBatch(p, r, buf))
      == At(w, Acquire(w.heap, r, buf), p, Batching(r), s, w.slots[s], w.batches + {r}, w.acquired + {buf})
  {
    assert w.slots[s := w.slots[s]] == w.slots;
  }

  /** Publishing to a vacant subscriber takes the message to its queue, where one reference is left of it, and leaves the
      publisher idle again. */
  lemma PublishQueues(c: Config, w: World, p: nat, r: RefId, buf: BufId, s: nat, priority: nat)
    requires p < |w.pubs| && w.pubs[p].Idle? && FreshRef(w, r) && buf !in w.acquired && c.queueSize > 0
    requires s < |w.slots| && w.slots[s] == VACANT
    ensures Leads(c, w, [StartPublish(p, r, buf, [Target(s, priority)]), RetainNext(p), EnqueueNext(p), FinishMessage(p)],
                  At(w, Acquire(w.heap, r, buf), p, Idle, s, Queued(r, KnownLevel(priority)), w.batches - {r}, w.acquired + {buf}))
  {
    hide Leads, Enabled, Step, At, Queued;
    var ts, bs, acq, level := [Target(s, priority)], w.batches - {r}, w.acquired + {buf}, KnownLevel(priority);
    var one := Acquire(w.heap, r, buf);
    var two := Retain(one, r);
    AtStart(c, w, p, r, buf, s, ts);
    AtRetain(c, w, one, p, r, ts, None, s, VACANT, bs, acq);
    AtEnqueue(c, w, two, p, r, priority, None, s, bs, acq);
    AtFinish(c, w, two, p, r, None, s, Queued(r, level), bs, acq);
    assert two.(cells := two.cells[r := two.cells[r].(count := 1)]) == one;
    var w1 := At(w, one, p, Publishing(r, ts, false, None), s, VACANT, bs, acq);
    var w2 := At(w, two, p, Publishing(r, ts, true, None), s, VACANT, bs, acq);
    var w3 := At(w, two, p, Publishing(r, [], false, None), s, Queued(r, level), bs, acq);
    var w4 := At(w, one, p, Idle, s, Queued(r, level), bs, acq);
    LeadsFour(c, w, StartPublish(p, r, buf, ts), w1, RetainNext(p), w2, EnqueueNext(p), w3, FinishMessage(p), w4);
  }

  lemma LeadsFour(c: Config, w: World, a: Label, w1: World, b: Label, w2: World, d: Label, w3: World, e: Label, w4: World)
    requires Enabled(w, a) && Step(c, w, a) == w1 && Enabled(w1, b) && Step(c, w1, b) == w2
    requires Enabled(w2, d) && Step(c, w2, d) == w3 && Enabled(w3, e) && Step(c, w3, e) == w4
    ensures Leads(c, w, [a, b, d, e], w4)
  {
    hide Enabled, Step, Leads;
    LeadsNone(c, w4);
    LeadsCons(c, w3, e, w4, [], w4);
    LeadsCons(c, w2, d, w3, [e] + [], w4);
    LeadsCons(c, w1, b, w2, [d] + ([e] + []), w4);
    LeadsCons(c, w, a, w1, [b] + ([d] + ([e] + [])), w4);
    assert [a] + ([b] + ([d] + ([e] + []))) == [a, b, d, e];
  }

  // ---- And its end -----------------------------------------------------------------------------------------------

  /** The last reference to the message at a slot: giving it up hands back this buffer and leaves these counters. */
  predicate Last(h: Heap<RefId>, m: RefId, buf: BufId, cells: map<RefId, Cell<RefId>>)
  {
    m in h.cells && Release(h, m) == Heap(cells, h.returned + [buf])
  }

  /** A queued message that is fetched, appended and flushed is let go of when the flush is over; one that is fetched and
      dropped, or drained from its queue, at once. Its buffer comes back then, and the slot is vacant again. */
  lemma QueuedComesBack(c: Config, w: World, h: Heap<RefId>, p: nat, s: nat, m: RefId, level: nat, buf: BufId,
                        cells: map<RefId, Cell<RefId>>, bs: set<RefId>, acq: set<BufId>)
    requires p < |w.pubs| && s < |w.slots| && level < 4 && Last(h, m, buf, cells)
    ensures var w0 := At(w, h, p, Idle, s, Queued(m, level), bs, acq);
      var over := At(w, Heap(cells, h.returned + [buf]), p, Idle, s, VACANT, bs, acq);
      && Leads(c, w0, [Fetch(s), Append(s), FlushBegin(s), FlushRelease(s)], over)
      && Leads(c, w0, [Fetch(s), Discard(s)], over)
      && Leads(c, w0, [Drain(s, level)], over)
  {
    hide Leads, Enabled, Step, Queued, Release;
    SlotSteps(c, w, h, p, s, m, level, buf, cells, bs, acq);
    var w0 := At(w, h, p, Idle, s, Queued(m, level), bs, acq);
    var w1 := At(w, h, p, Idle, s, VACANT.(hand := Some(m)), bs, acq);
    var w2 := At(w, h, p, Idle, s, VACANT.(acc := [m]), bs, acq);
    var w3 := At(w, h, p, Idle, s, VACANT.(out := [m]), bs, acq);
    var over := At(w, Heap(cells, h.returned + [buf]), p, Idle, s, VACANT, bs, acq);
    LeadsFour(c, w0, Fetch(s), w1, Append(s), w2, FlushBegin(s), w3, FlushRelease(s), over);
    LeadsNone(c, over);
    LeadsCons(c, w1, Discard(s), over, [], over);
    LeadsCons(c, w0, Fetch(s), w1, [Discard(s)] + [], over);
    LeadsCons(c, w0, Drain(s, level), over, [], over);
    assert [Fetch(s)] + ([Discard(s)] + []) == [Fetch(s), Discard(s)] && [Drain(s, level)] + [] == [Drain(s, level)];
  }

  lemma NoneQueued(level: nat)
    requires level < 4
    ensures VACANT.queues[level] == [] && |VACANT.queues| == 4
  {
  }

  lemma QueuedIs(m: RefId, level: nat)
    requires level < 4
    ensures var q := Queued(m, level).queues;
      |q| == 4 && Best(q, 0) == level && q[level] == [m] && q[level := q[level][1..]] == VACANT.queues
  {
    hide Best;
    var q := Queued(m, level).queues;
    assert forall k: nat {:trigger VACANT.queues[k]} :: k < 4 ==> VACANT.queues[k] == [];
    assert forall k: nat {:trigger q[k]} :: k < 4 && k != level ==> q[k] == VACANT.queues[k];
    assert [m][1..] == [];
    BestIs(q, 0, level);
  }

  lemma {:induction false} BestIs(queues: seq<seq<RefId>>, p: nat, level: nat)
    requires p <= level < |queues| && queues[level] != [] && forall k :: p <= k < level ==> queues[k] == []
    ensures Best(queues, p) == level
    decreases level - p
  {
    if p < level {
      BestIs(queues, p + 1, level);
    }
  }

  /** The steps of a writer with one message, from its queue to the flush that lets go of it. */
  lemma SlotSteps(c: Config, w: World, h: Heap<RefId>, p: nat, s: nat, m: RefId, level: nat, buf: BufId,
                  cells: map<RefId, Cell<RefId>>, bs: set<RefId>, acq: set<BufId>)
    requires p < |w.pubs| && s < |w.slots| && level < 4 && Last(h, m, buf, cells)
    ensures var w0 := At(w, h, p, Idle, s, Queued(m, level), bs, acq);
      var w1 := At(w, h, p, Idle, s, VACANT.(hand := Some(m)), bs, acq);
      var w2 := At(w, h, p, Idle, s, VACANT.(acc := [m]), bs, acq);
      var w3 := At(w, h, p, Idle, s, VACANT.(out := [m]), bs, acq);
      var over := At(w, Heap(cells, h.returned + [buf]), p, Idle, s, VACANT, bs, acq);
      && Enabled(w0, Fetch(s)) && Step(c, w0, Fetch(s)) == w1
      && Enabled(w1, Append(s)) && Step(c, w1, Append(s)) == w2
      && Enabled(w2, FlushBegin(s)) && Step(c, w2, FlushBegin(s)) == w3
      && Enabled(w3, FlushRelease(s)) && Step(c, w3, FlushRelease(s)) == over
      && Enabled(w1, Discard(s)) && Step(c, w1, Discard(s)) == over
      && Enabled(w0, Drain(s, level)) && Step(c, w0, Drain(s, level)) == over
  {
    hide Step, Enabled, Queued, At;
    TakesQueued(c, w, h, p, s, m, level, buf, cells, bs, acq);
    Writes(c, w, h, p, s, m, bs, acq);
    LetsGo(c, w, h, p, s, m, buf, cells, bs, acq);
  }

  lemma Writes(c: Config, w: World, h: Heap<RefId>, p: nat, s: nat, m: RefId, bs: set<RefId>, acq: set<BufId>)
    requires p < |w.pubs| && s < |w.slots|
    ensures var w1 := At(w, h, p, Idle, s, VACANT.(hand := Some(m)), bs, acq);
      var w2 := At(w, h, p, Idle, s, VACANT.(acc := [m]), bs, acq);
      && Enabled(w1, Append(s)) && Step(c, w1, Append(s)) == w2
      && Enabled(w2, FlushBegin(s)) && Step(c, w2, FlushBegin(s)) == At(w, h, p, Idle, s, VACANT.(out := [m]), bs, acq)
  {
    SlotTwice(w.slots, s, VACANT.(hand := Some(m)), VACANT.(acc := [m]));
    SlotTwice(w.slots, s, VACANT.(acc := [m]), VACANT.(out := [m]));
    assert [] + [m] == [m];
  }

  lemma LetsGo(c: Config, w: World, h: Heap<RefId>, p: nat, s: nat, m: RefId, buf: BufId, cells: map<RefId, Cell<RefId>>,
               bs: set<RefId>, acq: set<BufId>)
    requires p < |w.pubs| && s < |w.slots| && Last(h, m, buf, cells)
    ensures var w1 := At(w, h, p, Idle, s, VACANT.(hand := Some(m)), bs, acq);
      var w3 := At(w, h, p, Idle, s, VACANT.(out := [m]), bs, acq);
      var over := At(w, Heap(cells, h.returned + [buf]), p, Idle, s, VACANT, bs, acq);
      && Enabled(w3, FlushRelease(s)) && Step(c, w3, FlushRelease(s)) == over
      && Enabled(w1, Discard(s)) && Step(c, w1, Discard(s)) == over
  {
    hide Release;
    SlotTwice(w.slots, s, VACANT.(out := [m]), VACANT);
    SlotTwice(w.slots, s, VACANT.(hand := Some(m)), VACANT);
    assert [m][1..] == [];
  }

  lemma TakesQueued(c: Config, w: World, h: Heap<RefId>, p: nat, s: nat, m: RefId, level: nat, buf: BufId,
                    cells: map<RefId, Cell<RefId>>, bs: set<RefId>, acq: set<BufId>)
    requires p < |w.pubs| && s < |w.slots| && level < 4 && Last(h, m, buf, cells)
    ensures var w0 := At(w, h, p, Idle, s, Queued(m, level), bs, acq);
      && Enabled(w0, Fetch(s)) && Step(c, w0, Fetch(s)) == At(w, h, p, Idle, s, VACANT.(hand := Some(m)), bs, acq)
      && Enabled(w0, Drain(s, level))
      && Step(c, w0, Drain(s, level)) == At(w, Heap(cells, h.returned + [buf]), p, Idle, s, VACANT, bs, acq)
  {
    hide Release, Best, Queued;
    QueuedIs(m, level);
    QueuedRest(m, level);
    SlotTwice(w.slots, s, Queued(m, level), VACANT.(hand := Some(m)));
    SlotTwice(w.slots, s, Queued(m, level), VACANT);
  }

  lemma QueuedRest(m: RefId, level: nat)
    requires level < 4
    ensures Queued(m, level) == Slot(true, Queued(m, level).queues, None, [], [])
  {
  }

  lemma SlotTwice(slots: seq<Slot>, s: nat, a: Slot, b: Slot)
    requires s < |slots|
    ensures slots[s := a][s := b] == slots[s := b]
  {
  }

  /** A published message has its one reference in the queue, and giving that up undoes the whole publish but for the
      buffer that has come back. */
  lemma PublishedIsLast(h: Heap<RefId>, r: RefId, buf: BufId)
    requires r !in h.cells
    ensures Last(Acquire(h, r, buf), r, buf, h.cells)
  {
    assert h.cells[r := Cell(1, Some(buf), None)] - {r} == h.cells;
  }

  /** A message in a batch has its one reference in the queue and its parent one, the child's; giving up the child's gives
      up both, and the batch's buffer comes back. */
  lemma BatchedIsLast(h: Heap<RefId>, r: RefId, k: RefId, buf: BufId)
    requires r !in h.cells && k !in h.cells && r != k
    ensures var cells := h.cells[r := Cell(1, Some(buf), None)][k := Cell(1, None, Some(r))];
      Last(h.(cells := cells), k, buf, h.cells)
  {
    var cells := h.cells[r := Cell(1, Some(buf), None)][k := Cell(1, None, Some(r))];
    assert cells - {k} == h.cells[r := Cell(1, Some(buf), None)];
    assert h.cells[r := Cell(1, Some(buf), None)] - {r} == h.cells;
  }

  /** A batch of one message to a vacant subscriber: when the publisher is done, the child is in the queue and the parent
      lives by it alone. */
  lemma BatchQueues(c: Config, w: World, p: nat, r: RefId, k: RefId, buf: BufId, s: nat, priority: nat)
    requires p < |w.pubs| && w.pubs[p].Idle? && FreshRef(w, r) && FreshRef(w, k) && r != k && buf !in w.acquired && c.queueSize > 0
    requires s < |w.slots| && w.slots[s] == VACANT
    ensures var cells := w.heap.cells[r := Cell(1, Some(buf), None)][k := Cell(1, None, Some(r))];
      Leads(c, w, [StartBatch(p, r, buf), StartChild(p, k, [Target(s, priority)])]
                  + [RetainNext(p), EnqueueNext(p), FinishMessage(p), FinishBatch(p)],
            At(w, w.heap.(cells := cells), p, Idle, s, Queued(k, KnownLevel(priority)), w.batches + {r} - {k}, w.acquired + {buf}))
  {
    hide Leads, Enabled, Step, At, Queued;
    var ts, acq, level := [Target(s, priority)], w.acquired + {buf}, KnownLevel(priority);
    var bs := w.batches + {r} - {k};
    var h1 := Acquire(w.heap, r, buf);
    var h2 := AcquireChild(h1, k, r);
    var h3 := Retain(h2, k);
    var cells := w.heap.cells[r := Cell(1, Some(buf), None)][k := Cell(1, None, Some(r))];
    AtStart(c, w, p, r, buf, s, ts);
    AtChild(c, w, h1, p, r, k, ts, s, w.batches + {r}, acq);
    AtRetain(c, w, h2, p, k, ts, Some(r), s, VACANT, bs, acq);
    AtEnqueue(c, w, h3, p, k, priority, Some(r), s, bs, acq);
    AtFinish(c, w, h3, p, k, Some(r), s, Queued(k, level), bs, acq);
    assert h3.(cells := h3.cells[k := h3.cells[k].(count := 1)]) == h2;
    AtFinishBatch(c, w, h2, p, r, s, Queued(k, level), bs, acq);
    assert h2.cells[r := h2.cells[r].(count := 1)] == cells;
    var w1 := At(w, h1, p, Batching(r), s, VACANT, w.batches + {r}, acq);
    var w2 := At(w, h2, p, Publishing(k, ts, false, Some(r)), s, VACANT, bs, acq);
    var w3 := At(w, h3, p, Publishing(k, ts, true, Some(r)), s, VACANT, bs, acq);
    var w4 := At(w, h3, p, Publishing(k, [], false, Some(r)), s, Queued(k, level), bs, acq);
    var w5 := At(w, h2, p, Batching(r), s, Queued(k, level), bs, acq);
    var w6 := At(w, w.heap.(cells := cells), p, Idle, s, Queued(k, level), bs, acq);
    LeadsFour(c, w2, RetainNext(p), w3, EnqueueNext(p), w4, FinishMessage(p), w5, FinishBatch(p), w6);
    var rest := [RetainNext(p), EnqueueNext(p), FinishMessage(p), FinishBatch(p)];
    LeadsCons(c, w1, StartChild(p, k, ts), w2, rest, w6);
    LeadsCons(c, w, StartBatch(p, r, buf), w1, [StartChild(p, k, ts)] + rest, w6);
    assert [StartBatch(p, r, buf)] + ([StartChild(p, k, ts)] + rest) == [StartBatch(p, r, buf), StartChild(p, k, ts)] + rest;
  }

  lemma AtChild(c: Config, w: World, h: Heap<RefId>, p: nat, r: RefId, k: RefId, ts: seq<Target>, s: nat, bs: set<RefId>, acq: set<BufId>)
    requires p < |w.pubs| && s < |w.slots| && r in h.cells && k !in h.cells
    requires forall i :: 0 <= i < |ts| ==> ts[i].slot == s
    ensures var w0, l := At(w, h, p, Batching(r), s, VACANT, bs, acq), StartChild(p, k, ts);
      && Enabled(w0, l)
      && Step(c, w0, l) == At(w, AcquireChild(h, k, r), p, Publishing(k, ts, false, Some(r)), s, VACANT, bs - {k}, acq)
  {
    var a, b := Batching(r), Publishing(k, ts, false, Some(r));
    assert w.pubs[p := a][p := b] == w.pubs[p := b];
  }

  lemma AtFinishBatch(c: Config, w: World, h: Heap<RefId>, p: nat, r: RefId, s: nat, slot: Slot, bs: set<RefId>, acq: set<BufId>)
    requires p < |w.pubs| && s < |w.slots| && r in h.cells && h.cells[r].count == 2
    ensures var w0, l := At(w, h, p, Batching(r), s, slot, bs, acq), FinishBatch(p);
      Enabled(w0, l) && Step(c, w0, l) == At(w, h.(cells := h.cells[r := h.cells[r].(count := 1)]), p, Idle, s, slot, bs, acq)
  {
    assert w.pubs[p := Batching(r)][p := Idle] == w.pubs[p := Idle];
  }
}
