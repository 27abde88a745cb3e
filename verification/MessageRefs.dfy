/** Reference-counted message buffers as the objects that carry them. */
module MessageRefs {
  import opened Bytes
  import opened RefHeap

  /** The buffer pool, as the history of what came back to it. */
  class BufferPool {
    var returned: seq<BufId>

    constructor () { returned := []; }

    method ReleaseBuffer(b: BufId)
      modifies this
      ensures returned == old(returned) + [b]
    {
      returned := returned + [b];
    }
  }

  /** The live refs among `refs`; a pooled object has ref == 0 and is no part of it. */
  ghost function HeapOf(refs: set<MessageRef>, pool: BufferPool): Heap<MessageRef>
    reads refs, pool
  {
    Heap(map m | m in refs && m.ref > 0 :: m.ToCell(), pool.returned)
  }

  class MessageRef {
    var buf: Option<BufId>
    var frame: seq<byte>
    var ref: int
    var expiresAt: int
    var offset: nat
    var parent: MessageRef?

    ghost function ToCell(): Cell<MessageRef>
      reads this
    {
      var p: Option<MessageRef> := if parent == null then None else Some(parent);
      Cell(ref, buf, p)
    }

    /** An object of the pool. */
    constructor ()
      ensures ref == 0
    {
      buf, frame, ref, expiresAt, offset, parent := None, [], 0, 0, 0, null;
    }

    /** AcquireMessageRef on an object taken from the pool. */
    method AcquireMessageRef(b: BufId, ghost refs: set<MessageRef>, ghost pool: BufferPool)
      requires this in refs && ref == 0
      modifies this
      ensures HeapOf(refs, pool) == Acquire(old(HeapOf(refs, pool)), this, b)
      ensures expiresAt == 0 && offset == 0
    {
      buf, frame, expiresAt, offset, parent := Some(b), [], 0, 0, null;
      ref := 1;
    }

    /** AcquireChildMessageRef on an object taken from the pool. */
    method AcquireChildMessageRef(p: MessageRef, subFrame: seq<byte>, topicOffset: nat, expiry: int,
                                  ghost refs: set<MessageRef>, ghost pool: BufferPool)
      requires this in refs && p in refs && ref == 0 && p.ref > 0
      modifies this, p
      ensures HeapOf(refs, pool) == AcquireChild(old(HeapOf(refs, pool)), this, p)
      ensures frame == subFrame && offset == topicOffset && expiresAt == expiry
    {
      ghost var h := HeapOf(refs, pool);
      BecomeChild(p, subFrame, topicOffset, expiry, refs, pool);
      p.Retain(refs, pool);
      assert HeapOf(refs, pool).cells == AcquireChild(h, this, p).cells;
    }

    method BecomeChild(p: MessageRef, subFrame: seq<byte>, topicOffset: nat, expiry: int,
                       ghost refs: set<MessageRef>, ghost pool: BufferPool)
      requires this in refs && ref == 0
      modifies this
      ensures var h := old(HeapOf(refs, pool));
        HeapOf(refs, pool) == h.(cells := h.cells[this := Cell(1, None, Some(p))])
      ensures frame == subFrame && offset == topicOffset && expiresAt == expiry
    {
      buf, frame, expiresAt, offset, parent := None, subFrame, expiry, topicOffset, p;
      ref := 1;
    }

    method Retain(ghost refs: set<MessageRef>, ghost pool: BufferPool)
      requires this in refs && ref > 0
      modifies this`ref
      ensures HeapOf(refs, pool) == RefHeap.Retain(old(HeapOf(refs, pool)), this)
    {
      ref := ref + 1;
    }

    /** ref.Add(-1). */
    method Decrement(ghost refs: set<MessageRef>, ghost pool: BufferPool)
      requires this in refs && ref > 0
      modifies this`ref
      ensures ref == old(ref) - 1
      ensures var h := old(HeapOf(refs, pool));
        HeapOf(refs, pool) == if ref == 0 then h.(cells := h.cells - {this})
                              else h.(cells := h.cells[this := h.cells[this].(count := ref)])
    {
      ref := ref - 1;
    }

    /** protocol.ReleaseBuffer on the buffer of a ref nobody counts any more. */
    method HandBack(pool: BufferPool, ghost refs: set<MessageRef>)
      requires buf.Some?
      modifies pool
      ensures var h := old(HeapOf(refs, pool));
        HeapOf(refs, pool) == h.(returned := h.returned + [buf.value])
    {
      pool.ReleaseBuffer(buf.value);
    }

    /** Back to the pool: the fields of a ref nobody counts any more. */
    method Recycle(ghost refs: set<MessageRef>, ghost pool: BufferPool)
      requires this !in HeapOf(refs, pool).cells
      requires this in refs
      modifies this
      ensures HeapOf(refs, pool) == old(HeapOf(refs, pool))
    {
      buf, parent, expiresAt, offset := None, null, 0, 0;
    }

    /** Release by a holder: the counter goes down, and at zero the claim on the parent or the buffer goes too. */
    method Release(pool: BufferPool, ghost refs: set<MessageRef>, ghost held: multiset<MessageRef>)
      requires Balanced(HeapOf(refs, pool).cells, held) && this in held
      modifies refs, pool
      ensures HeapOf(refs, pool) == RefHeap.Release(old(HeapOf(refs, pool)), this)
      ensures Balanced(HeapOf(refs, pool).cells, held - multiset{this})
      decreases |HeapOf(refs, pool).cells|
    {
      ghost var h := HeapOf(refs, pool);
      assert this in h.cells && h.cells[this] == ToCell();
      ReleaseBalanced(h, held, this);
      if ref == 1 {
        RecycleBalanced(h.cells, held, this);
        DropSmaller(h.cells, this);
      }
      hide HeapOf, Balanced, KidSet;
      Decrement(refs, pool);
      if ref == 0 {
        if parent != null {
          parent.Release(pool, refs, held - multiset{this} + multiset{parent});
        } else if buf.Some? {
          HandBack(pool, refs);
        }
        Recycle(refs, pool);
      }
    }
  }
}
