/** Reference counts on values: the counts, the cascade to a batch parent and the hand-back of buffers. */
module RefHeap {
  import opened Bytes

  type BufId = nat

  /** A live MessageRef: its counter, the buffer it owns (none for a batch child), its batch parent. */
  datatype Cell<R> = Cell(count: int, buf: Option<BufId>, parent: Option<R>)

  /** The live MessageRefs, and the buffers handed back to the pool so far, in order. */
  datatype Heap<R(==)> = Heap(cells: map<R, Cell<R>>, returned: seq<BufId>)

  function Acquire<R>(h: Heap<R>, r: R, buf: BufId): Heap<R>
  {
    h.(cells := h.cells[r := Cell(1, Some(buf), None)])
  }

  function Retain<R>(h: Heap<R>, r: R): Heap<R>
    requires r in h.cells
  {
    h.(cells := h.cells[r := h.cells[r].(count := h.cells[r].count + 1)])
  }

  function AcquireChild<R>(h: Heap<R>, r: R, parent: R): Heap<R>
    requires parent in h.cells
  {
    var h' := Retain(h, parent);
    h'.(cells := h'.cells[r := Cell(1, None, Some(parent))])
  }

  function Drop<R>(h: Heap<R>, r: R): Heap<R>
    requires r in h.cells
  {
    Heap(h.cells - {r}, if h.cells[r].buf.Some? then h.returned + [h.cells[r].buf.value] else h.returned)
  }

  /** Release: the last reference to a child gives up the parent's, the last to a top-level ref its buffer. */
  function Release<R>(h: Heap<R>, r: R): (h': Heap<R>)
    requires r in h.cells
    ensures h'.cells.Keys <= h.cells.Keys
    decreases |h.cells|
  {
    var c := h.cells[r];
    if c.count != 1 then h.(cells := h.cells[r := c.(count := c.count - 1)])
    else
      assert |h.cells - {r}| < |h.cells| by { DropSmaller(h.cells, r); }
      match c.parent
      case Some(p) =>
        var rest := h.(cells := h.cells - {r});
        if p in rest.cells then Release(rest, p) else rest
      case None => Drop(h, r)
  }

  lemma DropSmaller<R>(cells: map<R, Cell<R>>, r: R)
    requires r in cells
    ensures |cells - {r}| < |cells|
  {
    assert (cells - {r}).Keys == cells.Keys - {r};
    assert |(cells - {r}).Keys| == |cells.Keys| - 1;
  }

  // ---- Counts against holders ------------------------------------------------------------------------

  ghost function KidSet<R>(cells: map<R, Cell<R>>, r: R): set<R>
  {
    set c | c in cells && cells[c].parent == Some(r)
  }

  /** The live children of r. */
  ghost function Kids<R>(cells: map<R, Cell<R>>, r: R): nat { |KidSet(cells, r)| }

  /** Every live ref counts exactly its holders and its live children, and is held or has a child; whatever is
      held, and whatever is a parent, is live; a ref owns a buffer exactly when it has no parent. */
  ghost predicate Balanced<R>(cells: map<R, Cell<R>>, held: multiset<R>)
  {
    && (forall r :: r in cells ==> cells[r].count == held[r] + Kids(cells, r) && cells[r].count > 0)
    && (forall r :: r in held ==> r in cells)
    && (forall c :: c in cells && cells[c].parent.Some? ==> cells[c].parent.value in cells)
    && (forall c :: c in cells ==> (cells[c].buf.Some? <==> cells[c].parent.None?))
  }

  lemma KidsAdd<R>(cells: map<R, Cell<R>>, r: R, cell: Cell<R>, q: R)
    requires r !in cells
    ensures Kids(cells[r := cell], q) == Kids(cells, q) + if cell.parent == Some(q) then 1 else 0
  {
    assert KidSet(cells[r := cell], q) == KidSet(cells, q) + if cell.parent == Some(q) then {r} else {};
  }

  lemma KidsSame<R>(cells: map<R, Cell<R>>, r: R, cell: Cell<R>, q: R)
    requires r in cells && cell.parent == cells[r].parent
    ensures Kids(cells[r := cell], q) == Kids(cells, q)
  {
    assert KidSet(cells[r := cell], q) == KidSet(cells, q);
  }

  lemma KidsDrop<R>(cells: map<R, Cell<R>>, r: R, q: R)
    requires r in cells
    ensures Kids(cells, q) == Kids(cells - {r}, q) + if cells[r].parent == Some(q) then 1 else 0
  {
    assert KidSet(cells, q) == KidSet(cells - {r}, q) + if cells[r].parent == Some(q) then {r} else {};
  }

  lemma NoKids<R>(cells: map<R, Cell<R>>, r: R)
    ensures Kids(cells, r) == 0 <==> forall c :: c in cells ==> cells[c].parent != Some(r)
  {
    if c :| c in cells && cells[c].parent == Some(r) {
      assert c in KidSet(cells, r);
    } else {
      assert KidSet(cells, r) == {};
    }
  }

  lemma AcquireBalanced<R>(h: Heap<R>, held: multiset<R>, r: R, buf: BufId)
    requires Balanced(h.cells, held) && r !in h.cells
    ensures Balanced(Acquire(h, r, buf).cells, held + multiset{r})
  {
    NoKids(h.cells, r);
    hide Kids;
    var cells' := Acquire(h, r, buf).cells;
    forall q | q in cells'
      ensures cells'[q].count == (held + multiset{r})[q] + Kids(cells', q) && cells'[q].count > 0
    {
      KidsAdd(h.cells, r, Cell(1, Some(buf), None), q);
    }
  }

  lemma RetainBalanced<R>(h: Heap<R>, held: multiset<R>, r: R)
    requires Balanced(h.cells, held) && r in h.cells
    ensures Balanced(Retain(h, r).cells, held + multiset{r})
  {
    hide Kids;
    var cells' := Retain(h, r).cells;
    forall q | q in cells'
      ensures cells'[q].count == (held + multiset{r})[q] + Kids(cells', q) && cells'[q].count > 0
    {
      KidsSame(h.cells, r, h.cells[r].(count := h.cells[r].count + 1), q);
    }
  }

  lemma AcquireChildBalanced<R>(h: Heap<R>, held: multiset<R>, r: R, parent: R)
    requires Balanced(h.cells, held) && r !in h.cells && parent in h.cells
    ensures Balanced(AcquireChild(h, r, parent).cells, held + multiset{r})
  {
    RetainBalanced(h, held, parent);
    AdoptBalanced(Retain(h, parent).cells, held, r, parent);
  }

  /** A new child takes over the claim its creator has just made on the parent. */
  lemma AdoptBalanced<R>(cells: map<R, Cell<R>>, held: multiset<R>, r: R, parent: R)
    requires Balanced(cells, held + multiset{parent}) && r !in cells
    ensures Balanced(cells[r := Cell(1, None, Some(parent))], held + multiset{r})
  {
    var child := Cell(1, None, Some(parent));
    assert parent in held + multiset{parent};
    NoKids(cells, r);
    hide Kids;
    var cells' := cells[r := child];
    forall q | q in cells'
      ensures cells'[q].count == (held + multiset{r})[q] + Kids(cells', q) && cells'[q].count > 0
    {
      KidsAdd(cells, r, child, q);
    }
  }

  lemma DecrementBalanced<R>(cells: map<R, Cell<R>>, held: multiset<R>, r: R)
    requires Balanced(cells, held) && r in held && cells[r].count != 1
    ensures Balanced(cells[r := cells[r].(count := cells[r].count - 1)], held - multiset{r})
  {
    var cell := cells[r].(count := cells[r].count - 1);
    hide Kids;
    var cells' := cells[r := cell];
    forall q | q in cells'
      ensures cells'[q].count == (held - multiset{r})[q] + Kids(cells', q) && cells'[q].count > 0
    {
      KidsSame(cells, r, cell, q);
    }
  }

  /** Recycling the last reference to r turns its claim on the parent into one its caller has to give up. */
  lemma RecycleBalanced<R>(cells: map<R, Cell<R>>, held: multiset<R>, r: R)
    requires Balanced(cells, held) && r in held && cells[r].count == 1
    ensures cells[r].parent.Some? ==> cells[r].parent.value in cells - {r}
    ensures Balanced(cells - {r},
      held - multiset{r} + if cells[r].parent.Some? then multiset{cells[r].parent.value} else multiset{})
  {
    NoKids(cells, r);
    hide Kids;
    var cells' := cells - {r};
    var held' := held - multiset{r} + if cells[r].parent.Some? then multiset{cells[r].parent.value} else multiset{};
    forall q | q in cells'
      ensures cells'[q].count == held'[q] + Kids(cells', q) && cells'[q].count > 0
    {
      KidsDrop(cells, r, q);
    }
  }

  /** Giving up one held reference keeps every count exact, through the whole cascade. */
  lemma {:induction false} ReleaseBalanced<R>(h: Heap<R>, held: multiset<R>, r: R)
    requires Balanced(h.cells, held) && r in held
    ensures Balanced(Release(h, r).cells, held - multiset{r})
    decreases |h.cells|
  {
    var c := h.cells[r];
    if c.count != 1 {
      DecrementBalanced(h.cells, held, r);
    } else {
      RecycleBalanced(h.cells, held, r);
      DropSmaller(h.cells, r);
      if c.parent.Some? {
        var p := c.parent.value;
        ReleaseBalanced(h.(cells := h.cells - {r}), held - multiset{r} + multiset{p}, p);
        assert held - multiset{r} + multiset{p} - multiset{p} == held - multiset{r};
      }
    }
  }

  // ---- Buffers -----------------------------------------------------------------------------------------

  /** Each buffer is owned by one live ref or has been handed back, never both, never twice. */
  ghost predicate BuffersOnce<R>(h: Heap<R>)
  {
    && (forall i, j :: 0 <= i < j < |h.returned| ==> h.returned[i] != h.returned[j])
    && (forall r :: r in h.cells && h.cells[r].buf.Some? ==> h.cells[r].buf.value !in h.returned)
    && (forall r, q :: r in h.cells && q in h.cells && r != q && h.cells[r].buf.Some? ==> h.cells[r].buf != h.cells[q].buf)
  }

  /** The buffers owned or handed back. */
  ghost function Known<R>(h: Heap<R>): set<BufId>
  {
    (set b | b in h.returned) + set r | r in h.cells && h.cells[r].buf.Some? :: h.cells[r].buf.value
  }

  lemma AcquireOnce<R>(h: Heap<R>, r: R, buf: BufId)
    requires BuffersOnce(h) && r !in h.cells && buf !in Known(h)
    ensures BuffersOnce(Acquire(h, r, buf)) && Known(Acquire(h, r, buf)) == Known(h) + {buf}
  {
    var h' := Acquire(h, r, buf);
    assert h'.cells[r].buf == Some(buf);
    forall b | b in Known(h) + {buf} ensures b in Known(h') {
      if b in Known(h) && b !in h.returned {
        var q :| q in h.cells && h.cells[q].buf == Some(b);
        assert q in h'.cells && h'.cells[q].buf == Some(b);
      }
    }
  }

  /** A step that changes no live ref's buffer and hands nothing back. */
  lemma SameBuffers<R>(h: Heap<R>, h': Heap<R>)
    requires BuffersOnce(h) && h'.returned == h.returned
    requires forall r :: r in h'.cells && h'.cells[r].buf.Some? ==> r in h.cells && h.cells[r].buf == h'.cells[r].buf
    requires forall r :: r in h.cells && h.cells[r].buf.Some? ==> r in h'.cells && h.cells[r].buf == h'.cells[r].buf
    ensures BuffersOnce(h') && Known(h') == Known(h)
  {
  }

  lemma DropOnce<R>(h: Heap<R>, r: R)
    requires BuffersOnce(h) && r in h.cells
    ensures BuffersOnce(Drop(h, r)) && Known(Drop(h, r)) == Known(h)
  {
    var h' := Drop(h, r);
    forall b | b in Known(h) ensures b in Known(h') {
      if b !in h.returned {
        var q :| q in h.cells && h.cells[q].buf == Some(b);
        if q != r {
          assert q in h'.cells && h'.cells[q].buf == Some(b);
        } else {
          assert h'.returned[|h.returned|] == b;
        }
      } else {
        var i :| 0 <= i < |h.returned| && h.returned[i] == b;
        assert h'.returned[i] == b;
      }
    }
  }

  /** A release hands back at most the buffer that has just lost its owner, so nothing is handed back twice. */
  lemma {:induction false} ReleaseOnce<R>(h: Heap<R>, held: multiset<R>, r: R)
    requires Balanced(h.cells, held) && r in held && BuffersOnce(h)
    ensures BuffersOnce(Release(h, r)) && Known(Release(h, r)) == Known(h)
    ensures h.returned <= Release(h, r).returned
    decreases |h.cells|
  {
    assert r in h.cells;
    hide Balanced;
    var c := h.cells[r];
    if c.count != 1 {
      SameBuffers(h, Release(h, r));
    } else if c.parent.Some? {
      var p, h' := c.parent.value, h.(cells := h.cells - {r});
      RecycleBalanced(h.cells, held, r);
      DropSmaller(h.cells, r);
      SameBuffers(h, h');
      ReleaseOnce(h', held - multiset{r} + multiset{p}, p);
    } else {
      DropOnce(h, r);
    }
  }
}
