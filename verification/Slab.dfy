/** The slab allocator: one free list per size class, threaded through a next array. */
module Slab {
  import opened Lists

  const ARENA_SIZE: nat := 64 * 1024 * 1024

  predicate Overlap(a: int, b: int, size: int) { a < b + size && b < a + size }

  predicate InRange(a: int, size: int, base: int) { base < a + size && a < base + ARENA_SIZE }

  function Address(base: nat, idx: nat, size: nat): nat { base + idx * size }

  /** Following `next` from head visits exactly the blocks of `free`, in that order, and stops. */
  predicate Threads(next: seq<int>, head: int, free: seq<nat>)
    decreases free
  {
    if free == [] then head == -1
    else head == free[0] < |next| && Threads(next, next[head], free[1..])
  }

  /** Free and taken blocks partition the arena. */
  ghost predicate Partition(free: seq<nat>, taken: set<nat>, blocks: nat)
  {
    && (forall idx :: idx in taken || idx in free ==> idx < blocks)
    && (forall idx :: 0 <= idx < blocks ==> (idx in free <==> idx !in taken))
  }

  /** Buffers of earlier arenas keep clear of each other and of the current arena. */
  ghost predicate Apart(older: set<nat>, size: nat, base: nat, blocks: nat)
  {
    && (forall a :: a in older && blocks > 0 ==> !InRange(a, size, base))
    && (forall a, b :: a in older && b in older && a != b ==> !Overlap(a, b, size))
  }

  ghost function LiveOf(base: nat, size: nat, taken: set<nat>, older: set<nat>): set<nat>
  {
    older + set idx | idx in taken :: Address(base, idx, size)
  }

  /** One size class. A buffer is known by its address. A buffer handed out and not yet released is live:
      `taken` holds the indices of those in the current arena, `older` the addresses of those in arenas that
      grow has replaced. */
  class SizeClass {
    const blockSize: nat
    var base: nat          // address of the current arena
    var blocks: nat        // 0 until the first grow
    var head: int          // index of the first free block, -1 for none
    var next: array<int>

    ghost var free: seq<nat>   // the free list, in list order
    ghost var taken: set<nat>
    ghost var older: set<nat>

    ghost predicate Valid()
      reads this, next
    {
      && blockSize > 0 && ARENA_SIZE % blockSize == 0
      && (blocks == 0 || blocks == ARENA_SIZE / blockSize)
      && next.Length == blocks
      && Threads(next[..], head, free) && Distinct(free)
      && Partition(free, taken, blocks)
      && Apart(older, blockSize, base, blocks)
    }

    /** The addresses of all live buffers. */
    ghost function Live(): set<nat>
      reads this
    {
      LiveOf(base, blockSize, taken, older)
    }

    constructor (size: nat)
      requires size > 0 && ARENA_SIZE % size == 0
      ensures Valid() && Live() == {} && blockSize == size
    {
      blockSize := size;
      base, blocks, head := 0, 0, -1;
      next := new int[0];
      free, taken, older := [], {}, {};
    }

    /** No two live buffers share a byte. */
    lemma LiveApart(a: nat, b: nat)
      requires Valid() && a in Live() && b in Live() && a != b
      ensures !Overlap(a, b, blockSize)
    {
      if a !in older {
        var i :| i in taken && a == Address(base, i, blockSize);
        if b !in older {
          var j :| j in taken && b == Address(base, j, blockSize);
          AddressesApart(base, i, j, blockSize);
        } else {
          AddressInArena(base, i, blocks, blockSize);
        }
      } else if b !in older {
        var j :| j in taken && b == Address(base, j, blockSize);
        AddressInArena(base, j, blocks, blockSize);
      }
    }

    /** Every block of the arena is on the free list or taken, none is both, none is lost. */
    lemma NoBlockLost()
      requires Valid()
      ensures |free| + |taken| == blocks
    {
      CountPartition(free, taken, blocks);
    }

    /** grow: replaces an exhausted arena. The runtime never hands out memory that a live buffer still uses. */
    method Grow(newBase: nat)
      requires Valid()
      requires head == -1 ==> forall a :: a in Live() ==> !InRange(a, blockSize, newBase)
      modifies this
      ensures Valid() && Live() == old(Live())
      ensures old(head) != -1 ==> base == old(base) && head == old(head) && next == old(next)
      ensures head != -1 && (next == old(next) || fresh(next))
    {
      if head != -1 {
        return;
      }
      BlocksFill(blockSize);
      forall a, b | a in Live() && b in Live() && a != b ensures !Overlap(a, b, blockSize) {
        LiveApart(a, b);
      }
      hide LiveOf, Overlap, InRange, Threads;
      var n := ARENA_SIZE / blockSize;
      var newNext := NewChain(n);
      older, taken := Live(), {};
      next, blocks, base, head := newNext, n, newBase, 0;
      free := From(0, n);
      NothingTaken(base, blockSize, older);
    }

    /** Acquire: pops the head of the free list, growing first when there is none. */
    method Acquire(newBase: nat) returns (a: nat)
      requires Valid()
      requires head == -1 ==> forall b :: b in Live() ==> !InRange(b, blockSize, newBase)
      modifies this
      ensures Valid()
      ensures a !in old(Live()) && Live() == old(Live()) + {a}
      ensures forall b :: b in old(Live()) ==> !Overlap(a, b, blockSize)
    {
      hide LiveOf, Overlap, InRange, Address, Threads, Apart;
      if head == -1 {
        Grow(newBase);
      }
      var idx := head;
      Pop(next[..], head, free);
      a := Address(base, idx, blockSize);
      AddTaken(base, blockSize, taken, older, blocks, idx);
      head := next[idx];
      free := free[1..];
      taken := taken + {idx};
      forall b | b in old(Live()) ensures !Overlap(a, b, blockSize) {
        LiveApart(a, b);
      }
    }

    /** Release: a block of the current arena goes back to the head of the list; a buffer of an earlier arena,
        or of none, is left to the garbage collector. */
    method Release(a: nat)
      requires Valid()
      requires a in Live() || blocks == 0 || !InRange(a, blockSize, base)
      modifies this, next
      ensures Valid()
      ensures Live() == old(Live()) - {a}
    {
      if blocks == 0 {
        older := older - {a};
        return;
      }
      if a < base || a - base >= ARENA_SIZE {
        forall i | i in taken ensures Address(base, i, blockSize) != a {
          AddressInArena(base, i, blocks, blockSize);
        }
        older := older - {a};
        return;
      }
      ghost var i0 :| i0 in taken && a == Address(base, i0, blockSize);
      IndexOfAddress(base, i0, blockSize);
      var idx := (a - base) / blockSize;
      RemoveTaken(base, blockSize, taken, older, blocks, idx);
      hide LiveOf, Overlap, InRange, Address, Threads, Apart;
      Push(next[..], head, free, idx);
      ghost var was := next[..];
      next[idx] := head;
      assert next[..] == was[idx := head];
      head := idx;
      free := [idx] + free;
      taken := taken - {idx};
    }
  }

  // ---- The free list as a list ---------------------------------------------------------------------

  ghost function From(i: nat, n: nat): (s: seq<nat>)
    requires i <= n
    ensures |s| == n - i && forall x :: x in s <==> i <= x < n
    ensures (forall k :: 0 <= k < |s| ==> s[k] == i + k) && Distinct(s)
    decreases n - i
  {
    if i == n then [] else [i] + From(i + 1, n)
  }

  method NewChain(n: nat) returns (next: array<int>)
    requires n >= 1
    ensures fresh(next) && next.Length == n
    ensures Threads(next[..], 0, From(0, n))
  {
    next := new int[n];
    for i := 0 to n - 1
      invariant forall k :: 0 <= k < i ==> next[k] == k + 1
    {
      next[i] := i + 1;
    }
    next[n - 1] := -1;
    ChainFrom(next[..], 0);
  }

  lemma {:induction false} ChainFrom(next: seq<int>, i: nat)
    requires i < |next| && next[|next| - 1] == -1
    requires forall k :: 0 <= k < |next| - 1 ==> next[k] == k + 1
    ensures Threads(next, i, From(i, |next|))
    decreases |next| - i
  {
    if i + 1 < |next| {
      ChainFrom(next, i + 1);
    }
    assert From(i, |next|)[1..] == From(i + 1, |next|);
  }

  lemma Pop(next: seq<int>, head: int, free: seq<nat>)
    requires Threads(next, head, free) && Distinct(free) && head != -1
    ensures free != [] && head == free[0] < |next|
    ensures Threads(next, next[head], free[1..]) && Distinct(free[1..])
    ensures forall x :: x in free[1..] <==> x in free && x != head
  {
    assert free == [free[0]] + free[1..];
  }

  lemma {:induction false} Unthreaded(next: seq<int>, head: int, free: seq<nat>, idx: nat, link: int)
    requires Threads(next, head, free) && idx < |next| && idx !in free
    ensures Threads(next[idx := link], head, free)
    decreases free
  {
    if free != [] {
      Unthreaded(next, next[head], free[1..], idx, link);
    }
  }

  lemma Push(next: seq<int>, head: int, free: seq<nat>, idx: nat)
    requires Threads(next, head, free) && Distinct(free) && idx < |next| && idx !in free
    ensures Threads(next[idx := head], idx, [idx] + free) && Distinct([idx] + free)
  {
    Unthreaded(next, head, free, idx, head);
    assert ([idx] + free)[1..] == free;
  }

  lemma CountPartition(free: seq<nat>, taken: set<nat>, blocks: nat)
    requires Distinct(free) && Partition(free, taken, blocks)
    ensures |free| + |taken| == blocks
  {
    DistinctSize(free);
    DistinctSize(From(0, blocks));
    assert SetOf(free) + taken == SetOf(From(0, blocks));
    assert SetOf(free) !! taken;
  }

  // ---- Addresses -----------------------------------------------------------------------------------

  lemma BlocksFill(size: nat)
    requires size > 0 && ARENA_SIZE % size == 0
    ensures ARENA_SIZE / size >= 1 && (ARENA_SIZE / size) * size == ARENA_SIZE
  {
  }

  lemma AddressesApart(base: nat, i: nat, j: nat, size: nat)
    requires i != j && size > 0
    ensures !Overlap(Address(base, i, size), Address(base, j, size), size)
    ensures Address(base, i, size) != Address(base, j, size)
  {
    if i < j {
      assert (i + 1) * size <= j * size;
    } else {
      assert (j + 1) * size <= i * size;
    }
  }

  lemma AddressInArena(base: nat, idx: nat, blocks: nat, size: nat)
    requires size > 0 && ARENA_SIZE % size == 0 && idx < blocks == ARENA_SIZE / size
    ensures base <= Address(base, idx, size) && Address(base, idx, size) + size <= base + ARENA_SIZE
  {
    BlocksFill(size);
    assert (idx + 1) * size <= blocks * size;
  }

  lemma IndexOfAddress(base: nat, idx: nat, size: nat)
    requires size > 0
    ensures (Address(base, idx, size) - base) / size == idx
  {
    var d := idx * size;
    var q := d / size;
    assert q * size <= d < q * size + size;
    assert q < idx ==> (q + 1) * size <= idx * size;
    assert idx < q ==> (idx + 1) * size <= q * size;
  }

  lemma NothingTaken(base: nat, size: nat, older: set<nat>)
    ensures LiveOf(base, size, {}, older) == older
  {
  }

  lemma AddTaken(base: nat, size: nat, taken: set<nat>, older: set<nat>, blocks: nat, idx: nat)
    requires size > 0 && ARENA_SIZE % size == 0 && idx < blocks == ARENA_SIZE / size
    requires idx !in taken && Apart(older, size, base, blocks)
    ensures Address(base, idx, size) !in LiveOf(base, size, taken, older)
    ensures LiveOf(base, size, taken + {idx}, older) == LiveOf(base, size, taken, older) + {Address(base, idx, size)}
  {
    AddressInArena(base, idx, blocks, size);
    forall j | j in taken ensures Address(base, j, size) != Address(base, idx, size) {
      AddressesApart(base, idx, j, size);
    }
  }

  lemma RemoveTaken(base: nat, size: nat, taken: set<nat>, older: set<nat>, blocks: nat, idx: nat)
    requires size > 0 && ARENA_SIZE % size == 0 && idx < blocks == ARENA_SIZE / size
    requires idx in taken && Apart(older, size, base, blocks)
    ensures LiveOf(base, size, taken - {idx}, older) == LiveOf(base, size, taken, older) - {Address(base, idx, size)}
  {
    AddTaken(base, size, taken - {idx}, older, blocks, idx);
    assert taken - {idx} + {idx} == taken;
  }

  // ---- Choosing a class ----------------------------------------------------------------------------

  const SIZES: seq<nat> := [128, 256, 512, 2048, 8192, 32768]

  /** SlabAllocator.Acquire's class: the smallest that holds the request. Larger requests get a buffer of their own. */
  method ClassFor(size: nat) returns (class_: nat, found: bool)
    ensures found <==> size <= 32768
    ensures found ==> class_ < |SIZES| && size <= SIZES[class_]
    ensures found ==> forall k :: 0 <= k < class_ ==> SIZES[k] < size
  {
    for i := 0 to |SIZES|
      invariant forall k :: 0 <= k < i ==> SIZES[k] < size
    {
      if size <= SIZES[i] {
        assert SIZES[i] <= SIZES[5];
        return i, true;
      }
    }
    assert SIZES[5] < size;
    return 0, false;
  }

  /** SlabAllocator.Release finds the class again from the capacity alone, and every class divides the arena. */
  method ClassOfCapacity(cap: nat) returns (class_: nat, found: bool)
    ensures found <==> cap in SIZES
    ensures found ==> class_ < |SIZES| && SIZES[class_] == cap
  {
    for i := 0 to |SIZES|
      invariant forall k :: 0 <= k < i ==> SIZES[k] != cap
    {
      if cap == SIZES[i] {
        return i, true;
      }
    }
    return 0, false;
  }
}
