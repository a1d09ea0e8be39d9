// A bump allocator over a fixed buffer (StackAllocator/stackallocator.h):
// StackStorage hands out consecutive, aligned regions of its buffer and
// never takes them back; StackAllocator forwards typed requests to a shared
// StackStorage. Addresses are modelled as offsets into the buffer.
module StackAllocators {

  /** current_idx_ rounded up to the next multiple of `alignment`, as
      StackStorage::allocate does before handing out a region. */
  function AlignUp(index: nat, alignment: nat): nat
    requires alignment > 0
  {
    var offset := index % alignment;
    if offset != 0 then index + (alignment - offset) else index
  }

  /** Dividing q * a + r by a, for r < a, gives back q and r. */
  lemma DivModUnique(q: nat, r: nat, a: nat)
    requires r < a
    ensures (q * a + r) / a == q && (q * a + r) % a == r
  {
    var x := q * a + r;
    var d, m := x / a, x % a;
    assert x == d * a + m;
    MulStep(d, q, a);
    MulStep(q, d, a);
  }

  /** A multiple of a smaller factor is at least one `a` below. */
  lemma MulStep(k: nat, q: nat, a: nat)
    ensures k < q ==> k * a + a <= q * a
  {
    if k < q {
      MulMonotone(k + 1, q, a);
      assert (k + 1) * a == k * a + a;
    }
  }

  lemma {:induction false} MulMonotone(k: nat, q: nat, a: nat)
    requires k <= q
    ensures k * a <= q * a
  {
    if k < q {
      MulMonotone(k, q - 1, a);
      assert q * a == (q - 1) * a + a;
    }
  }

  /** AlignUp gives the least multiple of `alignment` that is not below
      `index`: it is a multiple, it is at most alignment - 1 above, and no
      multiple lies between index and it. An aligned index is unchanged. */
  lemma AlignUpLeast(index: nat, alignment: nat, other: nat)
    requires alignment > 0
    ensures AlignUp(index, alignment) % alignment == 0
    ensures index <= AlignUp(index, alignment) < index + alignment
    ensures index % alignment == 0 ==> AlignUp(index, alignment) == index
    ensures index <= other && other % alignment == 0 ==> AlignUp(index, alignment) <= other
  {
    var q, m := index / alignment, index % alignment;
    DivModUnique(q, m, alignment);
    if m != 0 {
      assert AlignUp(index, alignment) == q * alignment + alignment;
      assert q * alignment + alignment == (q + 1) * alignment;
      DivModUnique(q + 1, 0, alignment);
      if index <= other && other % alignment == 0 {
        var k := other / alignment;
        assert other == k * alignment;
        if k <= q {
          MulMonotone(k, q, alignment);
        } else {
          MulMonotone(q + 1, k, alignment);
        }
      }
    }
  }

  /** A region handed out by allocate: `length` bytes from offset `start`. */
  datatype Region = Region(start: nat, length: nat)

  /** The end of a region (one past its last byte). */
  function End(r: Region): nat
  {
    r.start + r.length
  }

  /** StackStorage<N>: a buffer of N bytes and the offset of its first free
      byte. The regions handed out so far are kept as ghost state. */
  class StackStorage {
    const capacity: nat
    var current: nat
    ghost var regions: seq<Region>

    /** Every region handed out ends at or before the first free byte, and
        each one ends at or before the next one starts. */
    ghost predicate Valid()
      reads this
    {
      (forall i :: 0 <= i < |regions| ==> End(regions[i]) <= current)
      && (forall i, j :: 0 <= i < j < |regions| ==> End(regions[i]) <= regions[j].start)
    }

    /** StackStorage(): nothing handed out, the free offset at 0. */
    constructor (n: nat)
      ensures Valid() && capacity == n && current == 0 && regions == []
    {
      capacity := n;
      current := 0;
      regions := [];
    }

    /** allocate(bytes_count, alignment): round the free offset up to the
        alignment, hand out the region there and move the free offset past
        it. The capacity is not checked. */
    method Allocate(bytesCount: nat, alignment: nat) returns (position: nat)
      requires Valid() && alignment > 0
      modifies this
      ensures Valid()
      ensures position == AlignUp(old(current), alignment) && current == position + bytesCount
      ensures regions == old(regions) + [Region(position, bytesCount)]
    {
      var offset := current % alignment;
      if offset != 0 {
        current := current + (alignment - offset);
      }
      position := current;
      current := current + bytesCount;
      regions := regions + [Region(position, bytesCount)];
    }

    /** deallocate(): nothing happens. */
    method Deallocate(position: nat, bytesCount: nat)
      requires Valid()
      ensures Valid() && current == old(current) && regions == old(regions)
    {
    }
  }

  /** Two successive allocations from one storage: the second region is
      aligned, starts at or after the end of the first, and the storage
      keeps every region it handed out disjoint from the others. */
  method AllocateTwice(s: StackStorage, n1: nat, a1: nat, n2: nat, a2: nat) returns (p1: nat, p2: nat)
    requires s.Valid() && a1 > 0 && a2 > 0
    modifies s
    ensures s.Valid() && p1 % a1 == 0 && p2 % a2 == 0
    ensures p1 + n1 <= p2 && s.current == p2 + n2
    ensures s.regions == old(s.regions) + [Region(p1, n1), Region(p2, n2)]
  {
    p1 := s.Allocate(n1, a1);
    AlignUpLeast(old(s.current), a1, 0);
    p2 := s.Allocate(n2, a2);
    AlignUpLeast(p1 + n1, a2, 0);
  }

  /** StackAllocator<T, N>: a shared StackStorage and sizeof(T), the size
      and alignment of one T. */
  class StackAllocator<T> {
    var storage: StackStorage
    const elemSize: nat

    /** StackAllocator(storage). */
    constructor (storage: StackStorage, elemSize: nat)
      requires elemSize > 0
      ensures this.storage == storage && this.elemSize == elemSize
    {
      this.storage := storage;
      this.elemSize := elemSize;
    }

    /** The converting constructor from an allocator of another element
        type: the same storage. */
    constructor Rebound<A>(other: StackAllocator<A>, elemSize: nat)
      requires elemSize > 0
      ensures storage == other.storage && this.elemSize == elemSize
    {
      storage := other.storage;
      this.elemSize := elemSize;
    }

    /** operator=: take the other allocator's storage. */
    method AssignFrom<A>(other: StackAllocator<A>)
      modifies this
      ensures storage == other.storage
    {
      storage := other.storage;
    }

    /** allocate(n): n * sizeof(T) bytes aligned to sizeof(T). */
    method Allocate(count: nat) returns (position: nat)
      requires storage.Valid() && elemSize > 0
      modifies storage
      ensures storage.Valid()
      ensures position == AlignUp(old(storage.current), elemSize)
      ensures storage.current == position + count * elemSize
      ensures storage.regions == old(storage.regions) + [Region(position, count * elemSize)]
    {
      position := storage.Allocate(count * elemSize, elemSize);
    }

    /** deallocate(): nothing happens. */
    method Deallocate(position: nat, count: nat)
      requires storage.Valid()
      ensures storage.Valid() && storage.current == old(storage.current)
    {
    }
  }

  /** operator== on allocators: they share one storage. */
  predicate Equal<A, B>(lhs: StackAllocator<A>, rhs: StackAllocator<B>)
    reads lhs, rhs
  {
    lhs.storage == rhs.storage
  }

  /** operator!= on allocators: they use different storages. */
  predicate NotEqual<A, B>(lhs: StackAllocator<A>, rhs: StackAllocator<B>)
    reads lhs, rhs
  {
    lhs.storage != rhs.storage
  }

  /** Allocator equality is an equivalence, and != is its negation. */
  lemma EqualityIsEquivalence<A, B, C>(a: StackAllocator<A>, b: StackAllocator<B>, c: StackAllocator<C>)
    ensures Equal(a, a)
    ensures Equal(a, b) <==> Equal(b, a)
    ensures Equal(a, b) && Equal(b, c) ==> Equal(a, c)
    ensures NotEqual(a, b) <==> !Equal(a, b)
  {
  }
}

