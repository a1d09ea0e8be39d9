// A chunked double-ended queue (Deque/deque.h). The elements live in
// fixed-size chunks of CHUNK_SIZE slots; `chunks` is the map of chunks in
// order, and the first and last element sit at slot `beginPos` of chunk
// `beginIdx` and at slot `endPos` of chunk `endIdx`. Position `pos` of the
// deque is slot `(beginPos + pos) % CHUNK_SIZE` of chunk
// `beginIdx + (beginPos + pos) / CHUNK_SIZE`.
module Deques {

  const CHUNK_SIZE: nat := 16

  // size_t, the type of positions and of the iterator's `pos_`
  const SIZE_MODULUS: int := 0x1_0000_0000_0000_0000

  // int32_t, the iterator's difference_type
  const INT32_MODULUS: int := 0x1_0000_0000
  const INT32_MAX: int := 0x7fff_ffff

  /** What `at` yields: the element, or the out_of_range exception. */
  datatype Access<T> = Found(value: T) | OutOfRange

  // ---------------------------------------------------------------------
  // The index fields and how each operation moves them
  // ---------------------------------------------------------------------

  /** The five index fields of a deque. */
  datatype Span = Span(beginIdx: nat, endIdx: nat, beginPos: nat, endPos: nat, size: nat)

  /** Linear slot number of the first element. */
  function First(s: Span): nat
  {
    s.beginIdx * CHUNK_SIZE + s.beginPos
  }

  /** Linear slot number of the last element. */
  function Last(s: Span): nat
  {
    s.endIdx * CHUNK_SIZE + s.endPos
  }

  /** The intended relation between the two ends: `size` elements run from
      the first slot to the last one. */
  predicate Contiguous(s: Span)
  {
    First(s) + s.size == Last(s) + 1
  }

  /** How far reallocate() shifts both chunk indices: the old map size,
      or 1 for an empty map. */
  function Growth(mapSize: nat): (r: nat)
    ensures r >= 1 && (mapSize > 0 ==> r == mapSize)
  {
    if mapSize == 0 then 1 else mapSize
  }

  /** The index fields after reallocate(). */
  function Shifted(s: Span, mapSize: nat): Span
  {
    s.(beginIdx := s.beginIdx + Growth(mapSize), endIdx := s.endIdx + Growth(mapSize))
  }

  /** The map size after push_back() on a map of `mapSize` chunks. */
  function MapAfterPushBack(s: Span, mapSize: nat): nat
  {
    if mapSize == 0 then 3
    else if s.endPos == CHUNK_SIZE - 1 && s.endIdx == mapSize - 1 then 3 * mapSize
    else mapSize
  }

  /** The index fields after push_back(). */
  function PushBackSpan(s: Span, mapSize: nat): Span
  {
    if mapSize == 0 then
      Span(s.beginIdx + 1, s.endIdx + 1, CHUNK_SIZE - 1, CHUNK_SIZE - 1, s.size + 1)
    else if s.endPos < CHUNK_SIZE - 1 then
      s.(endPos := s.endPos + 1, size := s.size + 1)
    else
      var t := if s.endIdx == mapSize - 1 then Shifted(s, mapSize) else s;
      t.(endIdx := t.endIdx + 1, endPos := 0, size := s.size + 1)
  }

  /** The map size after push_front() on a map of `mapSize` chunks. */
  function MapAfterPushFront(s: Span, mapSize: nat): nat
  {
    if mapSize == 0 then 3
    else if s.beginPos == 0 && s.beginIdx == 0 then 3 * mapSize
    else mapSize
  }

  /** The index fields after push_front(). */
  function PushFrontSpan(s: Span, mapSize: nat): Span
  {
    if mapSize == 0 then
      Span(s.beginIdx + 1, s.endIdx + 1, CHUNK_SIZE - 1, CHUNK_SIZE - 1, s.size + 1)
    else if s.beginPos > 0 then
      s.(beginPos := s.beginPos - 1, size := s.size + 1)
    else
      var t := if s.beginIdx == 0 then Shifted(s, mapSize) else s;
      t.(beginIdx := if t.beginIdx == 0 then 0 else t.beginIdx - 1,
         beginPos := CHUNK_SIZE - 1, size := s.size + 1)
  }

  /** The index fields after pop_front() as written: the begin slot moves
      on, except from the last slot of the end chunk, where it stays. */
  function PopFrontSpan(s: Span): Span
    requires s.size > 0
  {
    if s.beginPos < CHUNK_SIZE - 1 then
      s.(beginPos := s.beginPos + 1, size := s.size - 1)
    else if s.beginIdx < s.endIdx then
      s.(beginIdx := s.beginIdx + 1, beginPos := 0, size := s.size - 1)
    else
      s.(size := s.size - 1)
  }

  /** The index fields after pop_back() as written: from slot 0 of a chunk
      the end moves to the previous chunk, but it is `beginPos` that is
      reset to 0 and `endPos` stays 0; from slot 0 of the begin chunk the
      end stays. */
  function PopBackSpan(s: Span): Span
    requires s.size > 0
  {
    if s.endPos > 0 then
      s.(endPos := s.endPos - 1, size := s.size - 1)
    else if s.beginIdx < s.endIdx then
      s.(endIdx := s.endIdx - 1, beginPos := 0, size := s.size - 1)
    else
      s.(size := s.size - 1)
  }

  /** pop_back() with the end moved to the last slot of the previous chunk,
      and with an emptied deque's begin moved past its end. */
  function PopBackSpanCorrected(s: Span): Span
    requires s.size > 0
  {
    if s.endPos > 0 then
      s.(endPos := s.endPos - 1, size := s.size - 1)
    else if s.beginIdx < s.endIdx then
      s.(endIdx := s.endIdx - 1, endPos := CHUNK_SIZE - 1, size := s.size - 1)
    else
      s.(beginPos := s.beginPos + 1, size := s.size - 1)
  }

  /** pop_front() with an emptied deque's end moved back before its begin
      when the begin cannot move on inside its chunk. */
  function PopFrontSpanCorrected(s: Span): Span
    requires s.size > 0
  {
    if s.beginPos < CHUNK_SIZE - 1 then
      s.(beginPos := s.beginPos + 1, size := s.size - 1)
    else if s.beginIdx < s.endIdx then
      s.(beginIdx := s.beginIdx + 1, beginPos := 0, size := s.size - 1)
    else
      s.(endIdx := s.beginIdx, endPos := s.beginPos - 1, size := s.size - 1)
  }

  /** push_back keeps the ends contiguous and appends one slot after the
      last; the first slot moves only with a reallocation. */
  lemma PushBackContiguous(s: Span, mapSize: nat)
    requires mapSize == 0 || Contiguous(s)
    requires mapSize == 0 ==> s.beginIdx == 0 && s.endIdx == 0 && s.size == 0
    requires s.endPos < CHUNK_SIZE
    ensures Contiguous(PushBackSpan(s, mapSize))
    ensures mapSize > 0 ==>
      First(PushBackSpan(s, mapSize)) == First(s) + CHUNK_SIZE * (MapAfterPushBack(s, mapSize) - mapSize) / 2
  {
  }

  /** push_front keeps the ends contiguous and prepends one slot before the
      first. */
  lemma PushFrontContiguous(s: Span, mapSize: nat)
    requires mapSize == 0 || Contiguous(s)
    requires mapSize == 0 ==> s.beginIdx == 0 && s.endIdx == 0 && s.size == 0
    requires s.beginPos < CHUNK_SIZE
    ensures Contiguous(PushFrontSpan(s, mapSize))
    ensures mapSize > 0 ==>
      First(PushFrontSpan(s, mapSize)) + 1 == First(s) + CHUNK_SIZE * (MapAfterPushFront(s, mapSize) - mapSize) / 2
  {
  }

  /** pop_front keeps the ends contiguous and drops the first slot, unless
      it removes the only element and that element sits in the last slot of
      its chunk. */
  lemma PopFrontContiguous(s: Span)
    requires Contiguous(s) && s.size > 0 && s.beginPos < CHUNK_SIZE && s.endPos < CHUNK_SIZE
    ensures Contiguous(PopFrontSpan(s)) <==> s.size > 1 || s.beginPos < CHUNK_SIZE - 1
    ensures s.size > 1 || s.beginPos < CHUNK_SIZE - 1 ==> First(PopFrontSpan(s)) == First(s) + 1
  {
  }

  /** pop_back keeps the ends contiguous and drops the last slot when the
      last element is not in slot 0 of its chunk. */
  lemma PopBackContiguous(s: Span)
    requires Contiguous(s) && s.size > 0 && s.endPos > 0
    ensures Contiguous(PopBackSpan(s)) && First(PopBackSpan(s)) == First(s)
  {
  }

  /** As written, pop_back from slot 0 of a chunk that is not the first
      moves the first element to slot 0 of its chunk and leaves the end 16
      slots back instead of 1, so the elements are no longer the old ones
      minus the last: position 0 now reads `beginPos` slots earlier. */
  lemma PopBackAtChunkStart(s: Span)
    requires Contiguous(s) && s.size > 0 && s.endPos == 0 && s.beginIdx < s.endIdx
    requires s.beginPos < CHUNK_SIZE
    ensures First(PopBackSpan(s)) == First(s) - s.beginPos
    ensures Last(PopBackSpan(s)) == Last(s) - CHUNK_SIZE
    ensures Contiguous(PopBackSpan(s)) <==> s.beginPos == CHUNK_SIZE - 1
  {
  }

  /** As written, popping the only element from either end, when it sits in
      the slot the end cannot move past, leaves first and last on the same
      slot of an empty deque. */
  lemma PopLastElementBreaksContiguity(s: Span)
    requires Contiguous(s) && s.size == 1 && s.beginPos < CHUNK_SIZE && s.endPos < CHUNK_SIZE
    ensures s.beginPos == CHUNK_SIZE - 1 ==> !Contiguous(PopFrontSpan(s)) && First(PopFrontSpan(s)) == Last(PopFrontSpan(s))
    ensures s.endPos == 0 ==> !Contiguous(PopBackSpan(s)) && First(PopBackSpan(s)) == Last(PopBackSpan(s))
  {
  }

  /** The concrete sequence: push_back(1) on a new deque, pop_front(), then
      push_back(2). The deque holds one element, but position 0 reads slot
      31, the slot of the popped 1, while the 2 went to slot 32. */
  lemma StaleFrontAfterPopFront()
    ensures var s1 := PushBackSpan(Span(0, 0, 0, 0, 0), 0);
      var s2 := PopFrontSpan(s1);
      var s3 := PushBackSpan(s2, 3);
      s1 == Span(1, 1, 15, 15, 1)
      && s3.size == 1 && First(s3) == 31 && Last(s3) == 32
  {
  }

  /** The corrected pop_back always keeps the ends contiguous and drops
      exactly the last slot. */
  lemma PopBackCorrectedContiguous(s: Span)
    requires Contiguous(s) && s.size > 0 && s.beginPos < CHUNK_SIZE && s.endPos < CHUNK_SIZE
    ensures Contiguous(PopBackSpanCorrected(s))
    ensures First(PopBackSpanCorrected(s)) == First(s) || PopBackSpanCorrected(s).size == 0
    ensures PopBackSpanCorrected(s).beginPos < CHUNK_SIZE && PopBackSpanCorrected(s).endPos < CHUNK_SIZE
  {
  }

  /** The corrected pop_front always keeps the ends contiguous and drops
      exactly the first slot. */
  lemma PopFrontCorrectedContiguous(s: Span)
    requires Contiguous(s) && s.size > 0 && s.beginPos < CHUNK_SIZE && s.endPos < CHUNK_SIZE
    ensures Contiguous(PopFrontSpanCorrected(s))
    ensures First(PopFrontSpanCorrected(s)) == First(s) + 1 || PopFrontSpanCorrected(s).size == 0
    ensures PopFrontSpanCorrected(s).beginPos < CHUNK_SIZE && PopFrontSpanCorrected(s).endPos < CHUNK_SIZE
  {
  }

  // ---------------------------------------------------------------------
  // Iterators: a position, with size_t and int32_t arithmetic
  // ---------------------------------------------------------------------

  /** common_iterator: a position in the deque (size_t). */
  datatype Iterator = Iterator(pos: nat)

  /** Reduction to size_t. */
  function ToSize(x: int): (r: nat)
    ensures r < SIZE_MODULUS
    ensures 0 <= x < SIZE_MODULUS ==> r == x
  {
    x % SIZE_MODULUS
  }

  /** Conversion to int32_t (two's complement). */
  function ToInt32(x: int): (r: int)
    ensures -INT32_MAX - 1 <= r <= INT32_MAX
    ensures -INT32_MAX - 1 <= x <= INT32_MAX ==> r == x
    ensures (r - x) % INT32_MODULUS == 0
  {
    (x + INT32_MAX + 1) % INT32_MODULUS - (INT32_MAX + 1)
  }

  /** operator++: one position on, wrapping from the largest size_t to 0. */
  function Next(it: Iterator): (r: Iterator)
    ensures r.pos < SIZE_MODULUS
    ensures it.pos + 1 < SIZE_MODULUS ==> r.pos == it.pos + 1
    ensures it.pos == SIZE_MODULUS - 1 ==> r.pos == 0
  {
    Iterator(ToSize(it.pos + 1))
  }

  /** operator--: one position back, wrapping from 0 to the largest size_t. */
  function Prev(it: Iterator): (r: Iterator)
    ensures r.pos < SIZE_MODULUS
    ensures 0 < it.pos <= SIZE_MODULUS ==> r.pos == it.pos - 1
    ensures it.pos == 0 ==> r.pos == SIZE_MODULUS - 1
  {
    Iterator(ToSize(it.pos - 1))
  }

  /** operator+ and operator+= with a difference_type offset. */
  function Advance(it: Iterator, offset: int): (r: Iterator)
    ensures r.pos < SIZE_MODULUS
    ensures 0 <= it.pos + offset < SIZE_MODULUS ==> r.pos == it.pos + offset
    ensures (r.pos - (it.pos + offset)) % SIZE_MODULUS == 0
  {
    Iterator(ToSize(it.pos + offset))
  }

  /** operator- and operator-= with a difference_type offset. */
  function Retreat(it: Iterator, offset: int): (r: Iterator)
    ensures r.pos < SIZE_MODULUS
    ensures 0 <= it.pos - offset < SIZE_MODULUS ==> r.pos == it.pos - offset
    ensures (r.pos - (it.pos - offset)) % SIZE_MODULUS == 0
  {
    Iterator(ToSize(it.pos - offset))
  }

  /** The difference of two iterators: both positions cast to int32_t. */
  function Distance(a: Iterator, b: Iterator): (r: int)
    ensures -INT32_MAX - 1 <= r <= INT32_MAX
    ensures a.pos <= INT32_MAX && b.pos <= INT32_MAX ==> r == a.pos - b.pos
    ensures (r - (a.pos - b.pos)) % INT32_MODULUS == 0
  {
    ToInt32(ToInt32(a.pos) - ToInt32(b.pos))
  }

  /** ++ and -- undo each other on every size_t position. */
  lemma NextPrev(it: Iterator)
    requires it.pos < SIZE_MODULUS
    ensures Prev(Next(it)) == it && Next(Prev(it)) == it
  {
  }

  /** Moving forward by an offset and back by it returns to the start. */
  lemma AdvanceRetreat(it: Iterator, offset: int)
    requires it.pos < SIZE_MODULUS
    ensures Retreat(Advance(it, offset), offset) == it
  {
    var x := it.pos + offset;
    assert x % SIZE_MODULUS - offset == it.pos - SIZE_MODULUS * (x / SIZE_MODULUS);
  }

  /** On positions that fit in int32_t the difference is the exact
      difference, and advancing by it reaches the other iterator. */
  lemma DistanceAdvance(a: Iterator, b: Iterator)
    requires a.pos <= INT32_MAX && b.pos <= INT32_MAX
    ensures Distance(a, b) == a.pos - b.pos
    ensures Advance(b, Distance(a, b)) == a
  {
  }

  /** Positions that differ by 2^32 have difference 0. */
  lemma DistanceWraps(a: Iterator)
    requires a.pos <= INT32_MAX
    ensures Distance(Iterator(a.pos + INT32_MODULUS), a) == 0
  {
  }

  /** The index fields after `k` pop_back() calls, as clear() makes them. */
  function PopBackSpans(s: Span, k: nat): (r: Span)
    requires k <= s.size
    ensures r.size == s.size - k
  {
    if k == 0 then s else PopBackSpan(PopBackSpans(s, k - 1))
  }

  // ---------------------------------------------------------------------
  // Chunk contents by linear slot number
  // ---------------------------------------------------------------------

  /** Every chunk of the map has CHUNK_SIZE slots. */
  predicate ChunkSized<T>(cs: seq<array<T>>)
  {
    forall i :: 0 <= i < |cs| ==> cs[i].Length == CHUNK_SIZE
  }

  /** Entries i and j of the map are different chunks. */
  predicate Apart<T>(cs: seq<array<T>>, i: nat, j: nat)
    requires i < |cs| && j < |cs|
  {
    cs[i] != cs[j]
  }

  /** No chunk appears twice in the map. */
  predicate Distinct<T>(cs: seq<array<T>>)
  {
    forall i, j :: 0 <= i < j < |cs| ==> Apart(cs, i, j)
  }

  /** The index fields fit a map of `mapSize` chunks. */
  predicate Fits(s: Span, mapSize: nat)
  {
    s.beginPos < CHUNK_SIZE && s.endPos < CHUNK_SIZE && s.beginIdx <= s.endIdx < mapSize
  }

  /** The contents of every chunk, in map order. */
  ghost function Snapshot<T>(cs: seq<array<T>>): (v: seq<seq<T>>)
    reads cs
    ensures |v| == |cs| && forall i :: 0 <= i < |cs| ==> v[i] == cs[i][..]
  {
    seq(|cs|, i requires 0 <= i < |cs| reads cs => cs[i][..])
  }

  /** The contents of a run of chunks are that run of the contents. */
  lemma SnapshotSlice<T>(cs: seq<array<T>>, lo: nat, hi: nat)
    requires lo <= hi <= |cs|
    ensures Snapshot(cs)[lo..hi] == Snapshot(cs[lo..hi])
  {
  }

  /** Every chunk holds CHUNK_SIZE values. */
  predicate Rect<T>(v: seq<seq<T>>)
  {
    forall i :: 0 <= i < |v| ==> |v[i]| == CHUNK_SIZE
  }

  /** The contents of the `n` linear slots from slot `b` on: slot k is slot
      k % CHUNK_SIZE of chunk k / CHUNK_SIZE. */
  function Cells<T>(v: seq<seq<T>>, b: nat, n: nat): (r: seq<T>)
    requires Rect(v) && b + n <= |v| * CHUNK_SIZE
    ensures |r| == n
  {
    seq(n, i requires 0 <= i < n => v[(b + i) / CHUNK_SIZE][(b + i) % CHUNK_SIZE])
  }

  /** Moving a map into a larger one at chunk offset m moves every slot by
      m chunks and keeps its contents. */
  lemma CellsShift<T>(v: seq<seq<T>>, w: seq<seq<T>>, b: nat, n: nat, m: nat)
    requires Rect(v) && Rect(w) && b + n <= |v| * CHUNK_SIZE
    requires m + |v| <= |w| && w[m..m + |v|] == v
    ensures Cells(w, b + m * CHUNK_SIZE, n) == Cells(v, b, n)
  {
    var now, before := Cells(w, b + m * CHUNK_SIZE, n), Cells(v, b, n);
    forall i | 0 <= i < n
      ensures now[i] == before[i]
    {
      var k := b + i;
      assert (k + m * CHUNK_SIZE) / CHUNK_SIZE == k / CHUNK_SIZE + m;
      assert (k + m * CHUNK_SIZE) % CHUNK_SIZE == k % CHUNK_SIZE;
      assert w[k / CHUNK_SIZE + m] == v[k / CHUNK_SIZE];
    }
  }

  /** Dropping the first of n + 1 cells leaves the n from the next slot
      on. */
  lemma CellsDropFirst<T>(v: seq<seq<T>>, b: nat, n: nat)
    requires Rect(v) && b + n + 1 <= |v| * CHUNK_SIZE
    ensures Cells(v, b, n + 1)[1..] == Cells(v, b + 1, n)
  {
    var now, want := Cells(v, b, n + 1)[1..], Cells(v, b + 1, n);
    assert forall i | 0 <= i < n :: now[i] == want[i];
  }

  /** Dropping the last of n + 1 cells leaves the first n. */
  lemma CellsDropLast<T>(v: seq<seq<T>>, b: nat, n: nat)
    requires Rect(v) && b + n + 1 <= |v| * CHUNK_SIZE
    ensures Cells(v, b, n + 1)[..n] == Cells(v, b, n)
  {
    var now, want := Cells(v, b, n + 1)[..n], Cells(v, b, n);
    assert forall i | 0 <= i < n :: now[i] == want[i];
  }

  /** Writing x into slot o of chunk c changes the one cell of slot
      c * CHUNK_SIZE + o, if it is among the n from b on, and no other. */
  lemma CellsStore<T>(v: seq<seq<T>>, c: nat, o: nat, x: T, b: nat, n: nat)
    requires Rect(v) && c < |v| && o < CHUNK_SIZE && b + n <= |v| * CHUNK_SIZE
    ensures Rect(v[c := v[c][o := x]])
    ensures var k := c * CHUNK_SIZE + o;
      Cells(v[c := v[c][o := x]], b, n) == if b <= k < b + n then Cells(v, b, n)[k - b := x] else Cells(v, b, n)
  {
    var w := v[c := v[c][o := x]];
    var k := c * CHUNK_SIZE + o;
    var now, before := Cells(w, b, n), Cells(v, b, n);
    forall i | 0 <= i < n
      ensures now[i] == if b + i == k then x else before[i]
    {
      var j := b + i;
      if j == k {
        assert j / CHUNK_SIZE == c && j % CHUNK_SIZE == o;
      } else {
        assert j / CHUNK_SIZE != c || j % CHUNK_SIZE != o;
      }
    }
  }

  /** A contiguous span that fits the map has its slots inside the map. */
  lemma SpanInMap(s: Span, mapSize: nat)
    requires Fits(s, mapSize) && Contiguous(s)
    ensures First(s) + s.size <= mapSize * CHUNK_SIZE
  {
  }

  /** pop_front() on the elements: when the ends stay contiguous, the cells
      are the old ones without the first. */
  lemma PopFrontCells<T>(v: seq<seq<T>>, s: Span)
    requires Rect(v) && Fits(s, |v|) && Contiguous(s) && s.size > 0
    requires s.size > 1 || s.beginPos < CHUNK_SIZE - 1
    ensures Fits(PopFrontSpan(s), |v|) && Contiguous(PopFrontSpan(s))
    ensures First(s) + s.size <= |v| * CHUNK_SIZE
    ensures Cells(v, First(PopFrontSpan(s)), s.size - 1) == Cells(v, First(s), s.size)[1..]
  {
    PopFrontContiguous(s);
  }

  /** pop_back() on the elements: when the last element is not in slot 0 of
      its chunk, the cells are the old ones without the last. */
  lemma PopBackCells<T>(v: seq<seq<T>>, s: Span)
    requires Rect(v) && Fits(s, |v|) && Contiguous(s) && s.size > 0 && s.endPos > 0
    ensures Fits(PopBackSpan(s), |v|) && Contiguous(PopBackSpan(s))
    ensures First(PopBackSpan(s)) == First(s) && First(s) + s.size <= |v| * CHUNK_SIZE
    ensures Cells(v, First(s), s.size - 1) == Cells(v, First(s), s.size)[..s.size - 1]
  {
    PopBackContiguous(s);
  }

  /** The index fields after push_back() fit the new map, stay contiguous,
      and move the first slot by as many chunks as the old map is placed
      into the new one. */
  lemma PushBackShape(s: Span, mapSize: nat, grown: nat)
    requires mapSize == 0 ==> s == Span(0, 0, 0, 0, 0)
    requires mapSize > 0 ==> Fits(s, mapSize) && Contiguous(s)
    requires grown == MapAfterPushBack(s, mapSize)
    ensures var t := PushBackSpan(s, mapSize);
      Fits(t, grown) && Contiguous(t) && First(s) + s.size <= mapSize * CHUNK_SIZE
      && (mapSize > 0 ==> First(t) == First(s) + (if grown == mapSize then 0 else mapSize) * CHUNK_SIZE)
  {
    PushBackContiguous(s, mapSize);
  }

  /** The same for push_front(), whose first slot moves one further back. */
  lemma PushFrontShape(s: Span, mapSize: nat, grown: nat)
    requires mapSize == 0 ==> s == Span(0, 0, 0, 0, 0)
    requires mapSize > 0 ==> Fits(s, mapSize) && Contiguous(s)
    requires grown == MapAfterPushFront(s, mapSize)
    ensures var t := PushFrontSpan(s, mapSize);
      Fits(t, grown) && Contiguous(t) && First(s) + s.size <= mapSize * CHUNK_SIZE
      && (mapSize > 0 ==> First(t) + 1 == First(s) + (if grown == mapSize then 0 else mapSize) * CHUNK_SIZE)
  {
    PushFrontContiguous(s, mapSize);
  }

  /** The index steps of push_back() on the elements: the map `w` after
      them holds the old map `v` at chunk offset 0, or at the old map size
      after a reallocation; the ends stay contiguous and the old cells are
      the new ones without the last, which is the slot the end names. */
  lemma PushBackCells<T>(v: seq<seq<T>>, w: seq<seq<T>>, s: Span)
    requires Rect(v) && Rect(w)
    requires |v| == 0 ==> s == Span(0, 0, 0, 0, 0)
    requires |v| > 0 ==> Fits(s, |v|) && Contiguous(s)
    requires |w| == MapAfterPushBack(s, |v|)
    requires |v| > 0 ==> var m := if |w| == |v| then 0 else |v|; m + |v| <= |w| && w[m..m + |v|] == v
    ensures var t := PushBackSpan(s, |v|);
      Fits(t, |w|) && Contiguous(t) && First(s) + s.size <= |v| * CHUNK_SIZE
      && Cells(w, First(t), t.size)[..s.size] == Cells(v, First(s), s.size)
  {
    var t := PushBackSpan(s, |v|);
    PushBackShape(s, |v|, |w|);
    if |v| > 0 {
      var m := if |w| == |v| then 0 else |v|;
      assert First(t) == First(s) + m * CHUNK_SIZE && t.size == s.size + 1;
      CellsShiftedUp(v, w, First(s), s.size, m);
    }
  }

  /** The first n cells of `w` from slot b moved by m chunks are the cells
      of `v` from slot b, when `w` holds `v` at chunk offset m. */
  lemma CellsShiftedUp<T>(v: seq<seq<T>>, w: seq<seq<T>>, b: nat, n: nat, m: nat)
    requires Rect(v) && Rect(w) && b + n <= |v| * CHUNK_SIZE
    requires m + |v| <= |w| && w[m..m + |v|] == v && b + m * CHUNK_SIZE + n + 1 <= |w| * CHUNK_SIZE
    ensures Cells(w, b + m * CHUNK_SIZE, n + 1)[..n] == Cells(v, b, n)
  {
    CellsShift(v, w, b, n, m);
    CellsDropLast(w, b + m * CHUNK_SIZE, n);
  }

  /** The index steps of push_front() on the elements: as for push_back(),
      but the old cells are the new ones without the first. */
  lemma PushFrontCells<T>(v: seq<seq<T>>, w: seq<seq<T>>, s: Span)
    requires Rect(v) && Rect(w)
    requires |v| == 0 ==> s == Span(0, 0, 0, 0, 0)
    requires |v| > 0 ==> Fits(s, |v|) && Contiguous(s)
    requires |w| == MapAfterPushFront(s, |v|)
    requires |v| > 0 ==> var m := if |w| == |v| then 0 else |v|; m + |v| <= |w| && w[m..m + |v|] == v
    ensures var t := PushFrontSpan(s, |v|);
      Fits(t, |w|) && Contiguous(t) && First(s) + s.size <= |v| * CHUNK_SIZE
      && Cells(w, First(t), t.size)[1..] == Cells(v, First(s), s.size)
  {
    var t := PushFrontSpan(s, |v|);
    PushFrontShape(s, |v|, |w|);
    if |v| > 0 {
      var m := if |w| == |v| then 0 else |v|;
      assert First(t) + 1 == First(s) + m * CHUNK_SIZE && t.size == s.size + 1;
      CellsShiftedDown(v, w, First(s), s.size, m, First(t));
    }
  }

  /** The cells of `w` from slot c, less the first, are the cells of `v`
      from slot b, when `w` holds `v` at chunk offset m and c is the slot
      before b moved by m chunks. */
  lemma CellsShiftedDown<T>(v: seq<seq<T>>, w: seq<seq<T>>, b: nat, n: nat, m: nat, c: nat)
    requires Rect(v) && Rect(w) && b + n <= |v| * CHUNK_SIZE
    requires m + |v| <= |w| && w[m..m + |v|] == v && c + 1 == b + m * CHUNK_SIZE
    ensures Cells(w, c, n + 1)[1..] == Cells(v, b, n)
  {
    CellsShift(v, w, b, n, m);
    CellsDropFirst(w, c, n);
  }

  /** The elements during insert()'s loop: the old ones with a spare
      element `d` at position i. */
  function WithSpare<T>(before: seq<T>, i: nat, d: T): (r: seq<T>)
    requires i <= |before|
    ensures |r| == |before| + 1 && r[i] == d
    ensures forall k :: 0 <= k < i ==> r[k] == before[k]
    ensures forall k :: i < k <= |before| ==> r[k] == before[k - 1]
  {
    before[..i] + [d] + before[i..]
  }

  /** One step of insert()'s loop: copying position i - 1 up into the
      spare position i moves the spare one place down. */
  lemma {:induction false} ShiftUpStep<T>(before: seq<T>, i: nat, d: T)
    requires 0 < i <= |before|
    ensures WithSpare(before, i, d)[i - 1] == before[i - 1]
    ensures WithSpare(before, i, d)[i := before[i - 1]] == WithSpare(before, i - 1, before[i - 1])
  {
    var now, want := WithSpare(before, i, d)[i := before[i - 1]], WithSpare(before, i - 1, before[i - 1]);
    assert forall k | 0 <= k < |now| :: now[k] == want[k];
  }

  /** The end of insert()'s loop: writing x into the spare position. */
  lemma {:induction false} FillSpare<T>(before: seq<T>, pos: nat, d: T, x: T)
    requires pos <= |before|
    ensures WithSpare(before, pos, d)[pos := x] == before[..pos] + [x] + before[pos..]
  {
  }

  /** push_front()'s elements: the stepped ones, with x written at 0. */
  lemma PushedFront<T>(stepped: seq<T>, before: seq<T>, x: T, after: seq<T>)
    requires |stepped| > 0 && stepped[1..] == before && after == stepped[0 := x]
    ensures after == [x] + before
  {
    assert after[1..] == stepped[1..];
  }

  /** One step of erase()'s loop, seen on `rest`, the elements without the
      erased one at pos: copying position i + 1 down into the spare
      position i moves the spare one place up. */
  lemma {:induction false} ShiftDownStep<T>(rest: seq<T>, pos: nat, before: seq<T>, i: nat)
    requires pos <= i < |rest| && |before| == |rest| + 1 && before == WithSpare(rest, pos, before[pos])
    ensures WithSpare(rest, i, before[i])[i + 1] == before[i + 1]
    ensures WithSpare(rest, i, before[i])[i := before[i + 1]] == WithSpare(rest, i + 1, before[i + 1])
  {
    var now, want := WithSpare(rest, i, before[i])[i := before[i + 1]], WithSpare(rest, i + 1, before[i + 1]);
    assert forall k | 0 <= k < |now| :: now[k] == want[k];
  }

  /** erase()'s loop starts from the old elements, which are those without
      position pos with the erased one as the spare at pos. */
  lemma ErasedWithSpare<T>(before: seq<T>, pos: nat)
    requires pos < |before|
    ensures WithSpare(before[..pos] + before[pos + 1..], pos, before[pos]) == before
  {
    var rest := before[..pos] + before[pos + 1..];
    assert rest[..pos] == before[..pos] && rest[pos..] == before[pos + 1..];
    assert before[..pos] + [before[pos]] + before[pos + 1..] == before;
  }

  // ---------------------------------------------------------------------
  // The deque
  // ---------------------------------------------------------------------

  class Deque<T(0)> {
    var chunks: seq<array<T>>
    var beginIdx: nat
    var endIdx: nat
    var beginPos: nat
    var endPos: nat
    var size: nat

    /** The shape every operation keeps: chunks of CHUNK_SIZE slots, no chunk
        listed twice, and the index fields inside the map once a map exists
        (all 0 before). */
    predicate Valid()
      reads this
    {
      ChunkSized(chunks) && Distinct(chunks)
      && (|chunks| == 0 ==> Ends() == Span(0, 0, 0, 0, 0))
      && (|chunks| > 0 ==> Fits(Ends(), |chunks|))
    }

    /** The index fields. */
    function Ends(): Span
      reads this
    {
      Span(beginIdx, endIdx, beginPos, endPos, size)
    }

    /** The ends are contiguous, or no map exists yet. */
    predicate Coherent()
      reads this
    {
      |chunks| == 0 || Contiguous(Ends())
    }

    /** The chunk operator[] reads for position `pos`: the chunk of linear
        slot First + pos. */
    function ChunkOf(pos: nat): nat
      reads this
    {
      beginIdx + (beginPos + pos) / CHUNK_SIZE
    }

    /** The slot of that chunk operator[] reads for position `pos`. */
    function OffsetOf(pos: nat): nat
      reads this
    {
      (beginPos + pos) % CHUNK_SIZE
    }

    /** operator[]'s chunk and slot are those of linear slot First + pos. */
    lemma SlotOf(pos: nat)
      ensures ChunkOf(pos) == (First(Ends()) + pos) / CHUNK_SIZE
      ensures OffsetOf(pos) == (First(Ends()) + pos) % CHUNK_SIZE
    {
    }

    /** Position `pos` names a chunk that exists (the source reads out of the
        map otherwise). */
    predicate InMap(pos: nat)
      reads this
    {
      ChunkOf(pos) < |chunks|
    }

    /** operator[]: the element at position `pos`. */
    function Get(pos: nat): (r: T)
      reads this, chunks
      requires Valid() && InMap(pos)
      ensures Coherent() && pos < size ==> r == Elements()[pos]
    {
      SlotOf(pos);
      chunks[ChunkOf(pos)][OffsetOf(pos)]
    }

    /** front(): the slot the begin indices name. */
    function Front(): (r: T)
      reads this, chunks
      requires Valid() && |chunks| > 0
      ensures Coherent() && size > 0 ==> r == Elements()[0]
    {
      SlotOf(0);
      chunks[beginIdx][beginPos]
    }

    /** back(): the slot the end indices name. */
    function Back(): (r: T)
      reads this, chunks
      requires Valid() && |chunks| > 0
      ensures Coherent() && size > 0 ==> r == Elements()[size - 1]
    {
      SlotOf(if size > 0 then size - 1 else 0);
      assert Coherent() && size > 0 ==> First(Ends()) + size - 1 == Last(Ends());
      chunks[endIdx][endPos]
    }

    /** In a coherent deque every position below `size` lies inside the map. */
    lemma CoherentInMap(pos: nat)
      requires Valid() && Coherent() && pos < size
      ensures InMap(pos)
    {
      SlotOf(pos);
      assert Last(Ends()) / CHUNK_SIZE == endIdx;
    }

    /** The elements of a coherent deque, position 0 first: the `size`
        slots from the first one on. */
    ghost function Elements(): (r: seq<T>)
      reads this, chunks
      requires Valid() && Coherent()
      ensures |r| == size
    {
      Cells(Snapshot(chunks), First(Ends()), size)
    }

    /** Position `pos` of the elements is what operator[] reads there. */
    lemma ElementsAt(pos: nat)
      requires Valid() && Coherent() && pos < size
      ensures InMap(pos) && Elements()[pos] == Get(pos)
    {
      SlotOf(pos);
      CoherentInMap(pos);
    }

    /** front() is always position 0; in a coherent deque back() is
        position size - 1. */
    lemma EndsAreElements()
      requires Valid() && |chunks| > 0
      ensures InMap(0) && Front() == Get(0)
      ensures Coherent() && size > 0 ==>
        Front() == Elements()[0] && Back() == Elements()[size - 1]
    {
      if Coherent() && size > 0 {
        ElementsAt(0);
        ElementsAt(size - 1);
        assert First(Ends()) + size - 1 == Last(Ends());
        SlotOf(size - 1);
        assert ChunkOf(size - 1) == endIdx && OffsetOf(size - 1) == endPos;
      }
    }

    /** Deque(): no map and every index 0. */
    constructor ()
      ensures Valid() && Coherent() && Elements() == []
      ensures chunks == [] && Ends() == Span(0, 0, 0, 0, 0)
    {
      chunks := [];
      beginIdx := 0;
      endIdx := 0;
      beginPos := 0;
      endPos := 0;
      size := 0;
    }

    /** Deque(count, value): `count` push_backs of `value`. */
    constructor Filled(count: nat, value: T)
      ensures Valid() && Coherent()
      ensures Elements() == seq(count, _ => value)
    {
      chunks := [];
      beginIdx := 0;
      endIdx := 0;
      beginPos := 0;
      endPos := 0;
      size := 0;
      new;
      var i := 0;
      while i < count
        invariant 0 <= i <= count
        invariant Valid() && Coherent()
        invariant forall k :: 0 <= k < |chunks| ==> fresh(chunks[k])
        invariant Elements() == seq(i, _ => value)
      {
        PushBack(value);
        i := i + 1;
      }
    }

    /** The map reallocate() builds: `3 * n` chunks, where n is the old map
        size (at least 1); the old chunks fill the middle third and all the
        others are new. */
    method GrownMap() returns (newMap: seq<array<T>>)
      requires Valid()
      ensures var n := Growth(|chunks|);
        |newMap| == 3 * n
        && (|chunks| > 0 ==> newMap[n..2 * n] == chunks)
        && (forall k :: 0 <= k < |newMap| && (k < |chunks| || k >= 2 * |chunks|) ==> fresh(newMap[k]))
      ensures ChunkSized(newMap) && Distinct(newMap)
    {
      var oldSize := |chunks|;
      if oldSize == 0 {
        oldSize := oldSize + 1;
      }
      newMap := [];
      var i := 0;
      while i < oldSize * 3
        invariant 0 <= i <= oldSize * 3 && |newMap| == i
        invariant ChunkSized(newMap) && Distinct(newMap)
        invariant forall k :: 0 <= k < i && (k < |chunks| || k >= 2 * |chunks|) ==> fresh(newMap[k])
        invariant forall k :: 0 <= k < i && |chunks| <= k < 2 * |chunks| ==> newMap[k] == chunks[k - |chunks|]
      {
        var chunk;
        if i < |chunks| || i >= |chunks| * 2 {
          chunk := new T[CHUNK_SIZE];
        } else {
          chunk := chunks[i - |chunks|];
          forall k | 0 <= k < i
            ensures newMap[k] != chunk
          {
            if |chunks| <= k {
              assert Apart(chunks, k - |chunks|, i - |chunks|);
            }
          }
        }
        ghost var prev := newMap;
        newMap := newMap + [chunk];
        forall k, j | 0 <= k < j < |newMap|
          ensures Apart(newMap, k, j)
        {
          if j < i {
            assert Apart(prev, k, j);
          }
        }
        i := i + 1;
      }
    }

    /** reallocate(): triple the map, keep the old chunks as its middle third
        and shift both chunk indices by the old map size (by 1 for an empty
        map, whose three chunks are all new). Every position reads the same
        element as before. */
    method Reallocate()
      requires Valid()
      modifies this
      ensures Valid()
      ensures Ends() == Shifted(old(Ends()), |old(chunks)|)
      ensures var n := Growth(|old(chunks)|);
        |chunks| == 3 * n
        && (|old(chunks)| > 0 ==> chunks[n..2 * n] == old(chunks) && Snapshot(chunks)[n..2 * n] == old(Snapshot(chunks)))
        && (forall k :: 0 <= k < |chunks| && (k < |old(chunks)| || k >= 2 * |old(chunks)|) ==> fresh(chunks[k]))
      ensures forall k :: 0 <= k < |chunks| ==> chunks[k] in old(chunks) || fresh(chunks[k])
      ensures forall pos: nat :: old(InMap(pos)) ==>
        InMap(pos) && chunks[ChunkOf(pos)][OffsetOf(pos)] == old(chunks[ChunkOf(pos)][OffsetOf(pos)])
    {
      ghost var v, s := Snapshot(chunks), Ends();
      var n := if |chunks| == 0 then 1 else |chunks|;
      var newMap := GrownMap();
      if |v| > 0 {
        SnapshotSlice(newMap, n, 2 * n);
      }
      beginIdx := beginIdx + n;
      endIdx := endIdx + n;
      chunks := newMap;
      forall pos: nat | old(InMap(pos))
        ensures InMap(pos) && chunks[ChunkOf(pos)][OffsetOf(pos)] == old(chunks[ChunkOf(pos)][OffsetOf(pos)])
      {
        var c := old(ChunkOf(pos));
        assert ChunkOf(pos) == c + n && OffsetOf(pos) == old(OffsetOf(pos));
        assert chunks[c + n] == old(chunks)[c];
      }
    }

    /** The index steps of push_back(): the end moves one slot on, into the
        next chunk when the last one is full, reallocating first when it is
        the last chunk of the map; on an empty map, after reallocating, both
        ends are the last slot of chunk 1. */
    method StepBack()
      requires Valid()
      modifies this
      ensures Valid()
      ensures Ends() == PushBackSpan(old(Ends()), |old(chunks)|)
      ensures |chunks| == MapAfterPushBack(old(Ends()), |old(chunks)|)
      ensures forall k :: 0 <= k < |chunks| ==> chunks[k] in old(chunks) || fresh(chunks[k])
      ensures old(Coherent()) ==> Coherent() && Elements()[..old(size)] == old(Elements())
    {
      ghost var v, s := Snapshot(chunks), Ends();
      if |chunks| == 0 {
        Reallocate();
        beginPos := CHUNK_SIZE - 1;
        endPos := beginPos;
      } else {
        if endPos < CHUNK_SIZE - 1 {
          endPos := endPos + 1;
        } else {
          if endIdx == |chunks| - 1 {
            Reallocate();
          }
          endIdx := endIdx + 1;
          endPos := 0;
        }
      }
      size := size + 1;
      if |v| == 0 || Contiguous(s) {
        PushBackCells(v, Snapshot(chunks), s);
      }
    }

    /** push_back(v): the index steps, then v is constructed in the new end
        slot; the elements before it are untouched. */
    method PushBack(x: T)
      requires Valid()
      modifies this, chunks
      ensures Valid()
      ensures Ends() == PushBackSpan(old(Ends()), |old(chunks)|)
      ensures |chunks| == MapAfterPushBack(old(Ends()), |old(chunks)|)
      ensures forall k :: 0 <= k < |chunks| ==> chunks[k] in old(chunks) || fresh(chunks[k])
      ensures Back() == x
      ensures old(Coherent()) ==> Coherent() && Elements() == old(Elements()) + [x]
    {
      StepBack();
      ghost var stepped := if old(Coherent()) then Elements() else [];
      StoreSlot(endIdx, endPos, x);
      if old(Coherent()) {
        assert Elements() == stepped[size - 1 := x];
      }
    }

    /** The index steps of push_front(): the begin moves one slot back, into
        the previous chunk when it is at slot 0, reallocating first when it
        is chunk 0; on an empty map, after reallocating, both ends are the
        last slot of chunk 1. */
    method StepFront()
      requires Valid()
      modifies this
      ensures Valid()
      ensures Ends() == PushFrontSpan(old(Ends()), |old(chunks)|)
      ensures |chunks| == MapAfterPushFront(old(Ends()), |old(chunks)|)
      ensures forall k :: 0 <= k < |chunks| ==> chunks[k] in old(chunks) || fresh(chunks[k])
      ensures old(Coherent()) ==> Coherent() && Elements()[1..] == old(Elements())
    {
      ghost var v, s := Snapshot(chunks), Ends();
      if |chunks| == 0 {
        Reallocate();
        beginPos := CHUNK_SIZE - 1;
        endPos := beginPos;
      } else {
        if beginPos > 0 {
          beginPos := beginPos - 1;
        } else {
          if beginIdx == 0 {
            Reallocate();
          }
          beginIdx := beginIdx - 1;
          beginPos := CHUNK_SIZE - 1;
        }
      }
      size := size + 1;
      if |v| == 0 || Contiguous(s) {
        PushFrontCells(v, Snapshot(chunks), s);
      }
    }

    /** push_front(v): the index steps, then v is constructed in the new
        begin slot; every earlier element moves up one position. */
    method PushFront(x: T)
      requires Valid()
      modifies this, chunks
      ensures Valid()
      ensures Ends() == PushFrontSpan(old(Ends()), |old(chunks)|)
      ensures |chunks| == MapAfterPushFront(old(Ends()), |old(chunks)|)
      ensures forall k :: 0 <= k < |chunks| ==> chunks[k] in old(chunks) || fresh(chunks[k])
      ensures Front() == x
      ensures old(Coherent()) ==> Coherent() && Elements() == [x] + old(Elements())
    {
      StepFront();
      ghost var stepped := if old(Coherent()) then Elements() else [];
      StoreSlot(beginIdx, beginPos, x);
      if old(Coherent()) {
        assert Elements() == stepped[0 := x];
        PushedFront(stepped, old(Elements()), x, Elements());
      }
    }

    /** pop_front() as written: the begin slot moves on, except from the last
        slot of the end chunk. Popping an empty deque is not allowed. */
    method PopFront()
      requires Valid() && size > 0
      modifies this
      ensures Valid() && chunks == old(chunks)
      ensures Ends() == PopFrontSpan(old(Ends()))
      ensures old(Coherent()) && (old(size) > 1 || old(beginPos) < CHUNK_SIZE - 1) ==>
        Coherent() && Elements() == old(Elements())[1..]
    {
      ghost var s := Ends();
      if beginPos < CHUNK_SIZE - 1 {
        beginPos := beginPos + 1;
      } else {
        if beginIdx < endIdx {
          beginIdx := beginIdx + 1;
          beginPos := 0;
        }
      }
      size := size - 1;
      if Contiguous(s) && (s.size > 1 || s.beginPos < CHUNK_SIZE - 1) {
        PopFrontCells(Snapshot(chunks), s);
      }
    }

    /** pop_back() as written: the end slot moves back, but across a chunk
        boundary it is `beginPos` that is reset. Popping an empty deque is
        not allowed. */
    method PopBack()
      requires Valid() && size > 0
      modifies this
      ensures Valid() && chunks == old(chunks)
      ensures Ends() == PopBackSpan(old(Ends()))
      ensures old(Coherent()) && old(endPos) > 0 ==>
        Coherent() && Elements() == old(Elements())[..old(size) - 1]
    {
      ghost var s := Ends();
      if endPos > 0 {
        endPos := endPos - 1;
      } else {
        if beginIdx < endIdx {
          endIdx := endIdx - 1;
          beginPos := 0;
        }
      }
      size := size - 1;
      if Contiguous(s) && s.endPos > 0 {
        PopBackCells(Snapshot(chunks), s);
      }
    }

    /** at(pos): out_of_range exactly when pos >= size, otherwise the element
        operator[] reads. */
    function At(pos: nat): (r: Access<T>)
      reads this, chunks
      requires Valid() && (pos < size ==> InMap(pos))
      ensures r == OutOfRange <==> pos >= size
      ensures pos < size ==> r == Found(Get(pos))
    {
      if pos >= size then OutOfRange else Found(Get(pos))
    }

    /** In a coherent deque at() is total on positions and agrees with the
        element sequence. */
    lemma AtElements(pos: nat)
      requires Valid() && Coherent()
      ensures pos < size ==> InMap(pos) && At(pos) == Found(Elements()[pos])
      ensures pos >= size ==> At(pos) == OutOfRange
    {
      if pos < size {
        ElementsAt(pos);
      }
    }

    /** begin(): position 0. */
    function Begin(): (it: Iterator)
      reads this
      ensures it.pos == 0
    {
      Iterator(0)
    }

    /** end(): position size. */
    function End(): (it: Iterator)
      reads this
      ensures it.pos == size
    {
      Iterator(size)
    }

    /** end() - begin() is the size when the size fits in difference_type,
        and advancing begin() by the size reaches end(). */
    lemma BeginEndDistance()
      requires size <= INT32_MAX
      ensures Distance(End(), Begin()) == size
      ensures Advance(Begin(), size) == End()
    {
      DistanceAdvance(End(), Begin());
    }

    /** Construct `x` in slot `o` of chunk `c`: that one slot of the map
        changes. In a coherent deque, if the slot holds an element, that
        element becomes `x` and the others stay. */
    method StoreSlot(c: nat, o: nat, x: T)
      requires Valid() && c < |chunks| && o < CHUNK_SIZE
      modifies chunks[c]
      ensures chunks[c][o] == x
      ensures Snapshot(chunks) == old(Snapshot(chunks))[c := old(Snapshot(chunks))[c][o := x]]
      ensures Coherent() && First(Ends()) <= c * CHUNK_SIZE + o < First(Ends()) + size ==>
        Elements() == old(Elements())[c * CHUNK_SIZE + o - First(Ends()) := x]
      ensures Coherent() && !(First(Ends()) <= c * CHUNK_SIZE + o < First(Ends()) + size) ==>
        Elements() == old(Elements())
    {
      ghost var v := Snapshot(chunks);
      chunks[c][o] := x;
      forall i | 0 <= i < |chunks| && i != c
        ensures chunks[i][..] == v[i]
      {
        assert if i < c then Apart(chunks, i, c) else Apart(chunks, c, i);
      }
      assert Snapshot(chunks) == v[c := v[c][o := x]];
      if Coherent() {
        SpanInMap(Ends(), |chunks|);
        CellsStore(v, c, o, x, First(Ends()), size);
      }
    }

    /** A write through operator[] to position `pos` of a coherent deque. */
    method SetAt(pos: nat, x: T)
      requires Valid() && Coherent() && pos < size
      modifies chunks
      ensures Valid() && Coherent() && Ends() == old(Ends()) && chunks == old(chunks)
      ensures Elements() == old(Elements())[pos := x]
    {
      CoherentInMap(pos);
      var idx := beginPos + pos;
      StoreSlot(beginIdx + idx / CHUNK_SIZE, idx % CHUNK_SIZE, x);
    }

    /** Copy the element at position `src` over the one at position `dst`,
        through operator[] on both sides. */
    method CopySlot(dst: nat, src: nat)
      requires Valid() && Coherent() && dst < size && src < size
      modifies chunks
      ensures Valid() && Coherent() && Ends() == old(Ends()) && chunks == old(chunks)
      ensures Elements() == old(Elements())[dst := old(Elements())[src]]
    {
      ElementsAt(src);
      SetAt(dst, Get(src));
    }

    /** insert()'s loop: from the top down, copy each position below
        `size - 1` and at or above `pos` one place up, which moves the spare
        element at the top down to `pos`. */
    method OpenGap(pos: nat, ghost before: seq<T>, ghost top: T) returns (ghost spare: T)
      requires Valid() && Coherent() && size == |before| + 1 && pos <= |before|
      requires Elements() == WithSpare(before, |before|, top)
      modifies chunks
      ensures Valid() && Coherent() && Ends() == old(Ends()) && chunks == old(chunks)
      ensures Elements() == WithSpare(before, pos, spare)
    {
      var i := size - 1;
      spare := top;
      while i > pos
        invariant pos <= i <= |before|
        invariant Valid() && Coherent() && Ends() == old(Ends()) && chunks == old(chunks)
        invariant Elements() == WithSpare(before, i, spare)
        decreases i
      {
        ShiftUpStep(before, i, spare);
        CopySlot(i, i - 1);
        spare := before[i - 1];
        i := i - 1;
      }
    }

    /** insert(pos, v): push back a copy of the last element, shift the
        elements at positions pos..size-2 one place up from the top down,
        write v at pos, and return the iterator one past it. Inserting into
        an empty deque reads back() from a missing chunk (no map yet) or from
        a slot that holds no live element, and is not allowed. */
    method Insert(pos: nat, x: T) returns (it: Iterator)
      requires Valid() && Coherent() && 0 < size && pos <= size
      modifies this, chunks
      ensures Valid() && Coherent() && size == old(size) + 1
      ensures Elements() == old(Elements())[..pos] + [x] + old(Elements())[pos..]
      ensures it == Iterator(pos + 1)
    {
      ghost var before := Elements();
      EndsAreElements();
      var last := Back();
      PushBack(last);
      assert Elements() == WithSpare(before, |before|, last);
      ghost var spare := OpenGap(pos, before, last);
      SetAt(pos, x);
      FillSpare(before, pos, spare, x);
      it := Iterator(pos + 1);
    }

    /** erase(pos): shift the elements after pos one place down and return
        the iterator one past pos. As written, `size` is not decremented, so
        the last element now appears twice. */
    method Erase(pos: nat) returns (it: Iterator)
      requires Valid() && Coherent() && pos < size
      modifies chunks
      ensures Elements() == old(Elements())[..pos] + old(Elements())[pos + 1..] + [old(Elements())[size - 1]]
      ensures it == Iterator(pos + 1)
    {
      ghost var before := Elements();
      ghost var rest := before[..pos] + before[pos + 1..];
      ErasedWithSpare(before, pos);
      CloseGap(pos, rest, before);
      assert rest[..|rest|] == rest;
      it := Iterator(pos + 1);
    }

    /** erase()'s loop: from pos upwards, copy each element one place down
        until the last position is reached. Seen on `rest`, the elements
        without the erased one, the spare moves from pos to the top. */
    method CloseGap(pos: nat, ghost rest: seq<T>, ghost before: seq<T>)
      requires Valid() && Coherent() && size == |before| == |rest| + 1 && pos <= |rest|
      requires Elements() == before == WithSpare(rest, pos, before[pos])
      modifies chunks
      ensures Valid() && Coherent() && Ends() == old(Ends()) && chunks == old(chunks)
      ensures Elements() == WithSpare(rest, |rest|, before[|rest|])
    {
      var i, last := pos, size - 1;
      while i < last
        invariant pos <= i <= last == |rest|
        invariant Valid() && Coherent() && Ends() == old(Ends()) && chunks == old(chunks)
        invariant Elements() == WithSpare(rest, i, before[i])
      {
        ShiftDownStep(rest, pos, before, i);
        CopySlot(i, i + 1);
        i := i + 1;
      }
    }

    /** clear(): pop_back() as many times as there were elements. The map
        and its chunks stay. */
    method Clear()
      requires Valid()
      modifies this
      ensures Valid() && chunks == old(chunks)
      ensures Ends() == PopBackSpans(old(Ends()), old(size)) && size == 0
    {
      var sz := size;
      var i := 0;
      while i < sz
        invariant 0 <= i <= sz && Valid() && chunks == old(chunks)
        invariant Ends() == PopBackSpans(old(Ends()), i)
      {
        PopBack();
        i := i + 1;
      }
    }
  }
}
