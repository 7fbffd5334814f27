// Value-level model of the byte ring buffer: the four fields of `ringbuffer_t`
// as a datatype, the index arithmetic, the operations as functions on that
// value, and the bounded FIFO they refine.
//
// Indices are naturals and `& ring_mask` is read as `% (ring_mask + 1)`; the
// module Mask shows why the two agree for the power-of-two capacities that
// `ringbuffer_init` admits.

module RingModel {

  /** Status codes of put and get: `CAT_EOK` is 0, `CAT_ERROR` a nonzero code, here -1. */
  const EOK: int := 0
  const ERROR: int := -1

  /** `(i + 1) & ring_mask`: one slot forward, wrapping from the last slot to slot 0. */
  function Advance(i: nat, mask: nat): (j: nat)
    requires i <= mask
    ensures j <= mask
    ensures j == if i == mask then 0 else i + 1
  {
    assert (i + 1) % (mask + 1) == if i == mask then 0 else i + 1 by {
      if i == mask { ModOnce(i + 1, mask + 1); } else { ModSmall(i + 1, mask + 1); }
    }
    (i + 1) % (mask + 1)
  }

  /** `(head_index - tail_index) & ring_mask`: how many slots head is ahead of tail. */
  function Count(mask: nat, tail: nat, head: nat): (n: nat)
    requires tail <= mask && head <= mask
    ensures n <= mask
    ensures n == if tail <= head then head - tail else head + mask + 1 - tail
  {
    assert (head - tail) % (mask + 1) == if tail <= head then head - tail else head + mask + 1 - tail by {
      if tail <= head { ModSmall(head - tail, mask + 1); } else { ModNegative(head - tail, mask + 1); }
    }
    (head - tail) % (mask + 1)
  }

  /**
   * `ringbuffer_is_full`: the count has reached ring_mask, one slot short of the
   * capacity; equivalently, one more step of head would land on tail.
   */
  predicate Full(mask: nat, tail: nat, head: nat)
    requires tail <= mask && head <= mask
    ensures Full(mask, tail, head) <==> tail == if head == mask then 0 else head + 1
  {
    Count(mask, tail, head) == mask
  }

  /** `ringbuffer_is_empty`: the two indices coincide, which is exactly a count of 0. */
  predicate Empty(mask: nat, tail: nat, head: nat)
    requires tail <= mask && head <= mask
    ensures Empty(mask, tail, head) <==> Count(mask, tail, head) == 0
  {
    head == tail
  }

  /** The fields of `ringbuffer_t` as a value: storage bytes, ring_mask, tail_index, head_index. */
  datatype Ring = Ring(storage: seq<bv8>, mask: nat, tail: nat, head: nat)
  {
    /** Both indices lie in `[0, capacity)` and the storage holds the whole capacity. */
    predicate Valid()
    {
      mask < |storage| && tail <= mask && head <= mask
    }
  }

  /**
   * The bytes from slot `i` forward to `head`, exclusive: the traversal of
   * `ringbuffer_print_all`. Started at the tail it gives the live contents.
   */
  function Walk(s: seq<bv8>, mask: nat, i: nat, head: nat): seq<bv8>
    requires mask < |s| && i <= mask && head <= mask
    decreases Count(mask, i, head)
  {
    if i == head then [] else [s[i]] + Walk(s, mask, Advance(i, mask), head)
  }

  /** The abstract FIFO held by a ring, oldest byte first. */
  function Contents(r: Ring): seq<bv8>
    requires r.Valid()
  {
    Walk(r.storage, r.mask, r.tail, r.head)
  }

  // ---------------------------------------------------------------------------
  // The bounded FIFO that the ring refines

  /** The last `n` elements of `x`, or all of `x` when it is shorter. */
  function Last(x: seq<bv8>, n: nat): (y: seq<bv8>)
    ensures |y| == if |x| <= n then |x| else n
    ensures y == x[|x| - |y|..]
  {
    if |x| <= n then x else x[|x| - n..]
  }

  /** Put into a FIFO of at most `bound` bytes: append, dropping the oldest byte when there is no room. */
  function FifoPut(q: seq<bv8>, d: bv8, bound: nat): seq<bv8>
  {
    Last(q + [d], bound)
  }

  /** Put every byte of `ds` into the bounded FIFO, first to last. */
  function FifoPutAll(q: seq<bv8>, ds: seq<bv8>, bound: nat): seq<bv8>
  {
    if ds == [] then q else FifoPut(FifoPutAll(q, ds[..|ds| - 1], bound), ds[|ds| - 1], bound)
  }

  // ---------------------------------------------------------------------------
  // The operations of ringbuffer.c on a ring value

  /** `ringbuffer_init`: bind the storage, set ring_mask to capacity - 1 and both indices to 0. */
  function Init(storage: seq<bv8>, capacity: nat): (r: Ring)
    requires 0 < capacity <= |storage|
    ensures r.Valid() && r.mask == capacity - 1 && r.storage == storage
    ensures Contents(r) == []
  {
    Ring(storage, capacity - 1, 0, 0)
  }

  /** `ringbuffer_clear`: both indices back to 0, storage bytes untouched. */
  function Clear(r: Ring): (c: Ring)
    requires r.Valid()
    ensures c.Valid() && c.storage == r.storage && c.mask == r.mask
    ensures Contents(c) == []
  {
    r.(tail := 0, head := 0)
  }

  /**
   * `ringbuffer_put`: when full, first move the tail past the oldest byte; then
   * write at head and move head. The status is `ERROR` exactly when it overwrote.
   */
  function Put(r: Ring, d: bv8): (res: (Ring, int))
    requires r.Valid()
    ensures res.0.Valid() && |res.0.storage| == |r.storage| && res.0.mask == r.mask
  {
    var full := Full(r.mask, r.tail, r.head);
    var tail := if full then Advance(r.tail, r.mask) else r.tail;
    (r.(storage := r.storage[r.head := d], tail := tail, head := Advance(r.head, r.mask)),
     if full then ERROR else EOK)
  }

  /**
   * `ringbuffer_get`: when not empty, the byte at tail is read and the tail moves;
   * when empty, nothing changes and the status is `ERROR`.
   */
  function Get(r: Ring): (res: (Ring, int))
    requires r.Valid()
    ensures res.0.Valid() && res.0.storage == r.storage && res.0.mask == r.mask
  {
    if Empty(r.mask, r.tail, r.head) then (r, ERROR)
    else (r.(tail := Advance(r.tail, r.mask)), EOK)
  }

  /** The puts of `ringbuffer_put_more`, in order; also how many of them overwrote. */
  function PutAll(r: Ring, ds: seq<bv8>): (res: (Ring, nat))
    requires r.Valid()
    ensures res.0.Valid() && |res.0.storage| == |r.storage| && res.0.mask == r.mask
  {
    if ds == [] then (r, 0)
    else
      var before := PutAll(r, ds[..|ds| - 1]);
      var step := Put(before.0, ds[|ds| - 1]);
      (step.0, before.1 + if step.1 == EOK then 0 else 1)
  }

  /** The bytes `ringbuffer_get_more` removes from a buffer with `live` bytes. */
  function GetMoreRemoved(size: nat, live: nat): (n: nat)
    ensures n <= live && n <= if size == 0 then 1 else size
  {
    if live == 0 then 0
    else if size <= 1 then 1
    else if size <= live then size
    else live
  }

  /**
   * The count `ringbuffer_get_more` returns as written: the do-while loop counts
   * every get it attempts, including the last one that found the buffer empty.
   */
  function GetMoreCount(size: nat, live: nat): (n: nat)
    ensures n == GetMoreRemoved(size, live) + if 0 < live < size then 1 else 0
  {
    if live == 0 then 0
    else if size <= 1 then 1
    else if size <= live then size
    else live + 1
  }

  /** The count the header documents for `ringbuffer_get_more`: the bytes actually retrieved. */
  function GetUpToCount(size: nat, live: nat): (n: nat)
    ensures n <= size && n <= live
    ensures n == size || n == live
  {
    if size <= live then size else live
  }

  /** An integer reduced to the int32 range with two's-complement wrap-around. */
  function Int32(x: int): (y: int)
    ensures -0x8000_0000 <= y < 0x8000_0000
    ensures (y - x) % 0x1_0000_0000 == 0
  {
    (x + 0x8000_0000) % 0x1_0000_0000 - 0x8000_0000
  }

  // ---------------------------------------------------------------------------
  // Index arithmetic

  /** A remainder of a number already below the divisor is the number itself. */
  lemma ModSmall(x: int, c: int)
    requires 0 <= x < c
    ensures x % c == x
  {
  }

  /** A remainder of a number between one and two divisors takes the divisor away once. */
  lemma ModOnce(x: int, c: int)
    requires 0 < c <= x < 2 * c
    ensures x % c == x - c
  {
  }

  /** A remainder of a negative number above minus the divisor adds the divisor once. */
  lemma ModNegative(x: int, c: int)
    requires 0 < c && -c <= x < 0
    ensures x % c == x + c
  {
  }

  /** Advancing is one-to-one: two distinct slots never step onto the same slot. */
  lemma AdvanceInjective(i: nat, j: nat, mask: nat)
    requires i <= mask && j <= mask && i != j
    ensures Advance(i, mask) != Advance(j, mask)
  {
  }

  /** Advancing the tail (not at head) takes one from the count. */
  lemma CountStep(mask: nat, tail: nat, head: nat)
    requires tail <= mask && head <= mask && tail != head
    ensures Count(mask, Advance(tail, mask), head) == Count(mask, tail, head) - 1
  {
  }

  /** With capacity 1 every state is both full and empty; otherwise full excludes empty. */
  lemma FullAndEmpty(mask: nat, tail: nat, head: nat)
    requires tail <= mask && head <= mask
    ensures Full(mask, tail, head) && Empty(mask, tail, head) <==> mask == 0
  {
  }

  // ---------------------------------------------------------------------------
  // The abstraction function

  /** The walk from `i` visits exactly `Count` slots, so no ring ever holds more than ring_mask bytes. */
  lemma {:induction false} WalkLength(s: seq<bv8>, mask: nat, i: nat, head: nat)
    requires mask < |s| && i <= mask && head <= mask
    ensures |Walk(s, mask, i, head)| == Count(mask, i, head)
    decreases Count(mask, i, head)
  {
    if i != head {
      WalkLength(s, mask, Advance(i, mask), head);
    }
  }

  /** The k-th byte of the walk from `i` is storage slot `(i + k) mod capacity`. */
  lemma {:induction false} WalkAt(s: seq<bv8>, mask: nat, i: nat, head: nat, k: nat)
    requires mask < |s| && i <= mask && head <= mask
    requires k < Count(mask, i, head)
    ensures |Walk(s, mask, i, head)| == Count(mask, i, head)
    ensures Walk(s, mask, i, head)[k] == s[(i + k) % (mask + 1)]
    decreases k
  {
    WalkLength(s, mask, i, head);
    if k == 0 {
      ModSmall(i, mask + 1);
    } else {
      var j := Advance(i, mask);
      CountStep(mask, i, head);
      assert Walk(s, mask, i, head) == [s[i]] + Walk(s, mask, j, head);
      WalkAt(s, mask, j, head, k - 1);
      if i == mask {
        ModSmall(k - 1, mask + 1);
        ModOnce(i + k, mask + 1);
      } else {
        assert j + (k - 1) == i + k;
      }
    }
  }

  /**
   * Writing `d` at head and moving head forward appends `d` to the walk, provided
   * head does not step onto the start of the walk (the ring is not full).
   */
  lemma {:induction false} WalkAppend(s: seq<bv8>, mask: nat, i: nat, head: nat, d: bv8)
    requires mask < |s| && i <= mask && head <= mask
    requires Advance(head, mask) != i
    ensures Walk(s[head := d], mask, i, Advance(head, mask)) == Walk(s, mask, i, head) + [d]
    decreases Count(mask, i, head)
  {
    var s', h' := s[head := d], Advance(head, mask);
    if i == head {
      assert Walk(s', mask, Advance(i, mask), h') == [];
    } else {
      AdvanceInjective(i, head, mask);
      WalkAppend(s, mask, Advance(i, mask), head, d);
    }
  }

  /** A ring is empty exactly when its contents are empty. */
  lemma EmptyIffNoContents(r: Ring)
    requires r.Valid()
    ensures Empty(r.mask, r.tail, r.head) <==> Contents(r) == []
  {
    WalkLength(r.storage, r.mask, r.tail, r.head);
  }

  /** A ring is full exactly when it holds ring_mask bytes, and it never holds more. */
  lemma FullIffAtBound(r: Ring)
    requires r.Valid()
    ensures |Contents(r)| <= r.mask
    ensures Full(r.mask, r.tail, r.head) <==> |Contents(r)| == r.mask
  {
    WalkLength(r.storage, r.mask, r.tail, r.head);
  }

  /** The contents are storage slots tail, tail + 1, ... modulo the capacity. */
  lemma ContentsAt(r: Ring, k: nat)
    requires r.Valid() && k < |Contents(r)|
    ensures Contents(r)[k] == r.storage[(r.tail + k) % (r.mask + 1)]
  {
    WalkLength(r.storage, r.mask, r.tail, r.head);
    WalkAt(r.storage, r.mask, r.tail, r.head, k);
  }

  // ---------------------------------------------------------------------------
  // Refinement: each operation does to the contents what the bounded FIFO does

  /** Put into a full ring of capacity above 1 drops the oldest byte and appends `d`. */
  lemma PutWhenFull(r: Ring, d: bv8)
    requires r.Valid() && 0 < r.mask && Full(r.mask, r.tail, r.head)
    ensures Contents(r) != []
    ensures Contents(Put(r, d).0) == Contents(r)[1..] + [d]
  {
    var s, m, t, h := r.storage, r.mask, r.tail, r.head;
    // Head sits just behind tail, so the walk from tail + 1 to head, extended by
    // the new byte, is the old contents without their first byte.
    assert t != h;
    AdvanceInjective(t, h, m);
    WalkAppend(s, m, Advance(t, m), h, d);
    assert Contents(r) == [s[t]] + Walk(s, m, Advance(t, m), h);
  }

  /** Put into a ring that is not full appends `d`. */
  lemma PutWhenNotFull(r: Ring, d: bv8)
    requires r.Valid() && !Full(r.mask, r.tail, r.head)
    ensures Contents(Put(r, d).0) == Contents(r) + [d]
  {
    assert Count(r.mask, r.tail, r.head) < r.mask;
    WalkAppend(r.storage, r.mask, r.tail, r.head, d);
  }

  /** Put into a ring of capacity 1, which is always full, keeps it empty. */
  lemma PutWhenSingleSlot(r: Ring, d: bv8)
    requires r.Valid() && r.mask == 0
    ensures Contents(r) == [] && Contents(Put(r, d).0) == []
  {
    // With one slot both indices are 0, before and after the put.
    var p := Put(r, d).0;
    EmptyIffNoContents(r);
    EmptyIffNoContents(p);
  }

  /** Put appends `d`, dropping the oldest byte when the ring was full, and reports the overwrite. */
  lemma PutRefines(r: Ring, d: bv8)
    requires r.Valid()
    ensures Contents(Put(r, d).0) == FifoPut(Contents(r), d, r.mask)
    ensures Put(r, d).1 == if |Contents(r)| == r.mask then ERROR else EOK
  {
    FullIffAtBound(r);
    var q := Contents(r);
    if !Full(r.mask, r.tail, r.head) {
      PutWhenNotFull(r, d);
      assert |q + [d]| <= r.mask;
    } else if r.mask == 0 {
      PutWhenSingleSlot(r, d);
    } else {
      PutWhenFull(r, d);
      assert (q + [d])[1..] == q[1..] + [d];
    }
  }

  /** Get on a non-empty ring yields the oldest byte and drops it; on an empty ring it fails. */
  lemma GetRefines(r: Ring)
    requires r.Valid()
    ensures Get(r).1 == if Contents(r) == [] then ERROR else EOK
    ensures Contents(r) != [] ==> r.storage[r.tail] == Contents(r)[0]
    ensures Contents(Get(r).0) == if Contents(r) == [] then [] else Contents(r)[1..]
  {
    EmptyIffNoContents(r);
  }

  /** Putting many is the bounded FIFO's put of each byte; the overwrites are the bytes that did not fit. */
  lemma {:induction false} PutAllRefines(r: Ring, ds: seq<bv8>)
    requires r.Valid()
    ensures Contents(PutAll(r, ds).0) == FifoPutAll(Contents(r), ds, r.mask)
    ensures PutAll(r, ds).1 == if |Contents(r)| + |ds| <= r.mask then 0 else |Contents(r)| + |ds| - r.mask
  {
    FullIffAtBound(r);
    if ds != [] {
      var init := ds[..|ds| - 1];
      PutAllRefines(r, init);
      var p := PutAll(r, init).0;
      PutRefines(p, ds[|ds| - 1]);
      FifoPutAllLast(Contents(r), init, r.mask);
    }
  }

  /** Putting one more byte after a batch is one more step of the batch. */
  lemma PutAllSnoc(r: Ring, ds: seq<bv8>, d: bv8)
    requires r.Valid()
    ensures PutAll(r, ds + [d]).0 == Put(PutAll(r, ds).0, d).0
    ensures PutAll(r, ds + [d]).1 == PutAll(r, ds).1 + if Put(PutAll(r, ds).0, d).1 == EOK then 0 else 1
  {
    var e := ds + [d];
    assert e != [] && e[..|e| - 1] == ds && e[|e| - 1] == d;
  }

  /**
   * The outcome of `ringbuffer_put_more`: the contents are the bounded FIFO's puts,
   * and for fewer than 2^32 bytes the int32 status sum is 0 exactly when all the
   * bytes fitted beside the old contents.
   */
  lemma PutAllStatus(r: Ring, ds: seq<bv8>)
    requires r.Valid() && |ds| < 0x1_0000_0000
    ensures Contents(PutAll(r, ds).0) == FifoPutAll(Contents(r), ds, r.mask)
    ensures Int32(-(PutAll(r, ds).1 as int)) == 0 <==> |Contents(r)| + |ds| <= r.mask
  {
    FullIffAtBound(r);
    PutAllRefines(r, ds);
    StatusSumZero(PutAll(r, ds).1);
  }

  /** Filling the bounded FIFO keeps exactly the most recent `bound` bytes. */
  lemma {:induction false} FifoPutAllLast(q: seq<bv8>, ds: seq<bv8>, bound: nat)
    requires |q| <= bound
    ensures FifoPutAll(q, ds, bound) == Last(q + ds, bound)
  {
    if ds == [] {
      assert q + ds == q;
    } else {
      var init, d := ds[..|ds| - 1], ds[|ds| - 1];
      var x := q + init;
      assert x + [d] == q + ds by { assert ds == init + [d]; }
      FifoPutAllLast(q, init, bound);
      LastAppend(x, d, bound);
      calc {
        FifoPutAll(q, ds, bound);
        FifoPut(FifoPutAll(q, init, bound), d, bound);
        Last(Last(x, bound) + [d], bound);
        Last(x + [d], bound);
      }
    }
  }

  /** Keeping the last `n` and then appending, then keeping the last `n`, is keeping the last `n` of the whole. */
  lemma LastAppend(x: seq<bv8>, d: bv8, n: nat)
    ensures Last(Last(x, n) + [d], n) == Last(x + [d], n)
  {
    if n == 0 {
    } else if |x| + 1 <= n {
    } else if |x| <= n {
      assert Last(x, n) == x;
    } else {
      var y := x[|x| - n..];
      assert Last(x, n) == y;
      assert (y + [d])[1..] == x[|x| - n + 1..] + [d];
      assert (x + [d])[|x| + 1 - n..] == x[|x| - n + 1..] + [d];
    }
  }

  /** From an empty FIFO, the puts keep the last `bound` bytes put. */
  lemma FifoFromEmpty(ds: seq<bv8>, bound: nat)
    ensures FifoPutAll([], ds, bound) == Last(ds, bound)
  {
    FifoPutAllLast([], ds, bound);
    assert [] + ds == ds;
  }

  /** FIFO order: into an empty ring, up to ring_mask puts all succeed and leave exactly those bytes. */
  lemma FifoOrder(r: Ring, ds: seq<bv8>)
    requires r.Valid() && Contents(r) == [] && |ds| <= r.mask
    ensures Contents(PutAll(r, ds).0) == ds
    ensures PutAll(r, ds).1 == 0
  {
    PutAllRefines(r, ds);
    FifoFromEmpty(ds, r.mask);
  }

  /**
   * Overwrite-oldest: putting more than ring_mask bytes into an empty ring keeps
   * only the last ring_mask of them; every put past the ring_mask-th overwrote.
   */
  lemma OverwriteOldest(r: Ring, ds: seq<bv8>)
    requires r.Valid() && Contents(r) == [] && |ds| > r.mask
    ensures Contents(PutAll(r, ds).0) == ds[|ds| - r.mask..]
    ensures PutAll(r, ds).1 == |ds| - r.mask
  {
    PutAllRefines(r, ds);
    FifoFromEmpty(ds, r.mask);
  }

  /** Clear empties the ring whatever it held, and clearing twice is clearing once. */
  lemma ClearIdempotent(r: Ring)
    requires r.Valid()
    ensures Clear(Clear(r)) == Clear(r)
    ensures Get(Clear(r)).1 == ERROR
  {
  }

  // ---------------------------------------------------------------------------
  // Status codes

  /** If the int32 sum of put statuses after `k` overwrites is `Int32(-k)`, one more put leaves it `Int32(-next)`, where `next` counts that put too. */
  lemma StatusSumStep(sum: int, k: nat, ret: int, next: nat)
    requires sum == Int32(-(k as int))
    requires ret == EOK || ret == ERROR
    requires next == k + if ret == EOK then 0 else 1
    ensures Int32(sum + ret) == Int32(-(next as int))
  {
  }

  /** Fewer than 2^32 overwrites never wrap the int32 sum back to 0. */
  lemma StatusSumZero(k: nat)
    requires k < 0x1_0000_0000
    ensures Int32(-(k as int)) == 0 <==> k == 0
  {
  }

  /** As written, `ringbuffer_get_more` returns one more than it retrieved when asked for more than is live. */
  lemma GetMoreOverCounts(size: nat, live: nat)
    requires 0 < live < size
    ensures GetMoreRemoved(size, live) == live
    ensures GetMoreCount(size, live) == GetMoreRemoved(size, live) + 1
    ensures GetMoreCount(size, live) != GetUpToCount(size, live)
  {
  }

  /** As written, `ringbuffer_get_more` with size 0 still takes one byte from a non-empty buffer. */
  lemma GetMoreZeroSize(live: nat)
    requires 0 < live
    ensures GetMoreRemoved(0, live) == 1 && GetMoreCount(0, live) == 1
    ensures GetUpToCount(0, live) == 0
  {
  }

  /** Whenever the request fits in what is live (and is not 0), the as-written count is the intended one. */
  lemma GetMoreAgreesWithinLive(size: nat, live: nat)
    requires 0 < size <= live
    ensures GetMoreCount(size, live) == GetMoreRemoved(size, live) == GetUpToCount(size, live) == size
  {
  }
}
