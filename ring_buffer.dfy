// The ring buffer object of ringbuffer.c: the `ringbuffer_t` record over
// caller-owned storage, whose indices and storage bytes the operations update
// in place. Each method is tied to the value-level operation of RingModel that
// specifies it and to the bounded FIFO that operation refines.

module RingBuffers {
  import opened RingModel
  import Mask

  /** One more than the largest `cat_uint32_t`: sizes passed to the bulk operations stay below it. */
  const UINT32_LIMIT: nat := 0x1_0000_0000

  /**
   * Storing the next byte of `q` just past a copied prefix extends the copied
   * prefix by one and leaves the rest of the destination as it was.
   */
  lemma PrefixStep(dst: seq<bv8>, dst': seq<bv8>, q: seq<bv8>, orig: seq<bv8>, n: nat)
    requires n < |q| && n < |dst| == |orig|
    requires dst[..n] == q[..n] && dst[n..] == orig[n..]
    requires dst' == dst[n := q[n]]
    ensures dst'[..n + 1] == q[..n + 1] && dst'[n + 1..] == orig[n + 1..]
  {
    assert dst'[..n + 1] == dst[..n] + [q[n]];
    assert q[..n + 1] == q[..n] + [q[n]];
  }

  class RingBuffer {
    /** `p_buffer`: the caller's storage; the buffer never allocates or frees it. */
    var buf: array<bv8>
    /** `ring_mask`: capacity - 1. */
    var ringMask: nat
    /** `tail_index`: the next slot to read. */
    var tailIndex: nat
    /** `head_index`: the next slot to write. */
    var headIndex: nat

    /** Both indices lie in `[0, capacity)` and the storage holds the whole capacity. */
    ghost predicate Valid()
      reads this
    {
      ringMask < buf.Length && tailIndex <= ringMask && headIndex <= ringMask
    }

    /** The record as a value of the model. */
    ghost function State(): (r: Ring)
      reads this, buf
      ensures Valid() ==> r.Valid()
    {
      Ring(buf[..], ringMask, tailIndex, headIndex)
    }

    /** The live bytes, oldest first. */
    ghost function Contents(): seq<bv8>
      reads this, buf
      requires Valid()
    {
      RingModel.Contents(State())
    }

    /** `ringbuffer_init`: bind the caller's storage of `size` bytes and start empty. */
    constructor Init(space: array<bv8>, size: bv32)
      requires Mask.ValidCapacity(size) && size as int <= space.Length
      ensures Valid() && buf == space && ringMask == size as int - 1
      ensures tailIndex == 0 && headIndex == 0
      ensures State() == RingModel.Init(space[..], size as int)
      ensures Contents() == []
    {
      buf := space;
      ringMask := size as int - 1;
      tailIndex := 0;
      headIndex := 0;
    }

    /** `ringbuffer_is_full`, computed from the indices alone. */
    predicate IsFull()
      reads this, buf
      requires Valid()
      ensures IsFull() <==> |Contents()| == ringMask
    {
      FullIffAtBound(State());
      Full(ringMask, tailIndex, headIndex)
    }

    /** `ringbuffer_is_empty`, computed from the indices alone. */
    predicate IsEmpty()
      reads this, buf
      requires Valid()
      ensures IsEmpty() <==> Contents() == []
    {
      EmptyIffNoContents(State());
      Empty(ringMask, tailIndex, headIndex)
    }

    /** `ringbuffer_clear`: both indices to 0; the storage bytes stay as they are. */
    method Clear()
      requires Valid()
      modifies this`tailIndex, this`headIndex
      ensures Valid() && tailIndex == 0 && headIndex == 0
      ensures State() == RingModel.Clear(old(State()))
      ensures Contents() == []
    {
      tailIndex := 0;
      headIndex := 0;
    }

    /**
     * `ringbuffer_put`: never refuses. A full buffer first gives up its oldest
     * byte; `data` is written at the old head, no other slot changes, and head
     * moves one slot. `ERROR` reports the overwrite.
     */
    method Put(data: bv8) returns (ret: int)
      requires Valid()
      modifies this`tailIndex, this`headIndex, buf
      ensures Valid()
      ensures (State(), ret) == RingModel.Put(old(State()), data)
      ensures buf[..] == old(buf[..])[old(headIndex) := data]
      ensures headIndex == Advance(old(headIndex), ringMask)
      ensures tailIndex == if old(|Contents()|) == ringMask then Advance(old(tailIndex), ringMask) else old(tailIndex)
      ensures ret == if old(|Contents()|) == ringMask then ERROR else EOK
      ensures Contents() == FifoPut(old(Contents()), data, ringMask)
    {
      ret := ERROR;
      if IsFull() {
        tailIndex := Advance(tailIndex, ringMask);
      } else {
        ret := EOK;
      }
      buf[headIndex] := data;
      headIndex := Advance(headIndex, ringMask);
      PutRefines(old(State()), data);
    }

    /**
     * `ringbuffer_get` into `dst[at]`: on an empty buffer it returns `ERROR` and
     * changes nothing, `dst` included; otherwise it stores the oldest byte there
     * and moves the tail one slot.
     */
    method Get(dst: array<bv8>, at: nat) returns (ret: int)
      requires Valid() && dst != buf
      requires !IsEmpty() ==> at < dst.Length
      modifies this`tailIndex, dst
      ensures Valid() && headIndex == old(headIndex)
      ensures (State(), ret) == RingModel.Get(old(State()))
      ensures ret == if old(Contents()) == [] then ERROR else EOK
      ensures old(Contents()) == [] ==> Contents() == [] && dst[..] == old(dst[..])
      ensures old(Contents()) != [] ==>
                Contents() == old(Contents())[1..] && dst[..] == old(dst[..])[at := old(Contents())[0]]
    {
      ret := ERROR;
      if !IsEmpty() {
        dst[at] := buf[tailIndex];
        tailIndex := Advance(tailIndex, ringMask);
        ret := EOK;
      }
      GetRefines(old(State()));
    }

    /**
     * `ringbuffer_put_more`: the puts of `src[0]`, ..., `src[size - 1]` in order,
     * summing their statuses in an int32. The result is `EOK` exactly when none
     * of them overwrote, that is when everything fitted beside the old contents.
     */
    method PutMore(src: array<bv8>, size: nat) returns (ret: int)
      requires Valid() && src != buf && size <= src.Length && size < UINT32_LIMIT
      modifies this`tailIndex, this`headIndex, buf
      ensures Valid()
      ensures State() == PutAll(old(State()), src[..size]).0
      ensures Contents() == FifoPutAll(old(Contents()), src[..size], ringMask)
      ensures ret == if |old(Contents())| + size <= ringMask then EOK else ERROR
    {
      ghost var start, done := State(), [];
      ret := 0;
      var i := 0;
      while i < size
        invariant i <= size && Valid() && done == src[..i]
        invariant State() == PutAll(start, done).0
        invariant ret == Int32(-(PutAll(start, done).1 as int))
      {
        PutAllSnoc(start, done, src[i]);
        ghost var k, next := PutAll(start, done).1, PutAll(start, done + [src[i]]).1;
        var r := Put(src[i]);
        assert next == k + if r == EOK then 0 else 1;
        StatusSumStep(ret, k, r, next);
        ret := Int32(ret + r);
        done := done + [src[i]];
        i := i + 1;
      }
      assert done == src[..size];
      PutAllStatus(start, done);
      if ret != 0 {
        ret := ERROR;
      }
    }

    /**
     * `ringbuffer_get_more` as written. On an empty buffer it returns 0 and touches
     * nothing. Otherwise its do-while loop gets into `out[0]`, `out[1]`, ... until
     * `size` gets were attempted or one failed, and returns the number of attempts:
     * it removes `GetMoreRemoved(size, live)` bytes but returns `GetMoreCount(size, live)`.
     */
    method GetMore(out: array<bv8>, size: nat) returns (cnt: nat)
      requires Valid() && out != buf && size < UINT32_LIMIT
      requires size <= out.Length
      requires size == 0 && !IsEmpty() ==> 1 <= out.Length
      modifies this`tailIndex, out
      ensures Valid() && headIndex == old(headIndex)
      ensures cnt == GetMoreCount(size, |old(Contents())|)
      ensures var n := GetMoreRemoved(size, |old(Contents())|);
                Contents() == old(Contents())[n..] &&
                out[..n] == old(Contents())[..n] && out[n..] == old(out[n..])
    {
      ghost var q := Contents();
      cnt := 0;
      if !IsEmpty() {
        var err := Get(out, 0);
        cnt := 1;
        ghost var n := 1;
        while cnt < size && err == EOK
          invariant Valid() && headIndex == old(headIndex)
          invariant 1 <= n <= cnt <= |q| + 1 && n <= |q| && (cnt <= size || cnt == 1)
          invariant err == EOK ==> n == cnt
          invariant err != EOK ==> n == |q| && cnt == |q| + 1
          invariant Contents() == q[n..] && out[..n] == q[..n] && out[n..] == old(out[n..])
          decreases size - cnt
        {
          ghost var before := out[..];
          err := Get(out, cnt);
          if err == EOK {
            PrefixStep(before, out[..], q, old(out[..]), n);
            n := n + 1;
          }
          cnt := cnt + 1;
        }
        // The loop stopped after `size` attempts or after the first failed get.
        assert cnt == GetMoreCount(size, |q|) && n == GetMoreRemoved(size, |q|);
      }
    }

    /**
     * `ringbuffer_get_more` as its header documents it: copy the oldest bytes into
     * `out` until `size` were retrieved or the buffer ran empty, and return how
     * many were retrieved.
     */
    method GetMoreCorrected(out: array<bv8>, size: nat) returns (cnt: nat)
      requires Valid() && out != buf && size <= out.Length
      modifies this`tailIndex, out
      ensures Valid() && headIndex == old(headIndex)
      ensures cnt == GetUpToCount(size, |old(Contents())|)
      ensures Contents() == old(Contents())[cnt..]
      ensures out[..cnt] == old(Contents())[..cnt] && out[cnt..] == old(out[cnt..])
    {
      ghost var q := Contents();
      cnt := 0;
      while cnt < size && !IsEmpty()
        invariant Valid() && headIndex == old(headIndex)
        invariant cnt <= size && cnt <= |q|
        invariant Contents() == q[cnt..] && out[..cnt] == q[..cnt] && out[cnt..] == old(out[cnt..])
        decreases size - cnt
      {
        var _ := Get(out, cnt);
        cnt := cnt + 1;
      }
    }

    /**
     * The traversal of `ringbuffer_print_all`: from tail, one slot at a time, up
     * to head. It collects exactly the live bytes, oldest first.
     */
    method LiveBytes() returns (bytes: seq<bv8>)
      requires Valid()
      ensures bytes == Contents()
      ensures |bytes| <= ringMask
    {
      FullIffAtBound(State());
      var idx: nat := tailIndex;
      bytes := [];
      while idx != headIndex
        invariant idx <= ringMask
        invariant bytes + Walk(buf[..], ringMask, idx, headIndex) == Contents()
        decreases Count(ringMask, idx, headIndex)
      {
        bytes := bytes + [buf[idx]];
        idx := Advance(idx, ringMask);
      }
    }
  }
}
