// The demonstration driver of main.c, replayed on a 16-byte buffer, with the
// values it would print stated as postconditions.

module Demo {
  import opened RingModel
  import opened RingBuffers

  /** The bytes lo, lo + 1, ..., hi - 1. */
  function Bytes(lo: nat, hi: nat): (b: seq<bv8>)
    requires lo <= hi <= 256
    ensures |b| == hi - lo
  {
    seq(hi - lo, k requires 0 <= k < hi - lo => (lo + k) as bv8)
  }

  /** Extending a run of bytes by the next byte. */
  lemma BytesSnoc(lo: nat, hi: nat)
    requires lo <= hi < 256
    ensures Bytes(lo, hi) + [hi as bv8] == Bytes(lo, hi + 1)
  {
  }

  /** Dropping the first byte of a run of bytes. */
  lemma BytesTail(lo: nat, hi: nat)
    requires lo < hi <= 256
    ensures Bytes(lo, hi)[1..] == Bytes(lo + 1, hi)
  {
  }

  /** Dropping the first `k` bytes of a run of bytes. */
  lemma BytesDrop(lo: nat, hi: nat, k: nat)
    requires lo + k <= hi <= 256
    ensures Bytes(lo, hi)[k..] == Bytes(lo + k, hi)
  {
  }

  /** Extending a constant sequence by one more copy of its element. */
  lemma ConstantSnoc(n: nat, x: int)
    ensures seq(n, _ => x) + [x] == seq(n + 1, _ => x)
  {
  }

  /** Putting the next byte into a full FIFO of a run of bytes rolls the run forward by one. */
  lemma BytesRoll(lo: nat, hi: nat)
    requires lo < hi < 256
    ensures FifoPut(Bytes(lo, hi), hi as bv8, hi - lo) == Bytes(lo + 1, hi + 1)
  {
    BytesSnoc(lo, hi);
    BytesTail(lo, hi + 1);
  }

  /** Puts of lo, ..., hi - 1 that all fit: each reports `EOK` and the bytes are appended. */
  method PutFitting(rb: RingBuffer, lo: nat, hi: nat) returns (rets: seq<int>)
    requires rb.Valid() && lo <= hi <= 256 && |rb.Contents()| + (hi - lo) <= rb.ringMask
    modifies rb, rb.buf
    ensures rb.Valid() && rb.buf == old(rb.buf) && rb.ringMask == old(rb.ringMask)
    ensures rb.Contents() == old(rb.Contents()) + Bytes(lo, hi)
    ensures rets == seq(hi - lo, _ => EOK)
  {
    rets := [];
    var i := lo;
    while i < hi
      invariant lo <= i <= hi && rb.Valid() && rb.buf == old(rb.buf) && rb.ringMask == old(rb.ringMask)
      invariant rb.Contents() == old(rb.Contents()) + Bytes(lo, i)
      invariant rets == seq(i - lo, _ => EOK)
    {
      var err := rb.Put(i as bv8);
      BytesSnoc(lo, i);
      rets := rets + [err];
      i := i + 1;
    }
  }

  /** One put of byte `i` into a full 16-byte buffer holding the fifteen bytes before it. */
  method PutRolling(rb: RingBuffer, i: nat) returns (err: int)
    requires rb.Valid() && rb.ringMask == 15 && 15 <= i < 256
    requires rb.Contents() == Bytes(i - 15, i)
    modifies rb, rb.buf
    ensures rb.Valid() && rb.buf == old(rb.buf) && rb.ringMask == 15
    ensures rb.Contents() == Bytes(i + 1 - 15, i + 1)
    ensures err == ERROR
  {
    BytesRoll(i - 15, i);
    err := rb.Put(i as bv8);
  }

  /** Puts of lo, ..., hi - 1 into a full 16-byte buffer: each overwrites the oldest byte. */
  method PutOverwriting(rb: RingBuffer, lo: nat, hi: nat) returns (rets: seq<int>)
    requires rb.Valid() && rb.ringMask == 15 && 15 <= lo <= hi <= 256
    requires rb.Contents() == Bytes(lo - 15, lo)
    modifies rb, rb.buf
    ensures rb.Valid() && rb.buf == old(rb.buf) && rb.ringMask == 15
    ensures rb.Contents() == Bytes(hi - 15, hi)
    ensures rets == seq(hi - lo, _ => ERROR)
  {
    rets := [];
    var i := lo;
    while i < hi
      invariant lo <= i <= hi && rb.Valid() && rb.buf == old(rb.buf) && rb.ringMask == 15
      invariant rb.Contents() == Bytes(i - 15, i)
      invariant rets == seq(i - lo, _ => ERROR)
    {
      var err := PutRolling(rb, i);
      ConstantSnoc(i - lo, err);
      rets := rets + [err];
      i := i + 1;
    }
  }

  /** `n` single gets through the one-byte cell `ch`: the live bytes come out oldest first, then `ERROR`. */
  method GetEach(rb: RingBuffer, ch: array<bv8>, n: nat) returns (rets: seq<int>, got: seq<bv8>)
    requires rb.Valid() && ch != rb.buf && ch.Length == 1
    modifies rb, ch
    ensures rb.Valid() && rb.buf == old(rb.buf) && rb.ringMask == old(rb.ringMask)
    ensures var m := if n <= |old(rb.Contents())| then n else |old(rb.Contents())|;
              got == old(rb.Contents())[..m] && rb.Contents() == old(rb.Contents())[m..] &&
              rets == seq(m, _ => EOK) + seq(n - m, _ => ERROR)
  {
    ghost var q := rb.Contents();
    rets, got := [], [];
    var i := 0;
    while i < n
      invariant i <= n && rb.Valid() && rb.buf == old(rb.buf) && rb.ringMask == old(rb.ringMask)
      invariant var m := if i <= |q| then i else |q|;
                  got == q[..m] && rb.Contents() == q[m..] &&
                  rets == seq(m, _ => EOK) + seq(i - m, _ => ERROR)
    {
      var err := rb.Get(ch, 0);
      if err == EOK {
        got := got + [ch[0]];
      }
      rets := rets + [err];
      i := i + 1;
    }
  }

  /** main.c, first part: five puts of 0..4 into an empty 16-byte buffer, then two gets. */
  method PutFiveGetTwo() returns (puts: seq<int>, getRets: seq<int>, got: seq<bv8>, rest: seq<bv8>)
    ensures puts == seq(5, _ => EOK)
    ensures getRets == [EOK, EOK] && got == [0, 1] && rest == [2, 3, 4]
  {
    var space := new bv8[16];
    var rb := new RingBuffer.Init(space, 16);
    var ch := new bv8[1];
    puts := PutFitting(rb, 0, 5);
    assert rb.Contents() == [0, 1, 2, 3, 4];
    getRets, got := GetEach(rb, ch, 2);
    rest := rb.LiveBytes();
  }

  /**
   * main.c, second part, from the full buffer on: sixteen puts of 15..30 each
   * overwrite the oldest byte, and sixteen gets return 16..30 followed by one failure.
   */
  method OverflowThenDrain(rb: RingBuffer, ch: array<bv8>)
      returns (overflowPuts: seq<int>, live: seq<bv8>, getRets: seq<int>, got: seq<bv8>)
    requires rb.Valid() && rb.ringMask == 15 && ch != rb.buf && ch.Length == 1
    requires rb.Contents() == Bytes(0, 15)
    modifies rb, rb.buf, ch
    ensures overflowPuts == seq(16, _ => ERROR)
    ensures live == Bytes(16, 31)
    ensures getRets == seq(15, _ => EOK) + [ERROR] && got == Bytes(16, 31)
  {
    overflowPuts := PutOverwriting(rb, 15, 31);
    live := rb.LiveBytes();
    getRets, got := GetEach(rb, ch, 16);
  }

  /**
   * main.c, second part: after a clear, fifteen puts of 0..14 fill the buffer
   * without overwriting, sixteen puts of 15..30 each overwrite the oldest byte,
   * and sixteen gets return 16..30 followed by one failure.
   */
  method FillOverflowDrain() returns (fillPuts: seq<int>, full: bool, overflowPuts: seq<int>,
                                      live: seq<bv8>, getRets: seq<int>, got: seq<bv8>)
    ensures fillPuts == seq(15, _ => EOK) && full
    ensures overflowPuts == seq(16, _ => ERROR)
    ensures live == Bytes(16, 31)
    ensures getRets == seq(15, _ => EOK) + [ERROR] && got == Bytes(16, 31)
  {
    var space := new bv8[16];
    var rb := new RingBuffer.Init(space, 16);
    var ch := new bv8[1];
    var _ := PutFitting(rb, 0, 5);
    rb.Clear();
    fillPuts := PutFitting(rb, 0, 15);
    full := rb.IsFull();
    overflowPuts, live, getRets, got := OverflowThenDrain(rb, ch);
  }

  /** A 16-byte buffer after putting 0..30 in one `ringbuffer_put_more`, which reports the overwrites. */
  method Overflowed() returns (rb: RingBuffer, status: int)
    ensures fresh(rb) && fresh(rb.buf) && rb.Valid() && rb.ringMask == 15
    ensures rb.Contents() == Bytes(16, 31) && status == ERROR
  {
    var src := new bv8[31];
    forall k | 0 <= k < 31 {
      src[k] := k as bv8;
    }
    assert src[..31] == Bytes(0, 31);
    var space := new bv8[16];
    rb := new RingBuffer.Init(space, 16);
    status := rb.PutMore(src, 31);
    FifoFromEmpty(Bytes(0, 31), 15);
    BytesDrop(0, 31, 16);
  }

  /**
   * Draining more than is live, as written: `ringbuffer_get_more` for 16 bytes
   * retrieves the 15 live bytes 16..30 but returns 16.
   */
  method DrainAsWritten() returns (count: nat, drained: seq<bv8>)
    ensures count == 16 && drained == Bytes(16, 31)
  {
    var rb, _ := Overflowed();
    var out := new bv8[16];
    count := rb.GetMore(out, 16);
    drained := out[..15];
  }

  /** Draining more than is live, corrected: the count returned is the 15 bytes retrieved. */
  method DrainCorrected() returns (count: nat, drained: seq<bv8>)
    ensures count == 15 && drained == Bytes(16, 31)
  {
    var rb, _ := Overflowed();
    var out := new bv8[16];
    count := rb.GetMoreCorrected(out, 16);
    drained := out[..count];
  }
}
