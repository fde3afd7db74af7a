/** The fixed-capacity delay store of the bucket-brigade variant: a
    power-of-two array of samples and one write cursor that wraps by
    masking. Reading returns the slot the next write overwrites, so the store
    delays its input by exactly its capacity. */
module DelayStore {
  import opened ModArith
  import opened PowerOfTwo
  import opened Blocks

  datatype Store = Store(buffer: seq<real>, writeIndex: nat, wrapMask: nat)

  function Capacity(s: Store): nat
  {
    |s.buffer|
  }

  /** The capacity is a power of two, the mask is `capacity - 1` and the
      cursor is a slot of the buffer. */
  predicate Valid(s: Store)
  {
    && IsPowerOfTwo(|s.buffer|)
    && s.wrapMask == |s.buffer| - 1
    && s.writeIndex < |s.buffer|
  }

  /** The constructor: the capacity must pass the compile-time power-of-two
      check; the mask is set and the store is reset. */
  function New(capacity: nat): (s: Store)
    requires IsPowerOf2(capacity)
    ensures Valid(s)
    ensures Capacity(s) == capacity
    ensures s.writeIndex == 0
    ensures forall i :: 0 <= i < capacity ==> s.buffer[i] == 0.0
  {
    Reset(Store(Zeros(capacity), 0, capacity - 1))
  }

  /** Clears every slot and moves the cursor to the start. */
  function Reset(s: Store): (r: Store)
    requires IsPowerOfTwo(|s.buffer|) && s.wrapMask == |s.buffer| - 1
    ensures Valid(r)
    ensures |r.buffer| == |s.buffer| && r.wrapMask == s.wrapMask
    ensures r.writeIndex == 0
    ensures forall i :: 0 <= i < |r.buffer| ==> r.buffer[i] == 0.0
  {
    Store(Zeros(|s.buffer|), 0, s.wrapMask)
  }

  /** Stores `sample` at the cursor, then increments the cursor and masks it. */
  function Write(s: Store, sample: real): (r: Store)
    requires Valid(s)
    ensures Valid(r)
    ensures |r.buffer| == |s.buffer| && r.wrapMask == s.wrapMask
    ensures r.buffer[s.writeIndex] == sample
    ensures forall i :: 0 <= i < |s.buffer| && i != s.writeIndex ==> r.buffer[i] == s.buffer[i]
    ensures r.writeIndex == if s.writeIndex + 1 < |s.buffer| then s.writeIndex + 1 else 0
  {
    MaskIsModulo(s.writeIndex + 1, |s.buffer|);
    ModNext(s.writeIndex, |s.buffer|);
    Store(s.buffer[s.writeIndex := sample], BitAnd(s.writeIndex + 1, s.wrapMask), s.wrapMask)
  }

  /** The slot at the masked cursor: the sample the next write overwrites. */
  function Read(s: Store): (x: real)
    requires Valid(s)
    ensures x == s.buffer[s.writeIndex]
    ensures x == Contents(s)[0]
  {
    MaskIsModulo(s.writeIndex, |s.buffer|);
    ModSmall(s.writeIndex, |s.buffer|);
    s.buffer[BitAnd(s.writeIndex, s.wrapMask)]
  }

  /** The stored samples from oldest to newest: slot `writeIndex` holds the
      oldest, the slot just before it the newest. */
  function Contents(s: Store): (c: seq<real>)
    requires Valid(s)
    ensures |c| == |s.buffer|
  {
    s.buffer[s.writeIndex..] + s.buffer[..s.writeIndex]
  }

  /** A write shifts the store like a queue: the oldest sample leaves and
      the new one enters at the newest end. */
  lemma WriteShifts(s: Store, sample: real)
    requires Valid(s)
    ensures Contents(Write(s, sample)) == Contents(s)[1..] + [sample]
  {
    var b, w := s.buffer, s.writeIndex;
    var b' := b[w := sample];
    if w + 1 < |b| {
      assert b'[w + 1..] == b[w + 1..];
      assert b'[..w + 1] == b[..w] + [sample];
      assert Contents(s)[1..] == b[w + 1..] + b[..w];
    } else {
      assert b'[..0] == [];
      assert b' == b[..w] + [sample];
      assert Contents(s)[1..] == b[..w];
    }
  }

  /** Writes every sample of `xs`, in order. */
  function WriteAll(s: Store, xs: seq<real>): (r: Store)
    requires Valid(s)
    ensures Valid(r)
    ensures |r.buffer| == |s.buffer| && r.wrapMask == s.wrapMask
    decreases |xs|
  {
    if |xs| == 0 then s else Write(WriteAll(s, xs[..|xs| - 1]), xs[|xs| - 1])
  }

  /** After any run of writes the cursor has moved on by the number of
      writes, modulo the capacity. */
  lemma {:induction false} WriteAllCursor(s: Store, xs: seq<real>)
    requires Valid(s)
    ensures WriteAll(s, xs).writeIndex == (s.writeIndex + |xs|) % |s.buffer|
    decreases |xs|
  {
    var n := |s.buffer|;
    if |xs| == 0 {
      ModSmall(s.writeIndex, n);
    } else {
      var k := |xs| - 1;
      var p := WriteAll(s, xs[..k]);
      WriteAllCursor(s, xs[..k]);
      assert p.writeIndex == (s.writeIndex + k) % n;
      ModOfSum(s.writeIndex + k, 1, n);
      ModNext(p.writeIndex, n);
    }
  }

  /** Writing one more sample after a run of writes extends the run. */
  lemma WriteAllSnoc(s: Store, xs: seq<real>, x: real)
    requires Valid(s)
    ensures WriteAll(s, xs + [x]) == Write(WriteAll(s, xs), x)
  {
    assert (xs + [x])[..|xs|] == xs;
  }

  /** After any run of writes the store holds the last `capacity` samples of
      its old contents followed by what was written. */
  lemma {:induction false} WriteAllContents(s: Store, xs: seq<real>)
    requires Valid(s)
    ensures Contents(WriteAll(s, xs)) == (Contents(s) + xs)[|xs|..]
    decreases |xs|
  {
    if |xs| > 0 {
      var init, last := xs[..|xs| - 1], xs[|xs| - 1];
      var p := WriteAll(s, init);
      WriteAllContents(s, init);
      WriteShifts(p, last);
      assert WriteAll(s, xs) == Write(p, last);
      QueueStep(Contents(s), xs);
    }
  }

  /** One more sample through a queue of fixed length: dropping the oldest
      of the window before the last sample and appending that sample gives
      the window after it. */
  lemma QueueStep(c: seq<real>, xs: seq<real>)
    requires |c| > 0 && |xs| > 0
    ensures (c + xs[..|xs| - 1])[|xs| - 1..][1..] + [xs[|xs| - 1]] == (c + xs)[|xs|..]
  {
    var a := c + xs[..|xs| - 1];
    assert xs == xs[..|xs| - 1] + [xs[|xs| - 1]];
    assert c + xs == a + [xs[|xs| - 1]];
  }

  /** The store is a delay line of exactly `capacity` samples: after a reset
      and `k` writes, `read()` gives the sample written `capacity` writes
      earlier, or silence while fewer than `capacity` have been written. */
  lemma FixedDelay(s: Store, xs: seq<real>)
    requires Valid(s)
    ensures var n := Capacity(s);
            Read(WriteAll(Reset(s), xs)) == if |xs| >= n then xs[|xs| - n] else 0.0
  {
    var w := WriteAll(Reset(s), xs);
    assert Contents(w) == (Zeros(|s.buffer|) + xs)[|xs|..] by {
      ResetContents(s);
      WriteAllContents(Reset(s), xs);
    }
    PaddedHead(|s.buffer|, xs);
  }

  /** The head of the window that follows `xs` through `n` leading zeros. */
  lemma PaddedHead(n: nat, xs: seq<real>)
    requires n > 0
    ensures (Zeros(n) + xs)[|xs|..][0] == if |xs| >= n then xs[|xs| - n] else 0.0
  {
  }

  /** A reset store holds silence from oldest to newest. */
  lemma ResetContents(s: Store)
    requires IsPowerOfTwo(|s.buffer|) && s.wrapMask == |s.buffer| - 1
    ensures Contents(Reset(s)) == Zeros(|s.buffer|)
  {
    var c := Contents(Reset(s));
    forall j | 0 <= j < |s.buffer|
      ensures c[j] == 0.0
    {
    }
  }
}
