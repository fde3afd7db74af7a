/** The variable-length ring buffer of the older tank variant
    (`src/RingBuffer.cpp`): a backing array of `maxLength` samples of which
    the first `currentLength` form the ring, a write cursor `head` and a read
    cursor `tail`, both wrapped with `%`. Resizing resamples the old contents
    into a scratch buffer by nearest neighbour and writes them back. */
module ModuloRing {
  import opened ModArith
  import opened Blocks

  /** `buffer` is the backing array; `scratch` the optional resampling
      buffer (a null one is `None`). */
  datatype Ring = Ring(
    buffer: seq<real>,
    scratch: Option<seq<real>>,
    maxLength: nat,
    currentLength: nat,
    head: nat,
    tail: nat)

  /** The backing array has `maxLength` slots, the ring is a non-empty prefix
      of it, both cursors lie in the ring, and the scratch buffer can hold any
      length a resize can produce. */
  predicate Valid(r: Ring)
  {
    && 0 < r.currentLength <= r.maxLength == |r.buffer|
    && r.head < r.currentLength
    && r.tail < r.currentLength
    && (r.scratch.Some? ==> r.maxLength <= |r.scratch.value| + 1)
  }

  /** The ring slot `i` places after the read cursor. */
  function Sample(r: Ring, i: nat): real
    requires Valid(r)
  {
    r.buffer[(r.tail + i) % r.currentLength]
  }

  /** The slot `p` is among those `n` consecutive writes from `head` reach. */
  predicate Written(r: Ring, p: int, n: nat)
    requires Valid(r)
  {
    0 <= p < r.currentLength && (p - r.head) % r.currentLength < n
  }

  /** The loop of `resizeNearestNeighbor` after its first `k` iterations. */
  function ResampleLoop(current: seq<real>, currentSize: nat, out: seq<real>, newSize: nat, offset: nat, k: nat): (o: seq<real>)
    requires 0 < currentSize <= |current|
    requires k <= newSize && k <= |out|
    ensures |o| == |out|
    ensures forall j :: 0 <= j < k ==> o[j] == current[(SourceIndex(j, currentSize, newSize) + offset) % currentSize]
    ensures forall j :: k <= j < |out| ==> o[j] == out[j]
    decreases k
  {
    if k == 0 then out
    else
      var prev := ResampleLoop(current, currentSize, out, newSize, offset, k - 1);
      prev[k - 1 := current[(SourceIndex(k - 1, currentSize, newSize) + offset) % currentSize]]
  }

  /** `resizeNearestNeighbor` (index-only version): returns at once when the
      sizes agree; otherwise output `k` takes the source slot
      `(floor(k * current / new) + offset) % current`. */
  function ResampleNearest(current: seq<real>, currentSize: nat, out: seq<real>, newSize: nat, offset: nat): (o: seq<real>)
    requires currentSize == newSize || (0 < currentSize <= |current| && newSize <= |out|)
    ensures |o| == |out|
    ensures currentSize == newSize ==> o == out
    ensures currentSize != newSize ==>
      forall k :: 0 <= k < newSize ==> o[k] == current[(SourceIndex(k, currentSize, newSize) + offset) % currentSize]
    ensures forall k :: newSize <= k < |out| ==> o[k] == out[k]
  {
    if currentSize == newSize then out
    else ResampleLoop(current, currentSize, out, newSize, offset, newSize)
  }

  /** The constructor: the whole backing array is the ring, the write cursor
      is its last slot and the read cursor its first. */
  function New(buffer: seq<real>, scratch: Option<seq<real>>, maxLength: nat): (r: Ring)
    requires maxLength >= 1
    ensures r.currentLength == r.maxLength == maxLength
    ensures r.head == maxLength - 1 && r.tail == 0
    ensures (r.head + 1) % r.currentLength == r.tail
    ensures Valid(r) <==> |buffer| == maxLength && (scratch.Some? ==> maxLength <= |scratch.value| + 1)
  {
    ModSmall(0, maxLength);
    ModAddMultiple(0, 1, maxLength);
    Ring(buffer, scratch, maxLength, maxLength, maxLength - 1, 0)
  }

  /** One iteration of `update`: write at `head`, advance both cursors. */
  function Step(r: Ring, x: real): (r': Ring)
    requires Valid(r)
    ensures Valid(r')
  {
    r.(buffer := r.buffer[r.head := x],
       head := (r.head + 1) % r.currentLength,
       tail := (r.tail + 1) % r.currentLength)
  }

  /** `update(input, n)`: writes `input` in order at the write cursor. The
      last `currentLength` inputs are found at `head + i`, every slot the
      writes do not reach is unchanged, and both cursors move by `n`. */
  function Update(r: Ring, input: seq<real>): (r': Ring)
    requires Valid(r)
    ensures Valid(r')
    ensures r'.maxLength == r.maxLength && r'.currentLength == r.currentLength && r'.scratch == r.scratch
    ensures r'.head == (r.head + |input|) % r.currentLength
    ensures r'.tail == (r.tail + |input|) % r.currentLength
    ensures forall i :: 0 <= i < |input| && |input| <= i + r.currentLength ==>
      r'.buffer[(r.head + i) % r.currentLength] == input[i]
    ensures forall p :: 0 <= p < |r.buffer| && !Written(r, p, |input|) ==> r'.buffer[p] == r.buffer[p]
    decreases |input|
  {
    if |input| == 0 then
      ModSmall(r.head, r.currentLength);
      ModSmall(r.tail, r.currentLength);
      r
    else
      var k := |input| - 1;
      var p := Update(r, input[..k]);
      var r' := Step(p, input[k]);
      UpdateStepFacts(r, input, p, r');
      r'
  }

  /** The inductive step of `Update`: appending one input to the block. */
  lemma UpdateStepFacts(r: Ring, input: seq<real>, p: Ring, r': Ring)
    requires Valid(r) && Valid(p) && |input| > 0
    requires var k := |input| - 1;
      && p.maxLength == r.maxLength && p.currentLength == r.currentLength && p.scratch == r.scratch
      && p.head == (r.head + k) % r.currentLength
      && p.tail == (r.tail + k) % r.currentLength
      && (forall i :: 0 <= i < k && k <= i + r.currentLength ==>
            p.buffer[(r.head + i) % r.currentLength] == input[i])
      && (forall q :: 0 <= q < |r.buffer| && !Written(r, q, k) ==> p.buffer[q] == r.buffer[q])
    requires r' == Step(p, input[|input| - 1])
    ensures r'.head == (r.head + |input|) % r.currentLength
    ensures r'.tail == (r.tail + |input|) % r.currentLength
    ensures forall i :: 0 <= i < |input| && |input| <= i + r.currentLength ==>
      r'.buffer[(r.head + i) % r.currentLength] == input[i]
    ensures forall q :: 0 <= q < |r.buffer| && !Written(r, q, |input|) ==> r'.buffer[q] == r.buffer[q]
  {
    var c, k := r.currentLength, |input| - 1;
    assert r'.head == (p.head + 1) % c && r'.tail == (p.tail + 1) % c;
    CursorStep(p.head, r.head, k, c);
    CursorStep(p.tail, r.tail, k, c);
    StepWritesRecent(r, input, p, r');
    StepKeepsUnwritten(r, input, p, r');
  }

  /** A cursor `d` steps past `a` that advances once more is `d + 1` steps past it. */
  lemma CursorStep(x: int, a: int, d: int, c: int)
    requires c > 0 && x == (a + d) % c
    ensures (x + 1) % c == (a + (d + 1)) % c
  {
    ModOfSum(a + d, 1, c);
    assert a + d + 1 == a + (d + 1);
  }

  /** The slot `k` writes after the write cursor lands on counts among the first `k + 1` written. */
  lemma NewestIsWritten(r: Ring, k: nat)
    requires Valid(r)
    ensures Written(r, (r.head + k) % r.currentLength, k + 1)
  {
    var c := r.currentLength;
    var q := (r.head + k) % c;
    if k < c {
      OffsetOf(r.head, k, c);
      assert (q - r.head) % c == k;
    } else {
      assert (q - r.head) % c < c;
    }
  }

  /** The step's write lands on the newest input's slot and keeps the
      recent inputs already written. */
  lemma StepWritesRecent(r: Ring, input: seq<real>, p: Ring, r': Ring)
    requires Valid(r) && Valid(p) && |input| > 0 && p.currentLength == r.currentLength
    requires var k := |input| - 1;
      && p.head == (r.head + k) % r.currentLength
      && (forall i :: 0 <= i < k && k <= i + r.currentLength ==>
            p.buffer[(r.head + i) % r.currentLength] == input[i])
    requires r' == Step(p, input[|input| - 1])
    ensures forall i :: 0 <= i < |input| && |input| <= i + r.currentLength ==>
      r'.buffer[(r.head + i) % r.currentLength] == input[i]
  {
    var c, h, k := r.currentLength, r.head, |input| - 1;
    forall i | 0 <= i < |input| && |input| <= i + c
      ensures r'.buffer[(h + i) % c] == input[i]
    {
      if i < k {
        ModDistinct(h, i, k, c);
      }
    }
  }

  /** The step's write lands on a slot counted as written, so every other
      slot keeps its value. */
  lemma StepKeepsUnwritten(r: Ring, input: seq<real>, p: Ring, r': Ring)
    requires Valid(r) && Valid(p) && |input| > 0 && p.currentLength == r.currentLength && p.maxLength == r.maxLength
    requires var k := |input| - 1;
      && p.head == (r.head + k) % r.currentLength
      && (forall q :: 0 <= q < |r.buffer| && !Written(r, q, k) ==> p.buffer[q] == r.buffer[q])
    requires r' == Step(p, input[|input| - 1])
    ensures forall q :: 0 <= q < |r.buffer| && !Written(r, q, |input|) ==> r'.buffer[q] == r.buffer[q]
  {
    var c, h, k := r.currentLength, r.head, |input| - 1;
    forall q | 0 <= q < |r.buffer| && !Written(r, q, |input|)
      ensures r'.buffer[q] == r.buffer[q]
    {
      if q == p.head {
        NewestIsWritten(r, k);
        assert false;
      } else {
        assert r'.buffer[q] == p.buffer[q];
        assert !Written(r, q, k);
      }
    }
  }

  /** Update keeps the distance from the read cursor to the write cursor. */
  lemma UpdateKeepsCursorDistance(r: Ring, input: seq<real>)
    requires Valid(r)
    ensures var r' := Update(r, input);
      (r'.head - r'.tail) % r'.currentLength == (r.head - r.tail) % r.currentLength
  {
    ModDifference(r.head, r.tail, |input|, r.currentLength);
  }

  /** The loop of integer `get`, after the indices `offset .. i - 1`. */
  function GetLoop(r: Ring, out: seq<real>, offset: nat, i: nat): (o: seq<real>)
    requires Valid(r)
    requires offset <= i && i - offset <= |out|
    ensures |o| == |out|
    ensures forall j :: 0 <= j < i - offset ==> o[j] == Sample(r, offset + j)
    ensures forall j :: i - offset <= j < |out| ==> o[j] == out[j]
    decreases i
  {
    if i == offset then out
    else GetLoop(r, out, offset, i - 1)[i - 1 - offset := Sample(r, i - 1)]
  }

  /** `get(out, blockSize, offset)`: copies ring samples `offset .. blockSize - 1`
      after the read cursor to the front of `out`; nothing else is written. */
  function Get(r: Ring, out: seq<real>, blockSize: nat, offset: nat): (o: seq<real>)
    requires Valid(r)
    requires offset < blockSize ==> blockSize - offset <= |out|
    ensures |o| == |out|
    ensures forall j :: 0 <= j < |out| && offset + j < blockSize ==> o[j] == Sample(r, offset + j)
    ensures forall j :: 0 <= j < |out| && blockSize <= offset + j ==> o[j] == out[j]
  {
    if blockSize <= offset then out else GetLoop(r, out, offset, blockSize)
  }

  /** The `(1 - frac, frac)` blend of ring samples `i` and `i + 1`. */
  function Blend(r: Ring, i: nat, frac: real): real
    requires Valid(r)
  {
    (1.0 - frac) * Sample(r, i) + frac * Sample(r, i + 1)
  }

  /** The loop of fractional `get`, after the indices `whole .. i - 1`. */
  function GetBlendLoop(r: Ring, out: seq<real>, whole: nat, frac: real, i: nat): (o: seq<real>)
    requires Valid(r)
    requires whole <= i && i - whole <= |out|
    ensures |o| == |out|
    ensures forall j :: 0 <= j < i - whole ==> o[j] == Blend(r, whole + j, frac)
    ensures forall j :: i - whole <= j < |out| ==> o[j] == out[j]
    decreases i
  {
    if i == whole then out
    else GetBlendLoop(r, out, whole, frac, i - 1)[i - 1 - whole := Blend(r, i - 1, frac)]
  }

  /** `get` with a fractional offset (non-negative, as `static_cast<size_t>`
      of a negative value is undefined): the offset splits into its whole
      part and its fraction, and each output blends two adjacent samples. */
  function GetFractional(r: Ring, out: seq<real>, blockSize: nat, offset: real): (o: seq<real>)
    requires Valid(r)
    requires offset >= 0.0
    requires offset.Floor < blockSize ==> blockSize - offset.Floor <= |out|
    ensures |o| == |out|
    ensures forall j :: 0 <= j < |out| && offset.Floor + j < blockSize ==>
      o[j] == (1.0 - (offset - offset.Floor as real)) * Sample(r, offset.Floor + j)
              + (offset - offset.Floor as real) * Sample(r, offset.Floor + j + 1)
    ensures forall j :: 0 <= j < |out| && blockSize <= offset.Floor + j ==> o[j] == out[j]
  {
    var whole: nat := offset.Floor;
    var frac := offset - whole as real;
    if blockSize <= whole then out else GetBlendLoop(r, out, whole, frac, blockSize)
  }

  /** A fractional offset with no fractional part reads exactly what the
      integer `get` reads. */
  lemma WholeOffsetGet(r: Ring, out: seq<real>, blockSize: nat, offset: nat)
    requires Valid(r)
    requires offset < blockSize ==> blockSize - offset <= |out|
    ensures GetFractional(r, out, blockSize, offset as real) == Get(r, out, blockSize, offset)
  {
    var a, b := GetFractional(r, out, blockSize, offset as real), Get(r, out, blockSize, offset);
    assert (offset as real).Floor == offset;
    forall j | 0 <= j < |out|
      ensures a[j] == b[j]
    {
    }
  }

  /** The clamp of `resize`: lengths from `maxLength` up become `maxLength - 1`. */
  function ClampLength(maxLength: nat, newLength: nat): nat
  {
    if newLength >= maxLength then if maxLength == 0 then 0 else maxLength - 1 else newLength
  }

  /** `resize(newLength)` exactly as the source writes it: no-op when the
      request equals the current length (checked before the clamp), then
      clamp, resample into the scratch buffer from the write cursor, re-seat
      both cursors at `tail % n`, and write the `n` resampled samples back
      with `update`. When the clamp lands on the current length the
      resampler returns without writing and `update` copies the scratch
      buffer's stale contents into the ring. */
  function ResizeAsWritten(r: Ring, newLength: nat): (r': Ring)
    requires Valid(r)
    requires newLength == r.currentLength || (0 < newLength && 2 <= r.maxLength)
    ensures Valid(r')
    ensures r'.maxLength == r.maxLength && r'.scratch.Some? == r.scratch.Some?
    ensures newLength == r.currentLength ==> r' == r
    ensures newLength != r.currentLength ==>
      && r'.currentLength == ClampLength(r.maxLength, newLength)
      && r'.currentLength < r.maxLength
      && r'.tail == r.tail % r'.currentLength
      && r'.head == r'.tail
    ensures newLength != r.currentLength && r.scratch.None? ==> r'.buffer == r.buffer
  {
    if newLength == r.currentLength then r
    else
      var n := ClampLength(r.maxLength, newLength);
      if r.scratch.None? then Reseat(r, n) else ResampleBack(r, n)
  }

  /** What the as-written `resize` leaves in the ring when it resamples: the
      nearest source sample, counted from the write cursor, when the length
      changes, and the scratch buffer's contents when it does not. */
  lemma ResizeAsWrittenSamples(r: Ring, newLength: nat)
    requires Valid(r) && r.scratch.Some?
    requires 0 < newLength != r.currentLength && 2 <= r.maxLength
    ensures var r' := ResizeAsWritten(r, newLength);
      && (r'.currentLength != r.currentLength ==>
            forall i :: 0 <= i < r'.currentLength ==>
              Sample(r', i) == r.buffer[(SourceIndex(i, r.currentLength, r'.currentLength) + r.head) % r.currentLength])
      && (r'.currentLength == r.currentLength ==>
            forall i :: 0 <= i < r'.currentLength ==> Sample(r', i) == r.scratch.value[i])
  {
    var n := ClampLength(r.maxLength, newLength);
    assert ResizeAsWritten(r, newLength) == ResampleBack(r, n);
    ResampleBackSamples(r, n);
  }

  /** The cursor part of `resize` for a new length `n`: the read cursor
      becomes `tail % n` and the write cursor joins it. */
  function Reseat(r: Ring, n: nat): (r': Ring)
    requires Valid(r) && 0 < n < r.maxLength
    ensures Valid(r')
    ensures r'.buffer == r.buffer && r'.scratch == r.scratch && r'.maxLength == r.maxLength
    ensures r'.currentLength == n && r'.tail == r.tail % n && r'.head == r'.tail
  {
    var tail := r.tail % n;
    ModAddMultiple(tail, 1, n);
    ModSmall(tail, n);
    r.(currentLength := n, tail := tail, head := (tail + n) % n)
  }

  /** `resize` with a resampling buffer and a new length `n`: resample from
      the write cursor into the scratch buffer, re-seat the cursors and write
      the `n` scratch samples back. */
  function ResampleBack(r: Ring, n: nat): (r': Ring)
    requires Valid(r) && r.scratch.Some? && 0 < n < r.maxLength
    ensures Valid(r')
    ensures r'.scratch.Some? && r'.maxLength == r.maxLength
    ensures r'.currentLength == n && r'.tail == r.tail % n && r'.head == r'.tail
  {
    var s' := ResampleNearest(r.buffer, r.currentLength, r.scratch.value, n, r.head);
    Update(Reseat(r, n).(scratch := Some(s')), s'[..n])
  }

  /** After `ResampleBack` the ring reads, from its read cursor, the `n`
      resampled samples: the nearest source sample counted from the write
      cursor, or the untouched scratch buffer when the length is the same. */
  lemma ResampleBackSamples(r: Ring, n: nat)
    requires Valid(r) && r.scratch.Some? && 0 < n < r.maxLength
    ensures n != r.currentLength ==> forall i :: 0 <= i < n ==>
      Sample(ResampleBack(r, n), i) == r.buffer[(SourceIndex(i, r.currentLength, n) + r.head) % r.currentLength]
    ensures n == r.currentLength ==> forall i :: 0 <= i < n ==> Sample(ResampleBack(r, n), i) == r.scratch.value[i]
  {
    var s' := ResampleNearest(r.buffer, r.currentLength, r.scratch.value, n, r.head);
    ResampleBackReadsScratch(r, n);
    if n != r.currentLength {
      forall i | 0 <= i < n
        ensures Sample(ResampleBack(r, n), i) == r.buffer[(SourceIndex(i, r.currentLength, n) + r.head) % r.currentLength]
      {
        assert Sample(ResampleBack(r, n), i) == s'[i];
        assert s'[i] == r.buffer[(SourceIndex(i, r.currentLength, n) + r.head) % r.currentLength];
      }
    }
  }

  /** After `ResampleBack` the ring reads the scratch buffer the resampler
      left, from its read cursor on. */
  lemma ResampleBackReadsScratch(r: Ring, n: nat)
    requires Valid(r) && r.scratch.Some? && 0 < n < r.maxLength
    ensures forall i :: 0 <= i < n ==>
      Sample(ResampleBack(r, n), i) == ResampleNearest(r.buffer, r.currentLength, r.scratch.value, n, r.head)[i]
  {
    var s' := ResampleNearest(r.buffer, r.currentLength, r.scratch.value, n, r.head);
    var r1 := Reseat(r, n).(scratch := Some(s'));
    WriteBackFromCursor(r1, s'[..n]);
    assert ResampleBack(r, n) == Update(r1, s'[..n]);
  }

  /** Writing a whole ring's worth of samples from a common cursor puts them
      in read order and brings both cursors back to where they started. */
  lemma WriteBackFromCursor(r: Ring, block: seq<real>)
    requires Valid(r) && r.head == r.tail && |block| == r.currentLength
    ensures var r' := Update(r, block);
      && r'.head == r.head && r'.tail == r.tail
      && forall i :: 0 <= i < |block| ==> Sample(r', i) == block[i]
  {
    var r' := Update(r, block);
    FullTurn(r.head, r.currentLength);
    forall i | 0 <= i < |block|
      ensures Sample(r', i) == block[i]
    {
      ReadsWhatWasWritten(r, r', block, i);
    }
  }

  /** In any ring that a whole ring's worth of writes from its read cursor
      has filled, slot `i` after the read cursor holds the `i`-th sample. */
  lemma ReadsWhatWasWritten(r: Ring, r': Ring, block: seq<real>, i: nat)
    requires Valid(r) && Valid(r') && |block| == r.currentLength == r'.currentLength && i < |block|
    requires r'.tail == r.head
    requires forall j :: 0 <= j < |block| && |block| <= j + r.currentLength ==>
      r'.buffer[(r.head + j) % r.currentLength] == block[j]
    ensures Sample(r', i) == block[i]
  {
  }

  /** A whole turn of `n` slots brings a slot index back to itself. */
  lemma FullTurn(a: nat, n: nat)
    requires a < n
    ensures (a + n) % n == a
  {
    ModUnique(a + n, n, 1, a);
  }

  /** `resize` with the clamp check completed: a request that clamps to the
      current length leaves the ring as it is. Otherwise it is the source's
      `resize`. */
  function Resize(r: Ring, newLength: nat): (r': Ring)
    requires Valid(r)
    requires newLength == r.currentLength || (0 < newLength && 2 <= r.maxLength)
    ensures Valid(r')
    ensures r'.maxLength == r.maxLength
    ensures ClampLength(r.maxLength, newLength) == r.currentLength || newLength == r.currentLength ==> r' == r
    ensures r'.currentLength == ClampLength(r.maxLength, newLength) || newLength == r.currentLength
    ensures r' != r ==> r'.tail == r.tail % r'.currentLength && r'.head == r'.tail
    ensures r.scratch.None? ==> r'.buffer == r.buffer
  {
    if newLength != r.currentLength && ClampLength(r.maxLength, newLength) == r.currentLength then r
    else ResizeAsWritten(r, newLength)
  }

  /** The completed `resize` and the source's agree on every request except
      one that differs from the current length but clamps onto it. */
  lemma ResizeAgreesOutsideStaleCase(r: Ring, newLength: nat)
    requires Valid(r)
    requires newLength == r.currentLength || (0 < newLength && 2 <= r.maxLength)
    ensures Resize(r, newLength) == ResizeAsWritten(r, newLength)
      <== newLength == r.currentLength || ClampLength(r.maxLength, newLength) != r.currentLength
  {
  }

  /** Whenever the completed `resize` changes a ring with a resampling
      buffer, the ring reads the nearest source samples, counted from the
      write cursor: the scratch buffer's stale contents never get in. */
  lemma ResizeSamples(r: Ring, newLength: nat)
    requires Valid(r) && r.scratch.Some?
    requires newLength == r.currentLength || (0 < newLength && 2 <= r.maxLength)
    ensures var r' := Resize(r, newLength);
      r' != r ==> forall i :: 0 <= i < r'.currentLength ==>
        Sample(r', i) == r.buffer[(SourceIndex(i, r.currentLength, r'.currentLength) + r.head) % r.currentLength]
  {
    if newLength != r.currentLength && ClampLength(r.maxLength, newLength) != r.currentLength {
      ResizeAsWrittenSamples(r, newLength);
    }
  }

  /** A concrete ring whose contents the as-written `resize` overwrites
      although its length does not change, while the completed `Resize`
      leaves it alone. */
  lemma StaleScratchExample()
    ensures var r := Ring([1.0, 2.0, 3.0], Some([7.0, 7.0, 7.0]), 3, 2, 1, 0);
      && Valid(r)
      && ResizeAsWritten(r, 5).currentLength == r.currentLength
      && ResizeAsWritten(r, 5).buffer[0] == 7.0 != r.buffer[0]
      && Resize(r, 5) == r
  {
    var r := Ring([1.0, 2.0, 3.0], Some([7.0, 7.0, 7.0]), 3, 2, 1, 0);
    var r' := ResizeAsWritten(r, 5);
    ResizeAsWrittenSamples(r, 5);
    ModSmall(0, 2);
    assert Sample(r', 0) == r'.buffer[0];
  }
}
