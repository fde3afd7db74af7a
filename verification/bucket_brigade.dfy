/** The bucket-brigade delay tap of `src/include/TankVerb.h`: a fixed
    16384-sample delay store driven at a variable rate. Each block is
    resampled by linear interpolation to a length that grows as the target
    delay length shrinks, pushed through the store with filtered and
    soft-clipped feedback, and resampled back to the block size.

    The feedback low-pass filter is opaque: its state has type `F` and one
    step is `process(state, sample) == (state', output)`. */
module BucketBrigade {
  import opened ModArith
  import opened Blocks
  import PowerOfTwo
  import DelayStore

  const AudioBlockSize: nat := 360
  const NumDelays: nat := 4
  const MaxDelayLength: nat := 16384
  const MaxBufferLength: nat := 6200

  /** The cubic soft clipper: `x - 0.333333 x^3`. */
  function SoftClip(x: real): real
  {
    x - 0.333333 * x * x * x
  }

  /** The cubic clipper is odd. */
  lemma SoftClipOdd(x: real)
    ensures SoftClip(-x) == -SoftClip(x)
    ensures SoftClip(0.0) == 0.0
  {
    assert (-x) * (-x) * (-x) == -(x * x * x);
  }

  /** Unlike `tanh`, the cubic clipper turns negative for inputs beyond
      about the square root of three. */
  lemma SoftClipTurnsNegative(x: real)
    requires x > 0.0 && x * x > 3.00001
    ensures SoftClip(x) < 0.0
  {
    var c := 0.333333 * (x * x);
    assert c > 1.0 by {
      assert c - 0.333333 * 3.00001 == 0.333333 * (x * x - 3.00001);
    }
    assert 0.333333 * x * x * x == c * x;
    assert c * x - x == (c - 1.0) * x;
  }

  /** `y0 + x * (y1 - y0)`. */
  function Lerp(x: real, y0: real, y1: real): real
  {
    y0 + x * (y1 - y0)
  }

  /** With `preventOverrun` and a shrinking resample, every interpolated
      output below the last reads two slots strictly inside the source. */
  lemma PreventOverrunReadsInside(k: nat, currentSize: nat, newSize: nat)
    requires k + 1 < newSize <= currentSize
    ensures SourceIndex(k, currentSize, newSize) + 1 < currentSize
  {
    MulMonotone(k, newSize - 2, currentSize);
    assert (newSize - 2) * currentSize <= (currentSize - 2) * newSize by {
      assert (currentSize - 2) * newSize - (newSize - 2) * currentSize == 2 * (currentSize - newSize);
    }
    DivAtMost(k * currentSize, currentSize - 2, newSize);
  }

  /** The interpolation loop of `resizeNearestNeighbor`, after `k` iterations. */
  function LerpLoop(current: seq<real>, currentSize: nat, out: seq<real>, newSize: nat, k: nat): (o: seq<real>)
    requires k <= newSize && k <= |out|
    requires forall j :: 0 <= j < k ==> SourceIndex(j, currentSize, newSize) + 1 < |current|
    ensures |o| == |out|
    ensures forall j :: 0 <= j < k ==>
      var i := SourceIndex(j, currentSize, newSize);
      o[j] == Lerp(SourceFraction(j, currentSize, newSize), current[i], current[i + 1])
    ensures forall j :: k <= j < |out| ==> o[j] == out[j]
    decreases k
  {
    if k == 0 then out
    else
      var prev := LerpLoop(current, currentSize, out, newSize, k - 1);
      var i := SourceIndex(k - 1, currentSize, newSize);
      prev[k - 1 := Lerp(SourceFraction(k - 1, currentSize, newSize), current[i], current[i + 1])]
  }

  /** `resizeNearestNeighbor` of the bucket-brigade variant: output `k`
      interpolates between source slots `floor(k * cur / new)` and the one
      after it. Without `preventOverrun` the last iteration reads one slot
      past `currentSize`, so the source must have `currentSize + 1` readable
      slots; with it the last output is a copy of the last source sample, and
      only shrinking resamples stay inside `currentSize` slots. */
  function ResampleLerp(current: seq<real>, currentSize: nat, out: seq<real>, newSize: nat, preventOverrun: bool): (o: seq<real>)
    requires newSize <= |out|
    requires preventOverrun ==> 1 <= newSize <= currentSize <= |current|
    requires !preventOverrun ==> currentSize < |current| && (newSize > 0 ==> 1 < |current|)
    ensures |o| == |out|
    ensures forall j :: 0 <= j < newSize && (j + 1 < newSize || !preventOverrun) ==>
      var i := SourceIndex(j, currentSize, newSize);
      i + 1 < |current| &&
      o[j] == Lerp(SourceFraction(j, currentSize, newSize), current[i], current[i + 1])
    ensures preventOverrun ==> o[newSize - 1] == current[currentSize - 1]
    ensures forall j :: newSize <= j < |out| ==> o[j] == out[j]
  {
    var target := if preventOverrun then newSize - 1 else newSize;
    forall j | 0 <= j < target
      ensures SourceIndex(j, currentSize, newSize) + 1 < |current|
    {
      if preventOverrun {
        PreventOverrunReadsInside(j, currentSize, newSize);
      } else if currentSize > 0 {
        SourceIndexInRange(j, currentSize, newSize);
      } else {
        assert j * currentSize == 0;
      }
    }
    var o := LerpLoop(current, currentSize, out, newSize, target);
    if preventOverrun then o[newSize - 1 := current[currentSize - 1]] else o
  }

  /** Resampling to the same size returns the source block unchanged, with
      or without `preventOverrun`. */
  lemma ResampleSameSizeIsIdentity(current: seq<real>, n: nat, out: seq<real>, preventOverrun: bool)
    requires n <= |out|
    requires preventOverrun ==> 1 <= n <= |current|
    requires !preventOverrun ==> n < |current|
    ensures ResampleLerp(current, n, out, n, preventOverrun)[..n] == current[..n]
  {
    var o := ResampleLerp(current, n, out, n, preventOverrun);
    forall j | 0 <= j < n
      ensures o[j] == current[j]
    {
      DivExact(j, n);
      assert j * n == n * j;
      if j + 1 < n || !preventOverrun {
        assert SourceIndex(j, n, n) == j;
        assert SourceFraction(j, n, n) == 0.0;
      }
    }
  }

  /** One bucket-brigade tap. `oldLength` is written but never read. */
  datatype Bbd<F> = Bbd(
    store: DelayStore.Store,
    filter: F,
    gain: real,
    oldLength: real,
    newLength: real,
    prevIn: real,
    isReset: bool)

  /** The store is a valid delay store of `MaxDelayLength` samples. */
  predicate Valid<F>(d: Bbd<F>)
  {
    DelayStore.Valid(d.store) && DelayStore.Capacity(d.store) == MaxDelayLength
  }

  /** 16384 passes the store's power-of-two check. */
  lemma MaxDelayLengthIsPowerOfTwo()
    ensures PowerOfTwo.IsPowerOf2(MaxDelayLength)
  {
    PowerOfTwo.Pow2IsPowerOfTwo(14);
    assert PowerOfTwo.Pow2(14) == MaxDelayLength;
  }

  /** The constructor: a cleared store, gain 0.5 and target length
      `MaxDelayLength`. The source leaves the old length indeterminate; the
      model sets it to zero. */
  function New<F>(filter: F): (d: Bbd<F>)
    ensures Valid(d)
    ensures d.gain == 0.5 && d.newLength == MaxDelayLength as real
    ensures d.prevIn == 0.0 && d.isReset
    ensures DelayStore.Contents(d.store) == Zeros(MaxDelayLength)
  {
    MaxDelayLengthIsPowerOfTwo();
    var store := DelayStore.New(MaxDelayLength);
    var d := Bbd(store, filter, 0.95, 0.0, 0.0, 0.0, true);
    var d := SetGain(d, 0.5).1;
    SetLength(d, MaxDelayLength as real)
  }

  /** `floor(MAX_DELAY_LENGTH / length * blockSize)`, then capped at
      `MAX_BUFFER_LENGTH - 1` and raised to at least `blockSize`, in that
      order. The length must be positive: the float-to-integer conversion of
      an infinite or negative value is undefined. */
  function ResampledSize(length: real, blockSize: nat): (n: nat)
    requires length > 0.0
    ensures blockSize <= n
    ensures blockSize < MaxBufferLength ==> n < MaxBufferLength
    ensures var raw := (MaxDelayLength as real / length * blockSize as real).Floor;
      blockSize <= raw < MaxBufferLength ==> n == raw
    ensures var raw := (MaxDelayLength as real / length * blockSize as real).Floor;
      raw >= MaxBufferLength && blockSize < MaxBufferLength ==> n == MaxBufferLength - 1
    ensures var raw := (MaxDelayLength as real / length * blockSize as real).Floor;
      raw < blockSize ==> n == blockSize
  {
    var raw := (MaxDelayLength as real / length * blockSize as real).Floor;
    var capped := if raw >= MaxBufferLength as int then MaxBufferLength - 1 else raw;
    if capped < blockSize as int then blockSize else capped as nat
  }

  /** The sample written back into the store: the input plus the scaled wet signal. */
  function Feed(x: real, wet: real, gain: real): real
  {
    x + wet * gain
  }

  /** The sample emitted: the even dry/wet mix. */
  function Mix(x: real, wet: real): real
  {
    (x + wet) * 0.5
  }

  /** What one pass of the feedback loop leaves behind: the store, the
      filter state, the filtered (wet) samples and the samples written. */
  datatype Drive<F> = Drive(store: DelayStore.Store, filter: F, wet: seq<real>, fed: seq<real>)

  /** The `updateDelay` loop over a resampled block: for each sample, read
      the store, soft-clip and filter the read value (`wet`), and write the
      sample plus the scaled wet signal. */
  function DriveStore<F>(store: DelayStore.Store, filter: F, gain: real, block: seq<real>, process: (F, real) -> (F, real)): (r: Drive<F>)
    requires DelayStore.Valid(store)
    ensures DelayStore.Valid(r.store) && DelayStore.Capacity(r.store) == DelayStore.Capacity(store)
    ensures |r.wet| == |r.fed| == |block|
    decreases |block|
  {
    if |block| == 0 then Drive(store, filter, [], [])
    else
      var prev := DriveStore(store, filter, gain, block[..|block| - 1], process);
      var step := process(prev.filter, SoftClip(DelayStore.Read(prev.store)));
      var sample := Feed(block[|block| - 1], step.1, gain);
      Drive(DelayStore.Write(prev.store, sample), step.0, prev.wet + [step.1], prev.fed + [sample])
  }

  /** The store ends up exactly as if the fed samples had been written in
      order. */
  lemma {:induction false} DriveStoreWrites<F>(store: DelayStore.Store, filter: F, gain: real, block: seq<real>, process: (F, real) -> (F, real))
    requires DelayStore.Valid(store)
    ensures var r := DriveStore(store, filter, gain, block, process);
      r.store == DelayStore.WriteAll(store, r.fed)
    decreases |block|
  {
    if |block| > 0 {
      var k := |block| - 1;
      var prev := DriveStore(store, filter, gain, block[..k], process);
      DriveStoreWrites(store, filter, gain, block[..k], process);
      var r := DriveStore(store, filter, gain, block, process);
      assert r.store == DelayStore.Write(prev.store, r.fed[k]);
      assert r.fed == prev.fed + [r.fed[k]];
      DelayStore.WriteAllSnoc(store, prev.fed, r.fed[k]);
    }
  }

  /** Each sample written is the input sample plus the scaled wet sample. */
  lemma {:induction false} DriveStoreFeeds<F>(store: DelayStore.Store, filter: F, gain: real, block: seq<real>, process: (F, real) -> (F, real))
    requires DelayStore.Valid(store)
    ensures var r := DriveStore(store, filter, gain, block, process);
      forall i :: 0 <= i < |block| ==> r.fed[i] == Feed(block[i], r.wet[i], gain)
    decreases |block|
  {
    if |block| > 0 {
      var k := |block| - 1;
      DriveStoreFeeds(store, filter, gain, block[..k], process);
      assert forall i :: 0 <= i < k ==> block[..k][i] == block[i];
    }
  }

  /** The `i`-th wet sample is the filter's answer to the soft-clipped read
      of the store after the first `i` writes, from the state the first `i`
      samples left. */
  lemma {:induction false} DriveStoreSteps<F>(store: DelayStore.Store, filter: F, gain: real, block: seq<real>, i: nat, process: (F, real) -> (F, real))
    requires DelayStore.Valid(store) && i < |block|
    ensures var prev := DriveStore(store, filter, gain, block[..i], process);
      DriveStore(store, filter, gain, block, process).wet[i] == process(prev.filter, SoftClip(DelayStore.Read(prev.store))).1
    decreases |block|
  {
    var k := |block| - 1;
    if i < k {
      DriveStoreSteps(store, filter, gain, block[..k], i, process);
      assert block[..k][..i] == block[..i];
      DriveStorePrefix(store, filter, gain, block, process);
    }
  }

  /** The loop over a block begins with the loop over its first `n - 1` samples. */
  lemma DriveStorePrefix<F>(store: DelayStore.Store, filter: F, gain: real, block: seq<real>, process: (F, real) -> (F, real))
    requires DelayStore.Valid(store) && |block| > 0
    ensures DriveStore(store, filter, gain, block, process).wet[..|block| - 1] == DriveStore(store, filter, gain, block[..|block| - 1], process).wet
  {
  }

  /** The dry/wet average of a block and its wet signal, sample by sample. */
  function MixBlock(block: seq<real>, wet: seq<real>): (m: seq<real>)
    requires |wet| == |block|
    ensures |m| == |block|
    ensures forall i :: 0 <= i < |block| ==> m[i] == Mix(block[i], wet[i])
  {
    seq(|block|, i requires 0 <= i < |block| => Mix(block[i], wet[i]))
  }

  /** The result of one block update: the tap, the output array, and the
      shared resampling buffer holding the resampled dry/wet block. */
  datatype BbdBlock<F> = BbdBlock(delay: Bbd<F>, output: seq<real>, scratch: seq<real>)

  /** The dry block resampled to the tap's clock: the previous block's last
      sample followed by a full audio block, stretched from `blockSize` to
      `ResampledSize` samples. */
  function Resampled<F>(d: Bbd<F>, input: seq<real>, blockSize: nat): seq<real>
    requires d.newLength > 0.0 && |input| >= AudioBlockSize && blockSize <= AudioBlockSize
  {
    var n := ResampledSize(d.newLength, blockSize);
    ResampleLerp([d.prevIn] + input[..AudioBlockSize], blockSize, Zeros(n), n, false)
  }

  /** `BucketBrigadeDelay::update`. The input array must hold a full audio
      block (it is copied whole behind the previous block's last sample), and
      `blockSize` may not exceed it. The resampled block drives the store;
      the scratch buffer then holds its dry/wet mix, which is resampled back
      to `blockSize` samples with the last sample pinned. */
  function Update<F>(d: Bbd<F>, input: seq<real>, output: seq<real>, blockSize: nat, process: (F, real) -> (F, real)): (r: BbdBlock<F>)
    requires Valid(d) && d.newLength > 0.0
    requires |input| >= AudioBlockSize
    requires 1 <= blockSize <= AudioBlockSize && blockSize <= |output|
    ensures Valid(r.delay)
    ensures r.delay == d.(store := r.delay.store, filter := r.delay.filter, prevIn := input[AudioBlockSize - 1])
    ensures |r.scratch| == ResampledSize(d.newLength, blockSize)
    ensures blockSize <= |r.scratch| < MaxBufferLength
    ensures |r.output| == |output|
    ensures var drive := DriveStore(d.store, d.filter, d.gain, Resampled(d, input, blockSize), process);
      && r.scratch == MixBlock(Resampled(d, input, blockSize), drive.wet)
      && r.delay.filter == drive.filter
    ensures r.output == ResampleLerp(r.scratch, |r.scratch|, output, blockSize, true)
  {
    var n := ResampledSize(d.newLength, blockSize);
    var resized := Resampled(d, input, blockSize);
    var drive := DriveStore(d.store, d.filter, d.gain, resized, process);
    var mixed := MixBlock(resized, drive.wet);
    BbdBlock(d.(store := drive.store, filter := drive.filter, prevIn := input[AudioBlockSize - 1]), ResampleLerp(mixed, n, output, blockSize, true), mixed)
  }

  /** After a block the store holds exactly what writing the fed samples in
      order leaves behind, each fed sample being the resampled dry sample
      plus the scaled wet sample. */
  lemma UpdateWritesStore<F>(d: Bbd<F>, input: seq<real>, output: seq<real>, blockSize: nat, process: (F, real) -> (F, real))
    requires Valid(d) && d.newLength > 0.0
    requires |input| >= AudioBlockSize
    requires 1 <= blockSize <= AudioBlockSize && blockSize <= |output|
    ensures var r := Update(d, input, output, blockSize, process);
      var resized := Resampled(d, input, blockSize);
      var drive := DriveStore(d.store, d.filter, d.gain, resized, process);
      && r.delay.store == DelayStore.WriteAll(d.store, drive.fed)
      && forall i :: 0 <= i < |resized| ==> drive.fed[i] == Feed(resized[i], drive.wet[i], d.gain)
  {
    var resized := Resampled(d, input, blockSize);
    DriveStoreWrites(d.store, d.filter, d.gain, resized, process);
    DriveStoreFeeds(d.store, d.filter, d.gain, resized, process);
  }

  /** The block written back: its last sample is the last resampled sample,
      and samples past the block are untouched. */
  lemma UpdateOutputEnds<F>(d: Bbd<F>, input: seq<real>, output: seq<real>, blockSize: nat, process: (F, real) -> (F, real))
    requires Valid(d) && d.newLength > 0.0
    requires |input| >= AudioBlockSize
    requires 1 <= blockSize <= AudioBlockSize && blockSize <= |output|
    ensures var r := Update(d, input, output, blockSize, process);
      && r.output[blockSize - 1] == r.scratch[|r.scratch| - 1]
      && forall j :: blockSize <= j < |output| ==> r.output[j] == output[j]
  {
  }

  /** When the target length leaves the block size unchanged, the block
      written back is the dry/wet block itself. */
  lemma UpdateSameSize<F>(d: Bbd<F>, input: seq<real>, output: seq<real>, blockSize: nat, process: (F, real) -> (F, real))
    requires Valid(d) && d.newLength > 0.0
    requires |input| >= AudioBlockSize
    requires 1 <= blockSize <= AudioBlockSize && blockSize <= |output|
    requires ResampledSize(d.newLength, blockSize) == blockSize
    ensures var r := Update(d, input, output, blockSize, process);
      r.output[..blockSize] == r.scratch
  {
    var r := Update(d, input, output, blockSize, process);
    ResampleSameSizeIsIdentity(r.scratch, blockSize, output, true);
  }

  /** `reset()`: clears the store only when the tap is not already marked
      reset. */
  function Reset<F>(d: Bbd<F>): (r: Bbd<F>)
    requires Valid(d)
    ensures Valid(r) && r.isReset
    ensures d.isReset ==> r == d
    ensures !d.isReset ==> DelayStore.Contents(r.store) == Zeros(MaxDelayLength)
  {
    if d.isReset then d
    else
      var r := d.(store := DelayStore.Reset(d.store), isReset := true);
      assert DelayStore.Contents(r.store) == Zeros(MaxDelayLength);
      r
  }

  /** `setGain(gain)`: accepted, and applied, exactly when the gain is at most
      `1.1f`; a rejected gain leaves the tap unchanged. */
  function SetGain<F>(d: Bbd<F>, gain: real): (r: (bool, Bbd<F>))
    ensures r.0 <==> gain <= GainCeiling
    ensures r.0 ==> r.1 == d.(gain := gain)
    ensures !r.0 ==> r.1 == d
  {
    if gain > GainCeiling then (false, d) else (true, d.(gain := gain))
  }

  /** No sequence of `setGain` calls can lift a gain that starts at or
      below the ceiling above it. */
  lemma {:induction false} GainStaysBelowCeiling<F>(d: Bbd<F>, gains: seq<real>)
    requires d.gain <= GainCeiling
    ensures SetGains(d, gains).gain <= GainCeiling
    decreases |gains|
  {
    if |gains| > 0 {
      GainStaysBelowCeiling(d, gains[..|gains| - 1]);
    }
  }

  /** `setGain` applied to each of `gains` in order. */
  function SetGains<F>(d: Bbd<F>, gains: seq<real>): Bbd<F>
    decreases |gains|
  {
    if |gains| == 0 then d else SetGain(SetGains(d, gains[..|gains| - 1]), gains[|gains| - 1]).1
  }

  /** The ceiling is `1.1f`: 1.1 is accepted, 1.1001 rejected. */
  lemma GainBoundaryExamples<F>(d: Bbd<F>)
    ensures SetGain(d, 1.1).0 && SetGain(d, 1.1).1.gain == 1.1
    ensures !SetGain(d, 1.1001).0 && SetGain(d, 1.1001).1 == d
  {
  }

  /** `setLength(length)`: the new target takes effect at the next block;
      the previous target is kept as the old length. */
  function SetLength<F>(d: Bbd<F>, length: real): (r: Bbd<F>)
    ensures r.newLength == length && r.oldLength == d.newLength
    ensures r.(oldLength := d.oldLength, newLength := d.newLength) == d
  {
    d.(oldLength := d.newLength, newLength := length)
  }

  /** `setCutoff(frequency)`: retunes the feedback filter, nothing else. */
  function SetCutoff<F>(d: Bbd<F>, frequency: real, retune: (F, real) -> F): (r: Bbd<F>)
    ensures r.filter == retune(d.filter, frequency)
    ensures r.(filter := d.filter) == d
  {
    d.(filter := retune(d.filter, frequency))
  }
}
