/** The delay line of the older tank variant (`src/TankVerb.h`): a modulo
    ring buffer read at a fractional offset, with filtered feedback passed
    through a rational `tanh` approximation before it is written back.

    The feedback filter is opaque: its state has type `F` and one step is
    `process(state, sample) == (state', output)`. */
module RingDelay {
  import opened ModArith
  import opened Blocks
  import ModuloRing

  const AudioBlockSize: nat := 480
  const NumDelays: nat := 4
  const MaxDelayLength: nat := 20000

  /** `c0 + y (c1 + y (c2 + ...))`: a polynomial in `y` with coefficients
      `cs`, evaluated the way the source writes it. */
  function Horner(cs: seq<real>, y: real): real
    decreases |cs|
  {
    if |cs| == 0 then 0.0 else cs[0] + y * Horner(cs[1..], y)
  }

  /** The coefficients, in `x^2`, of the numerator and denominator of
      Lambert's continued-fraction approximation of `tanh`. */
  const NumeratorCoefficients: seq<real> := [135135.0, 17325.0, 378.0, 1.0]
  const DenominatorCoefficients: seq<real> := [135135.0, 62370.0, 3150.0, 28.0]

  /** `x (135135 + x^2 (17325 + x^2 (378 + x^2)))`. */
  function Numerator(x: real): real
  {
    x * Horner(NumeratorCoefficients, x * x)
  }

  /** `135135 + x^2 (62370 + x^2 (3150 + x^2 28))`, which is at least
      135135, so the quotient is always defined. */
  function Denominator(x: real): (b: real)
    ensures b >= 135135.0
  {
    SquareNonNegative(x);
    HornerAtLeastFirst(DenominatorCoefficients, x * x);
    Horner(DenominatorCoefficients, x * x)
  }

  /** `softClip`: the rational `tanh` approximation. */
  function SoftClip(x: real): real
  {
    Numerator(x) / Denominator(x)
  }

  lemma SquareNonNegative(x: real)
    ensures x * x >= 0.0
  {
    if x < 0.0 {
      assert x * x == (-x) * (-x);
    }
  }

  lemma MulNonNegative(a: real, b: real)
    requires a >= 0.0 && b >= 0.0
    ensures a * b >= 0.0
  {
  }

  lemma MulPositive(a: real, b: real)
    requires a > 0.0 && b > 0.0
    ensures a * b > 0.0
  {
  }

  lemma MulAtMost(x: real, p: real, q: real)
    requires x >= 0.0 && p <= q
    ensures x * p <= x * q
  {
    MulNonNegative(x, q - p);
    assert x * q - x * p == x * (q - p);
  }

  /** A quotient by a positive denominator stays below `x` when the
      numerator stays below `x` times the denominator. */
  lemma DivBounds(a: real, b: real, x: real)
    requires b > 0.0 && 0.0 <= a <= x * b
    ensures 0.0 <= a / b <= x
  {
    var c := a / b;
    assert c * b == a;
    if c < 0.0 {
      MulPositive(-c, b);
    }
  }

  /** With non-negative coefficients and a non-negative argument the
      polynomial is at least its constant term. */
  lemma {:induction false} HornerAtLeastFirst(cs: seq<real>, y: real)
    requires y >= 0.0 && |cs| > 0
    requires forall i :: 0 <= i < |cs| ==> cs[i] >= 0.0
    ensures Horner(cs, y) >= cs[0]
    decreases |cs|
  {
    if |cs| > 1 {
      HornerAtLeastFirst(cs[1..], y);
    }
    MulNonNegative(y, Horner(cs[1..], y));
  }

  /** For a non-negative argument, raising coefficients raises the value. */
  lemma {:induction false} HornerMonotone(cs: seq<real>, ds: seq<real>, y: real)
    requires y >= 0.0 && |cs| == |ds|
    requires forall i :: 0 <= i < |cs| ==> cs[i] <= ds[i]
    ensures Horner(cs, y) <= Horner(ds, y)
    decreases |cs|
  {
    if |cs| > 0 {
      HornerMonotone(cs[1..], ds[1..], y);
      MulAtMost(y, Horner(cs[1..], y), Horner(ds[1..], y));
    }
  }

  /** `softClip` is odd, and silent on silence. */
  lemma SoftClipOdd(x: real)
    ensures SoftClip(-x) == -SoftClip(x)
    ensures SoftClip(0.0) == 0.0
  {
    assert (-x) * (-x) == x * x;
    var a, b := Numerator(x), Denominator(x);
    assert Denominator(-x) == b;
    assert Numerator(-x) == -a;
    assert (-a) / b == -(a / b);
  }

  /** Each numerator coefficient is at most the matching denominator
      coefficient, so for `x >= 0` the numerator is at most `x` times the
      denominator. */
  lemma NumeratorBelowDenominator(x: real)
    requires x >= 0.0
    ensures 0.0 <= Numerator(x) <= x * Denominator(x)
  {
    SquareNonNegative(x);
    var p, q := Horner(NumeratorCoefficients, x * x), Horner(DenominatorCoefficients, x * x);
    HornerAtLeastFirst(NumeratorCoefficients, x * x);
    HornerMonotone(NumeratorCoefficients, DenominatorCoefficients, x * x);
    MulNonNegative(x, p);
    MulAtMost(x, p, q);
  }

  /** For non-negative input the clipper neither changes sign nor amplifies:
      `0 <= softClip(x) <= x`. */
  lemma SoftClipBounded(x: real)
    requires x >= 0.0
    ensures 0.0 <= SoftClip(x) <= x
  {
    NumeratorBelowDenominator(x);
    DivBounds(Numerator(x), Denominator(x), x);
  }

  /** The clipper never amplifies in either direction. */
  lemma SoftClipNeverAmplifies(x: real)
    ensures x >= 0.0 ==> 0.0 <= SoftClip(x) <= x
    ensures x < 0.0 ==> x <= SoftClip(x) <= 0.0
  {
    if x >= 0.0 {
      SoftClipBounded(x);
    } else {
      SoftClipBounded(-x);
      SoftClipOdd(x);
    }
  }

  /** One delay line: the ring, the feedback filter's state, the gain, the
      requested length and the fractional part of that length. */
  datatype Delay<F> = Delay(ring: ModuloRing.Ring, filter: F, gain: real, length: real, offset: real)

  /** The ring is valid with a scratch buffer, can be resized, and the
      offset is a fraction. */
  predicate Valid<F>(d: Delay<F>)
  {
    && ModuloRing.Valid(d.ring)
    && d.ring.scratch.Some?
    && 2 <= d.ring.maxLength
    && 0.0 <= d.offset < 1.0
  }

  /** The ring the constructor builds as the source writes it: a storage row
      of `MaxDelayLength` samples under a ring of `maxLength + 1` slots,
      with its write cursor on the last of them. */
  function RingAsWritten(maxLength: nat): (r: ModuloRing.Ring)
    ensures r.currentLength == maxLength + 1 && r.head == maxLength
    ensures |r.buffer| == MaxDelayLength
    ensures ModuloRing.Valid(r) <==> maxLength + 1 == MaxDelayLength
  {
    ModuloRing.New(Zeros(MaxDelayLength), Some(Zeros(MaxDelayLength + 1)), maxLength + 1)
  }

  /** The tank builds every delay with `maxLength == MaxDelayLength`. The
      ring then claims one slot more than its storage row has, its write
      cursor sits just past the row, and `setLength(MaxDelayLength)` asks
      `resize` for the current length, so it returns at once and the first
      block update writes outside the row. */
  lemma AsWrittenRingOverrunsStorage()
    ensures var r := RingAsWritten(MaxDelayLength);
      && !ModuloRing.Valid(r)
      && r.head == |r.buffer|
      && (MaxDelayLength as real).Floor + 1 == r.currentLength
  {
  }

  /** The constructor with a storage row of `maxLength + 1` samples, the
      size the ring it builds addresses: the gain is offered (the default
      0.95 stays if it is refused) and the length set to `maxLength`, which
      leaves the ring at its full size. */
  function New<F>(maxLength: nat, gain: real, filter: F): (d: Delay<F>)
    requires 1 <= maxLength <= MaxDelayLength
    ensures Valid(d)
    ensures d.ring.maxLength == d.ring.currentLength == maxLength + 1
    ensures (d.ring.head + 1) % d.ring.currentLength == d.ring.tail
    ensures d.gain == if gain <= GainCeiling then gain else 0.95
    ensures d.length == maxLength as real && d.offset == 0.0
    ensures forall p :: 0 <= p < |d.ring.buffer| ==> d.ring.buffer[p] == 0.0
  {
    var ring := ModuloRing.New(Zeros(maxLength + 1), Some(Zeros(MaxDelayLength + 1)), maxLength + 1);
    var d := Delay(ring, filter, 0.95, 0.0, 0.0);
    var d := SetGain(d, gain).1;
    assert (maxLength as real).Floor == maxLength;
    SetLength(d, maxLength as real)
  }

  /** `setGain(gain)`: accepted, and applied, exactly when the gain is at
      most `1.1f`. */
  function SetGain<F>(d: Delay<F>, gain: real): (r: (bool, Delay<F>))
    ensures r.0 <==> gain <= GainCeiling
    ensures r.0 ==> r.1 == d.(gain := gain)
    ensures !r.0 ==> r.1 == d
  {
    if gain > GainCeiling then (false, d) else (true, d.(gain := gain))
  }

  /** `setLength(length)`: the ring is resized to one more than the whole
      part of the length, and the fractional part becomes the read offset.
      The length must be non-negative, as the conversion to `size_t` of a
      negative value is undefined. */
  function SetLength<F>(d: Delay<F>, length: real): (r: Delay<F>)
    requires Valid(d) && length >= 0.0
    ensures Valid(r)
    ensures r.length == length
    ensures r.offset == length - length.Floor as real
    ensures r.ring == ModuloRing.Resize(d.ring, length.Floor + 1)
    ensures r.(ring := d.ring, length := d.length, offset := d.offset) == d
    ensures length.Floor + 1 < d.ring.maxLength ==> r.ring.currentLength == length.Floor + 1
    ensures length.Floor + 1 >= d.ring.maxLength ==> r.ring.currentLength + 1 == d.ring.maxLength || r.ring == d.ring
  {
    d.(ring := ModuloRing.Resize(d.ring, length.Floor + 1), length := length, offset := length - length.Floor as real)
  }

  /** The sample fed back into the ring before clipping: the input plus the
      scaled filter output. */
  function Feedback(x: real, gain: real, filtered: real): real
  {
    x + gain * filtered
  }

  /** What the feedback loop leaves behind: the filter state, the filter's
      outputs and the clipped output samples. */
  datatype Loop<F> = Loop(filter: F, filtered: seq<real>, out: seq<real>)

  /** The filter run over the first `n` averages of adjacent fractional
      reads: its final state and every output, in order. */
  datatype Run<F> = Run(filter: F, filtered: seq<real>)

  /** The filter fed, in order, the average of each pair of adjacent
      fractional reads. */
  function FilterRun<F>(tmp: seq<real>, filter: F, n: nat, process: (F, real) -> (F, real)): (r: Run<F>)
    requires n < |tmp|
    ensures |r.filtered| == n
    decreases n
  {
    if n == 0 then Run(filter, [])
    else
      var prev := FilterRun(tmp, filter, n - 1, process);
      var step := process(prev.filter, (tmp[n - 1] + tmp[n]) / 2.0);
      Run(step.0, prev.filtered + [step.1])
  }

  /** The `i`-th filter output is what the filter gives for the `i`-th
      average when it starts from the state the first `i` averages left. */
  lemma {:induction false} FilterRunSteps<F>(tmp: seq<real>, filter: F, n: nat, i: nat, process: (F, real) -> (F, real))
    requires i < n < |tmp|
    ensures FilterRun(tmp, filter, n, process).filtered[i] == process(FilterRun(tmp, filter, i, process).filter, (tmp[i] + tmp[i + 1]) / 2.0).1
    decreases n
  {
    if i < n - 1 {
      FilterRunSteps(tmp, filter, n - 1, i, process);
    }
  }

  /** The feedback loop over the first `n` samples: the filter sees the
      average of two adjacent fractional reads, and the output is the
      clipped input plus scaled filter output. */
  function FeedbackLoop<F>(tmp: seq<real>, input: seq<real>, filter: F, gain: real, n: nat, process: (F, real) -> (F, real)): (r: Loop<F>)
    requires n < |tmp| && n <= |input|
    ensures |r.filtered| == |r.out| == n
    ensures r.filtered == FilterRun(tmp, filter, n, process).filtered
    ensures r.filter == FilterRun(tmp, filter, n, process).filter
    ensures forall i :: 0 <= i < n ==> r.out[i] == SoftClip(Feedback(input[i], gain, r.filtered[i]))
  {
    var run := FilterRun(tmp, filter, n, process);
    Loop(run.filter, run.filtered, seq(n, i requires 0 <= i < n => SoftClip(Feedback(input[i], gain, run.filtered[i]))))
  }

  /** The result of one block: the delay and the caller's output array. */
  datatype DelayBlock<F> = DelayBlock(delay: Delay<F>, output: seq<real>)

  /** The `AudioBlockSize + 1` samples `Delay::update` reads into its
      scratch block: the ring blended at the line's fractional offset, from
      the read cursor on. */
  function Read<F>(d: Delay<F>): (tmp: seq<real>)
    requires Valid(d)
    ensures |tmp| == AudioBlockSize + 1
    ensures forall i :: 0 <= i <= AudioBlockSize ==> tmp[i] == ModuloRing.Blend(d.ring, i, d.offset)
  {
    assert d.offset.Floor == 0;
    ModuloRing.GetFractional(d.ring, Zeros(AudioBlockSize + 1), AudioBlockSize + 1, d.offset)
  }

  /** `Delay::update`: reads `AudioBlockSize + 1` samples at the fractional
      offset, runs the feedback loop over the first `blockSize` of them,
      writes the clipped samples to the output and appends them to the
      ring. */
  function Update<F>(d: Delay<F>, input: seq<real>, output: seq<real>, blockSize: nat, process: (F, real) -> (F, real)): (r: DelayBlock<F>)
    requires Valid(d)
    requires blockSize <= AudioBlockSize && blockSize <= |input| && blockSize <= |output|
    ensures Valid(r.delay)
    ensures r.delay.(ring := d.ring, filter := d.filter) == d
    ensures |r.output| == |output|
    ensures forall i :: blockSize <= i < |output| ==> r.output[i] == output[i]
    ensures r.output[..blockSize] == FeedbackLoop(Read(d), input, d.filter, d.gain, blockSize, process).out
    ensures r.delay.ring == ModuloRing.Update(d.ring, r.output[..blockSize])
    ensures r.delay.filter == FeedbackLoop(Read(d), input, d.filter, d.gain, blockSize, process).filter
  {
    var loop := FeedbackLoop(Read(d), input, d.filter, d.gain, blockSize, process);
    DelayBlock(d.(ring := ModuloRing.Update(d.ring, loop.out), filter := loop.filter), Overwrite(loop.out, output))
  }

  /** `setCutoff(frequency)`: retunes the feedback filter, nothing else. */
  function SetCutoff<F>(d: Delay<F>, frequency: real, retune: (F, real) -> F): (r: Delay<F>)
    ensures r.filter == retune(d.filter, frequency)
    ensures r.(filter := d.filter) == d
  {
    d.(filter := retune(d.filter, frequency))
  }
}
