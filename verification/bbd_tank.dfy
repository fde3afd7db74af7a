/** The reverb tank of `src/include/TankVerb.h`: `NumDelays` bucket-brigade
    taps whose lengths are staggered linearly between the room size and a
    minimum length, all fed the same input block and averaged. */
module BbdTank {
  import opened ModArith
  import opened Blocks
  import BucketBrigade

  /** The tank's state. `maxDelays` is fixed at `NumDelays`; `numDelays` is
      how many taps are currently mixed into the output. */
  datatype Tank<F> = Tank(
    numDelays: nat,
    maxDelays: nat,
    minLength: nat,
    maxRoomSize: nat,
    roomSize: nat,
    delays: seq<BucketBrigade.Bbd<F>>)

  /** One tap per slot of the fixed array, every tap valid and with a
      positive target length, the minimum length never below a block, and
      room size and minimum length no larger than the maximum room size. */
  predicate Valid<F>(t: Tank<F>)
  {
    && t.maxDelays == BucketBrigade.NumDelays
    && |t.delays| == t.maxDelays
    && t.numDelays <= t.maxDelays
    && t.minLength >= BucketBrigade.AudioBlockSize
    && t.maxRoomSize == BucketBrigade.MaxDelayLength
    && t.roomSize <= t.maxRoomSize && t.minLength <= t.maxRoomSize
    && (forall i :: 0 <= i < |t.delays| ==> BucketBrigade.Valid(t.delays[i]) && t.delays[i].newLength > 0.0)
  }

  /** The room size after the clamp of `setLength`: a length at or above the
      maximum room size becomes one less than it. */
  function ClampRoom(maxRoomSize: nat, length: nat): (n: nat)
    requires maxRoomSize > 0
    ensures n < maxRoomSize
    ensures length < maxRoomSize <==> n == length
  {
    if length >= maxRoomSize then maxRoomSize - 1 else length
  }

  /** `setLength(length)`: clamps the room size, then sets tap `i` to
      `room - i * spacing` for every tap of the array, in the source's
      32-bit unsigned arithmetic. While the room is at least the minimum
      length the taps are staggered from the room size down towards the
      minimum; a shorter room wraps, and every tap after the first is then
      given a length of at least the minimum. Apart from its old and new
      lengths every tap is left as it was. A zero length is excluded: it
      gives tap 0 a zero length, by which the next block update divides. */
  function SetLength<F>(t: Tank<F>, length: nat): (r: Tank<F>)
    requires Valid(t) && length > 0
    ensures Valid(r)
    ensures r.roomSize == ClampRoom(t.maxRoomSize, length) && r.roomSize < r.maxRoomSize
    ensures r.(roomSize := t.roomSize, delays := t.delays) == t
    ensures |r.delays| == |t.delays|
    ensures forall i :: 0 <= i < |r.delays| ==>
      r.delays[i] == BucketBrigade.SetLength(t.delays[i], WrappedTapLength(t.maxDelays, t.minLength, r.roomSize, i) as real)
    ensures forall i :: 0 <= i < |r.delays| ==>
      r.delays[i].(oldLength := t.delays[i].oldLength, newLength := t.delays[i].newLength) == t.delays[i]
    ensures r.delays[0].newLength == r.roomSize as real
    ensures t.minLength <= r.roomSize ==> forall i :: 0 <= i < |r.delays| ==>
      && r.delays[i].newLength == TapLength(t.maxDelays, t.minLength, r.roomSize, i) as real
      && t.minLength as real <= r.delays[i].newLength <= r.roomSize as real
    ensures t.minLength <= r.roomSize ==>
      forall i, j :: 0 <= i <= j < |r.delays| ==> r.delays[j].newLength <= r.delays[i].newLength
    ensures r.roomSize < t.minLength ==> forall i :: 1 <= i < |r.delays| ==>
      r.roomSize as real < t.minLength as real <= r.delays[i].newLength
  {
    var room := ClampRoom(t.maxRoomSize, length);
    var n := t.maxDelays;
    var delays := seq(n, i requires 0 <= i < n => BucketBrigade.SetLength(t.delays[i], WrappedTapLength(n, t.minLength, room, i) as real));
    WrappedTapLengths(n, t.minLength, room);
    t.(roomSize := room, delays := delays)
  }

  /** A room shorter than the minimum length: with the minimum at 14400,
      `setLength(1000)` wraps the spacing to 1431651298, and taps 1 to 3 are
      given lengths far beyond the room. */
  lemma ShortRoomWrapsExample<F>(t: Tank<F>)
    requires Valid(t) && t.minLength == 14400
    ensures var r := SetLength(t, 1000);
      [r.delays[0].newLength, r.delays[1].newLength, r.delays[2].newLength, r.delays[3].newLength]
        == [1000.0, 2863316998.0, 1431665700.0, 14402.0]
  {
    assert WrappedSpacing(4, 14400, 1000) == 1431651298;
  }

  /** The constructor: four taps, room size and maximum room size
      `MaxDelayLength`, minimum length one block, then `setLength` of the
      maximum, which the clamp turns into 16383. */
  function New<F>(filter: F): (t: Tank<F>)
    ensures Valid(t)
    ensures t.numDelays == BucketBrigade.NumDelays && t.minLength == BucketBrigade.AudioBlockSize
    ensures t.roomSize == BucketBrigade.MaxDelayLength - 1
    ensures forall i :: 0 <= i < |t.delays| ==> t.delays[i].gain == 0.5 && t.delays[i].isReset
    ensures [t.delays[0].newLength, t.delays[1].newLength, t.delays[2].newLength, t.delays[3].newLength]
      == [16383.0, 11042.0, 5701.0, 360.0]
  {
    var d := BucketBrigade.New(filter);
    var t := Tank(BucketBrigade.NumDelays, BucketBrigade.NumDelays, BucketBrigade.AudioBlockSize,
      BucketBrigade.MaxDelayLength, BucketBrigade.MaxDelayLength, [d, d, d, d]);
    SetLength(t, BucketBrigade.MaxDelayLength)
  }

  /** `setLength(16000)` with the minimum length at one block spaces the
      taps 5213 samples apart. */
  lemma SetLengthExample<F>(t: Tank<F>)
    requires Valid(t) && t.minLength == BucketBrigade.AudioBlockSize
    ensures var r := SetLength(t, 16000);
      [r.delays[0].newLength, r.delays[1].newLength, r.delays[2].newLength, r.delays[3].newLength]
        == [16000.0, 10787.0, 5574.0, 361.0]
  {
    assert Spacing(t.maxDelays, t.minLength, 16000) == 5213;
    assert TapLength(4, 360, 16000, 3) == 361;
  }

  /** `setSpread(spread)`: a spread outside `[0, 1]` is ignored; otherwise
      the minimum length becomes `spread * roomSize`, truncated, but never
      less than one block. */
  function SetSpread<F>(t: Tank<F>, spread: real): (r: Tank<F>)
    requires Valid(t)
    ensures Valid(r)
    ensures r.(minLength := t.minLength) == t
    ensures spread < 0.0 || spread > 1.0 ==> r == t
    ensures 0.0 <= spread <= 1.0 ==>
      var m := (spread * t.roomSize as real).Floor;
      r.minLength == if m < BucketBrigade.AudioBlockSize as int then BucketBrigade.AudioBlockSize else m as nat
    ensures 0.0 <= spread <= 1.0 && t.roomSize >= BucketBrigade.AudioBlockSize ==> r.minLength <= t.roomSize
  {
    if spread < 0.0 || spread > 1.0 then t
    else
      var m := (spread * t.roomSize as real).Floor;
      FractionFloorAtMost(spread, t.roomSize);
      t.(minLength := if m < BucketBrigade.AudioBlockSize as int then BucketBrigade.AudioBlockSize else m as nat)
  }

  /** After an accepted spread, re-applying the current room size with
      `setLength` never wraps: the clamped room is at least the new minimum
      length, so the span between the taps stays non-negative. */
  lemma SpreadKeepsRoomSettable<F>(t: Tank<F>, spread: real)
    requires Valid(t) && 0.0 <= spread <= 1.0
    requires BucketBrigade.AudioBlockSize <= t.roomSize < t.maxRoomSize
    ensures ClampRoom(t.maxRoomSize, t.roomSize) >= SetSpread(t, spread).minLength
  {
  }

  /** `setNumDelays(n)`: a count above the number of taps is ignored. */
  function SetNumDelays<F>(t: Tank<F>, n: nat): (r: Tank<F>)
    requires Valid(t)
    ensures Valid(r)
    ensures r.(numDelays := t.numDelays) == t
    ensures r.numDelays == n <==> n <= t.maxDelays || n == t.numDelays
    ensures n > t.maxDelays ==> r == t
  {
    if n > t.maxDelays then t else t.(numDelays := n)
  }

  /** `setGain(gain)`: offered to every tap of the array, each of which
      applies it only when it is at most the ceiling. */
  function SetGain<F>(t: Tank<F>, gain: real): (r: Tank<F>)
    requires Valid(t)
    ensures Valid(r)
    ensures |r.delays| == |t.delays| && r.(delays := t.delays) == t
    ensures forall i :: 0 <= i < |t.delays| ==>
      r.delays[i] == t.delays[i].(gain := if gain <= GainCeiling then gain else t.delays[i].gain)
  {
    t.(delays := seq(|t.delays|, i requires 0 <= i < |t.delays| => BucketBrigade.SetGain(t.delays[i], gain).1))
  }

  /** Every tap gain stays at or below the ceiling under `setGain`, whatever
      gain is offered. */
  lemma SetGainKeepsCeiling<F>(t: Tank<F>, gain: real)
    requires Valid(t)
    requires forall i :: 0 <= i < |t.delays| ==> t.delays[i].gain <= GainCeiling
    ensures forall i :: 0 <= i < |t.delays| ==> SetGain(t, gain).delays[i].gain <= GainCeiling
  {
  }

  /** `setCutoff(frequency)`: every tap's filter is retuned. */
  function SetCutoff<F>(t: Tank<F>, frequency: real, retune: (F, real) -> F): (r: Tank<F>)
    requires Valid(t)
    ensures Valid(r)
    ensures |r.delays| == |t.delays| && r.(delays := t.delays) == t
    ensures forall i :: 0 <= i < |t.delays| ==>
      r.delays[i] == t.delays[i].(filter := retune(t.delays[i].filter, frequency))
  {
    t.(delays := seq(|t.delays|, i requires 0 <= i < |t.delays| => BucketBrigade.SetCutoff(t.delays[i], frequency, retune)))
  }

  /** One tap's block update into the tank's scratch block. Every sample of
      the scratch block is overwritten, so its earlier contents do not
      matter and it is modelled as silence. */
  function TapUpdate<F>(d: BucketBrigade.Bbd<F>, input: seq<real>, process: (F, real) -> (F, real)): (r: BucketBrigade.BbdBlock<F>)
    requires BucketBrigade.Valid(d) && d.newLength > 0.0
    requires |input| >= BucketBrigade.AudioBlockSize
    ensures BucketBrigade.Valid(r.delay) && r.delay.newLength == d.newLength
    ensures |r.output| == BucketBrigade.AudioBlockSize
  {
    BucketBrigade.Update(d, input, Zeros(BucketBrigade.AudioBlockSize), BucketBrigade.AudioBlockSize, process)
  }

  /** The blocks the active taps produce. Each depends only on its own tap
      and the shared input: the taps do not interact. */
  function TapOutputs<F>(t: Tank<F>, input: seq<real>, process: (F, real) -> (F, real)): (blocks: seq<seq<real>>)
    requires Valid(t)
    requires |input| >= BucketBrigade.AudioBlockSize
    ensures |blocks| == t.numDelays
    ensures forall e :: 0 <= e < |blocks| ==>
      |blocks[e]| == BucketBrigade.AudioBlockSize && blocks[e] == TapUpdate(t.delays[e], input, process).output
  {
    seq(t.numDelays, e requires 0 <= e < t.numDelays => TapUpdate(t.delays[e], input, process).output)
  }

  /** The active taps after one block: each of the first `numDelays` taps
      advanced by its own block update, the rest untouched. */
  function UpdateTaps<F>(t: Tank<F>, input: seq<real>, process: (F, real) -> (F, real)): (delays: seq<BucketBrigade.Bbd<F>>)
    requires Valid(t)
    requires |input| >= BucketBrigade.AudioBlockSize
    ensures |delays| == |t.delays|
    ensures forall e :: 0 <= e < |delays| ==> BucketBrigade.Valid(delays[e]) && delays[e].newLength > 0.0
    ensures forall e :: 0 <= e < t.numDelays ==> delays[e] == TapUpdate(t.delays[e], input, process).delay
    ensures forall e :: t.numDelays <= e < |delays| ==> delays[e] == t.delays[e]
  {
    seq(|t.delays|, e requires 0 <= e < |t.delays| =>
      if e < t.numDelays then TapUpdate(t.delays[e], input, process).delay else t.delays[e])
  }

  /** `update(input, output, count)`: nothing happens when either array is
      missing or `count` is not one block. Otherwise the first `numDelays`
      taps each process the input block, and the output block is their
      average, or silence when no tap is active. Output samples past the
      block, and the inactive taps, are untouched. */
  function Update<F>(t: Tank<F>, input: Option<seq<real>>, output: Option<seq<real>>, count: nat, process: (F, real) -> (F, real)): (r: (Tank<F>, Option<seq<real>>))
    requires Valid(t)
    requires input.Some? && output.Some? && count == BucketBrigade.AudioBlockSize ==>
      |input.value| >= BucketBrigade.AudioBlockSize && |output.value| >= BucketBrigade.AudioBlockSize
    ensures Valid(r.0)
    ensures input.None? || output.None? || count != BucketBrigade.AudioBlockSize ==> r == (t, output)
    ensures input.Some? && output.Some? && count == BucketBrigade.AudioBlockSize ==>
      var blocks, n := TapOutputs(t, input.value, process), t.numDelays;
      && r.0 == t.(delays := UpdateTaps(t, input.value, process))
      && r.1.Some? && |r.1.value| == |output.value|
      && (forall i :: 0 <= i < BucketBrigade.AudioBlockSize ==>
            r.1.value[i] == if n == 0 then 0.0 else ColumnSum(blocks, i) / n as real)
      && (forall i :: BucketBrigade.AudioBlockSize <= i < |output.value| ==> r.1.value[i] == output.value[i])
  {
    if input.None? || output.None? || count != BucketBrigade.AudioBlockSize then (t, output)
    else
      var mixed := Mean(TapOutputs(t, input.value, process), BucketBrigade.AudioBlockSize);
      (t.(delays := UpdateTaps(t, input.value, process)), Some(Overwrite(mixed, output.value)))
  }
}
