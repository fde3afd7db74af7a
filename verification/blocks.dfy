/** Sample blocks shared by every component: silence, and the block arrays
    the tank's block update receives, which may be null. */
module Blocks {
  import opened ModArith

  /** A block array that may be null. */
  datatype Option<+T> = None | Some(value: T)

  /** The exact value of the single-precision literal `1.1f`, the largest
      gain the tap setters accept. */
  const GainCeiling: real := 1.10000002384185791015625

  /** A block of `n` zero samples. */
  function Zeros(n: nat): (z: seq<real>)
    ensures |z| == n
    ensures forall i :: 0 <= i < n ==> z[i] == 0.0
  {
    seq(n, i => 0.0)
  }

  /** `floor(k * (current / new))` in exact arithmetic: the source index a
      resampler reads for output index `k` when it rescales `current`
      samples to `new`. */
  function SourceIndex(k: nat, currentSize: nat, newSize: nat): nat
    requires newSize > 0
  {
    (k * currentSize) / newSize
  }

  /** The fractional part of `k * (current / new)`, in `[0, 1)`. */
  function SourceFraction(k: nat, currentSize: nat, newSize: nat): (f: real)
    requires newSize > 0
    ensures 0.0 <= f < 1.0
    ensures SourceIndex(k, currentSize, newSize) as real + f == (k * currentSize) as real / newSize as real
  {
    var q, m := (k * currentSize) / newSize, (k * currentSize) % newSize;
    assert (k * currentSize) as real == (q * newSize) as real + m as real;
    assert (q * newSize) as real == q as real * newSize as real;
    m as real / newSize as real
  }

  /** Every output index below `newSize` maps to a source index below `currentSize`. */
  lemma SourceIndexInRange(k: nat, currentSize: nat, newSize: nat)
    requires k < newSize && currentSize > 0
    ensures SourceIndex(k, currentSize, newSize) < currentSize
  {
    MulMonotone(k, newSize - 1, currentSize);
    assert (newSize - 1) * currentSize == currentSize * newSize - currentSize;
    DivBelow(k * currentSize, currentSize, newSize);
  }

  /** Sum of sample `i` over every block of `blocks`. */
  function ColumnSum(blocks: seq<seq<real>>, i: nat): real
    requires forall e :: 0 <= e < |blocks| ==> i < |blocks[e]|
    decreases |blocks|
  {
    if |blocks| == 0 then 0.0
    else ColumnSum(blocks[..|blocks| - 1], i) + blocks[|blocks| - 1][i]
  }

  /** One pass of the mixing loop: `acc[i] += block[i] * scale` for every `i`. */
  function AddScaled(acc: seq<real>, block: seq<real>, scale: real): (r: seq<real>)
    requires |block| == |acc|
    ensures |r| == |acc|
  {
    seq(|acc|, i requires 0 <= i < |acc| => acc[i] + block[i] * scale)
  }

  /** The mixing loop over every block: each block is added, scaled, in turn.
      The result is the scaled column sum added to the starting block. */
  function Accumulate(acc: seq<real>, blocks: seq<seq<real>>, scale: real): (r: seq<real>)
    requires forall e :: 0 <= e < |blocks| ==> |blocks[e]| == |acc|
    ensures |r| == |acc|
    ensures forall i :: 0 <= i < |acc| ==> r[i] == acc[i] + ColumnSum(blocks, i) * scale
    decreases |blocks|
  {
    if |blocks| == 0 then acc
    else
      var k := |blocks| - 1;
      var prev := Accumulate(acc, blocks[..k], scale);
      assert forall i :: 0 <= i < |acc| ==> ColumnSum(blocks, i) == ColumnSum(blocks[..k], i) + blocks[k][i];
      AddScaled(prev, blocks[k], scale)
  }

  /** Blocks that agree at sample `i` sum to that value times their count. */
  lemma {:induction false} ColumnSumConstant(blocks: seq<seq<real>>, i: nat, v: real)
    requires forall e :: 0 <= e < |blocks| ==> i < |blocks[e]| && blocks[e][i] == v
    ensures ColumnSum(blocks, i) == |blocks| as real * v
    decreases |blocks|
  {
    if |blocks| > 0 {
      ColumnSumConstant(blocks[..|blocks| - 1], i, v);
    }
  }

  /** The mixing loop of both tanks: a cleared block to which every tap's
      block is added, scaled by the reciprocal of the tap count. The result
      is the per-sample mean, or silence when there is no block. */
  function Mean(blocks: seq<seq<real>>, size: nat): (m: seq<real>)
    requires forall e :: 0 <= e < |blocks| ==> |blocks[e]| == size
    ensures |m| == size
    ensures forall i :: 0 <= i < size ==> m[i] == if |blocks| == 0 then 0.0 else ColumnSum(blocks, i) / |blocks| as real
  {
    var n := |blocks|;
    if n == 0 then Zeros(size)
    else
      var acc := Accumulate(Zeros(size), blocks, 1.0 / n as real);
      assert forall i :: 0 <= i < size ==> acc[i] == ColumnSum(blocks, i) / n as real by {
        forall i | 0 <= i < size
          ensures acc[i] == ColumnSum(blocks, i) / n as real
        {
          ScaleByReciprocal(ColumnSum(blocks, i), n as real);
        }
      }
      acc
  }

  /** Multiplying by `1 / n` is dividing by `n`. */
  lemma ScaleByReciprocal(x: real, n: real)
    requires n != 0.0
    ensures 0.0 + x * (1.0 / n) == x / n
  {
  }

  /** The mean of copies of one block is that block. */
  lemma MeanOfEqualBlocks(blocks: seq<seq<real>>, b: seq<real>)
    requires |blocks| > 0
    requires forall e :: 0 <= e < |blocks| ==> blocks[e] == b
    ensures Mean(blocks, |b|) == b
  {
    var m := Mean(blocks, |b|);
    forall i | 0 <= i < |b|
      ensures m[i] == b[i]
    {
      ColumnSumConstant(blocks, i, b[i]);
    }
  }

  /** A block written over the front of a longer array: the block's samples
      come first and the rest of the array is untouched. */
  function Overwrite(block: seq<real>, output: seq<real>): (r: seq<real>)
    requires |block| <= |output|
    ensures |r| == |output|
    ensures r[..|block|] == block
    ensures forall i :: 0 <= i < |block| ==> r[i] == block[i]
    ensures forall i :: |block| <= i < |output| ==> r[i] == output[i]
  {
    block + output[|block|..]
  }

  /** The spacing between consecutive tap lengths in both tanks: the span
      from the minimum length to the room size split into `taps - 1` equal
      integer steps, or 1 for a single tap. */
  function Spacing(taps: nat, minLength: nat, room: nat): (s: nat)
    requires taps > 1 ==> room >= minLength
    ensures taps > 1 ==> (taps - 1) * s <= room - minLength
    ensures taps > 1 ==> room - minLength < (taps - 1) * (s + 1)
  {
    if taps > 1 then (room - minLength) / (taps - 1) else 1
  }

  /** The length tap `e` of `taps` is given for a room size: `room - e *
      spacing`. */
  function TapLength(taps: nat, minLength: nat, room: nat, e: nat): (n: nat)
    requires taps > 1 ==> room >= minLength
    requires e < taps
    ensures n <= room
    ensures taps > 1 ==> minLength <= n
    ensures e == 0 ==> n == room
  {
    var s := Spacing(taps, minLength, room);
    MulMonotone(e, taps - 1, s);
    room - e * s
  }

  /** A later tap is never longer than an earlier one. */
  lemma TapLengthNonIncreasing(taps: nat, minLength: nat, room: nat, i: nat, j: nat)
    requires taps > 1 ==> room >= minLength
    requires i <= j < taps
    ensures TapLength(taps, minLength, room, j) <= TapLength(taps, minLength, room, i)
  {
    MulMonotone(i, j, Spacing(taps, minLength, room));
  }

  /** A fraction of a length, truncated, is at most the length: `setSpread`
      never sets a minimum length above the room size it scales. */
  lemma FractionFloorAtMost(spread: real, room: nat)
    requires 0.0 <= spread <= 1.0
    ensures (spread * room as real).Floor <= room
  {
    var x := room as real;
    assert 0.0 <= (1.0 - spread) * x;
    assert x - spread * x == (1.0 - spread) * x;
  }

  /** The width of `unsigned` on the pedal's 32-bit target. */
  const WordModulus: nat := 0x1_0000_0000

  /** The spacing both tanks' `setLength` compute: `length - minLength` is
      an unsigned subtraction, so a room shorter than the minimum length
      wraps round the word before the division. */
  function WrappedSpacing(taps: nat, minLength: nat, room: nat): nat
  {
    if taps > 1 then ((room - minLength) % WordModulus) / (taps - 1) else 1
  }

  /** The length tap `e` is given: `room - e * spacing`, with the product
      and the difference both taken modulo the word. */
  function WrappedTapLength(taps: nat, minLength: nat, room: nat, e: nat): (n: nat)
    ensures n < WordModulus
  {
    (room - (e * WrappedSpacing(taps, minLength, room)) % WordModulus) % WordModulus
  }

  /** While the room is no shorter than the minimum length nothing wraps:
      the source's arithmetic gives the staggered `TapLength`. */
  lemma WrappedTapLengthAgrees(taps: nat, minLength: nat, room: nat, e: nat)
    requires taps > 1 ==> room >= minLength
    requires room < WordModulus && e < taps
    ensures WrappedTapLength(taps, minLength, room, e) == TapLength(taps, minLength, room, e)
  {
    if taps > 1 {
      ModSmall(room - minLength, WordModulus);
    }
    var s := Spacing(taps, minLength, room);
    assert WrappedSpacing(taps, minLength, room) == s;
    MulMonotone(e, taps - 1, s);
    ModSmall(e * s, WordModulus);
    ModSmall(room - e * s, WordModulus);
  }

  /** A room shorter than the minimum length (both within the 16-bit range
      of the delay lengths) wraps: every tap after the first is given a
      length of at least the minimum, so longer than the room itself, and
      the spacing is near a third of the word. */
  lemma {:induction false} WrappedTapLengthBelowMinimum(taps: nat, minLength: nat, room: nat, e: nat)
    requires 1 < taps <= 4 && room < minLength <= 0x1_0000
    requires 0 < e < taps
    ensures minLength <= WrappedTapLength(taps, minLength, room, e)
    ensures room < WrappedSpacing(taps, minLength, room)
  {
    var span := room - minLength + WordModulus;
    assert (room - minLength) % WordModulus == span by {
      ModAddMultiple(room - minLength, 1, WordModulus);
      ModSmall(span, WordModulus);
    }
    var s := span / (taps - 1);
    assert WrappedSpacing(taps, minLength, room) == s;
    assert room < s by {
      assert span == s * (taps - 1) + span % (taps - 1);
      if s <= room {
        MulMonotone(s, 0x1_0000, taps - 1);
        MulMonotone(taps - 1, 4, 0x1_0000);
        assert false;
      }
    }
    MulMonotone(e, taps - 1, s);
    assert (taps - 1) * s <= span by {
      assert span == s * (taps - 1) + span % (taps - 1);
    }
    ModSmall(e * s, WordModulus);
    MulAtLeast(e, s);
    ModAddMultiple(room - e * s, 1, WordModulus);
    ModSmall(room - e * s + WordModulus, WordModulus);
  }

  /** All the taps of one `setLength` at once: the first tap is the room
      itself, every later tap is at least the minimum length whether or not
      the spacing wrapped, and without a wrap the lengths are the staggered
      ones, non-increasing from the first tap to the last. */
  lemma WrappedTapLengths(taps: nat, minLength: nat, room: nat)
    requires 1 < taps <= 4 && room < WordModulus && minLength <= 0x1_0000
    ensures WrappedTapLength(taps, minLength, room, 0) == room
    ensures forall e :: 0 < e < taps ==> minLength <= WrappedTapLength(taps, minLength, room, e)
    ensures minLength <= room ==> forall e :: 0 <= e < taps ==>
      WrappedTapLength(taps, minLength, room, e) == TapLength(taps, minLength, room, e)
    ensures minLength <= room ==> forall i, j :: 0 <= i <= j < taps ==>
      TapLength(taps, minLength, room, j) <= TapLength(taps, minLength, room, i)
  {
    ModSmall(room, WordModulus);
    if minLength <= room {
      forall e | 0 <= e < taps
        ensures WrappedTapLength(taps, minLength, room, e) == TapLength(taps, minLength, room, e)
      {
        WrappedTapLengthAgrees(taps, minLength, room, e);
      }
      forall i, j | 0 <= i <= j < taps
        ensures TapLength(taps, minLength, room, j) <= TapLength(taps, minLength, room, i)
      {
        TapLengthNonIncreasing(taps, minLength, room, i, j);
      }
    } else {
      forall e | 0 < e < taps
        ensures minLength <= WrappedTapLength(taps, minLength, room, e)
      {
        WrappedTapLengthBelowMinimum(taps, minLength, room, e);
      }
    }
  }
}
