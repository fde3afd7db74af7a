/** The reverb tank of the older variant (`src/TankVerb.h`): `NumDelays`
    ring-buffer delay lines whose lengths are staggered like the
    bucket-brigade tank's, except that each `setLength` call commits the new
    length to one tap only, round-robin over the active taps. */
module StaggeredTank {
  import opened ModArith
  import opened Blocks
  import RingDelay

  /** The tank's state. `maxDelays` is fixed at `NumDelays`;
      `indexToResize` is the tap the next `setLength` call commits. */
  datatype Tank<F> = Tank(
    numDelays: nat,
    maxDelays: nat,
    minLength: nat,
    indexToResize: nat,
    maxRoomSize: nat,
    roomSize: nat,
    delays: seq<RingDelay.Delay<F>>)

  /** One valid delay line per slot, the cursor on one of them, the minimum
      length never below a block, and room size and minimum length no larger
      than the maximum room size. */
  predicate Valid<F>(t: Tank<F>)
  {
    && t.maxDelays == RingDelay.NumDelays
    && |t.delays| == t.maxDelays
    && t.numDelays <= t.maxDelays
    && t.indexToResize < t.maxDelays
    && t.minLength >= RingDelay.AudioBlockSize
    && t.maxRoomSize == RingDelay.MaxDelayLength
    && t.roomSize <= t.maxRoomSize && t.minLength <= t.maxRoomSize
    && (forall i :: 0 <= i < |t.delays| ==> RingDelay.Valid(t.delays[i]))
  }

  /** `setLength(length)`: a length above the maximum room size is ignored.
      Otherwise the room size is set, only the tap under the cursor is given
      the length `room - cursor * spacing`, and the cursor moves to the next
      active tap. The length is computed in the source's 32-bit unsigned
      arithmetic: a room shorter than the minimum length wraps, and the tap
      under the cursor, unless it is tap 0, is then given a length of at
      least the minimum. The source takes the next cursor modulo the
      active-tap count, so an accepted call needs at least one active tap. */
  function SetLength<F>(t: Tank<F>, length: nat): (r: Tank<F>)
    requires Valid(t)
    requires length <= t.maxRoomSize ==> t.numDelays > 0
    ensures Valid(r)
    ensures length > t.maxRoomSize ==> r == t
    ensures length <= t.maxRoomSize ==>
      var i := t.indexToResize;
      && r.(roomSize := t.roomSize, indexToResize := i, delays := t.delays) == t
      && r.roomSize == length
      && r.indexToResize == (i + 1) % t.numDelays
      && |r.delays| == |t.delays|
      && r.delays[i] == RingDelay.SetLength(t.delays[i], WrappedTapLength(t.maxDelays, t.minLength, length, i) as real)
      && (forall e :: 0 <= e < |t.delays| && e != i ==> r.delays[e] == t.delays[e])
      && (i == 0 ==> r.delays[i].length == length as real)
      && (t.minLength <= length ==>
            r.delays[i] == RingDelay.SetLength(t.delays[i], TapLength(t.maxDelays, t.minLength, length, i) as real))
      && (length < t.minLength && i > 0 ==> length as real < t.minLength as real <= r.delays[i].length)
  {
    if length > t.maxRoomSize then t
    else
      var i := t.indexToResize;
      WrappedTapLengths(t.maxDelays, t.minLength, length);
      var d := RingDelay.SetLength(t.delays[i], WrappedTapLength(t.maxDelays, t.minLength, length, i) as real);
      t.(roomSize := length, indexToResize := (i + 1) % t.numDelays, delays := t.delays[i := d])
  }

  /** The fields no `setLength` call changes: the tap counts, the minimum
      length and the maximum room size. */
  function Settings<F>(t: Tank<F>): (nat, nat, nat, nat)
  {
    (t.numDelays, t.maxDelays, t.minLength, t.maxRoomSize)
  }

  /** `setLength` called `k` times with the same length. */
  function SetLengthTimes<F>(t: Tank<F>, length: nat, k: nat): (r: Tank<F>)
    requires Valid(t)
    requires t.numDelays > 0 && length <= t.maxRoomSize
    ensures Valid(r)
    ensures Settings(r) == Settings(t)
    ensures k > 0 ==> r.roomSize == length
    decreases k
  {
    if k == 0 then t else SetLength(SetLengthTimes(t, length, k - 1), length)
  }

  /** The active tap after cursor `c` of `n`: `(c + 1) % n` without the
      division. */
  function Next(c: nat, n: nat): (d: nat)
    requires c < n
    ensures d < n
  {
    if c + 1 < n then c + 1 else 0
  }

  /** `Next` is the source's `(c + 1) % n` for a cursor on an active tap. */
  lemma NextIsModulo(c: nat, n: nat)
    requires c < n
    ensures (c + 1) % n == Next(c, n)
  {
    if c + 1 < n {
      ModSmall(c + 1, n);
    } else {
      ModAddMultiple(0, 1, n);
      ModSmall(0, n);
    }
  }

  /** The cursor after `k` round-robin steps from `h` over `n` taps. */
  function Advance(h: nat, k: nat, n: nat): (c: nat)
    requires h < n
    ensures c < n
  {
    if k == 0 then h else Next(Advance(h, k - 1, n), n)
  }

  /** `k` single steps move the cursor `k` taps on, modulo `n`. */
  lemma {:induction false} AdvanceIsSum(h: nat, k: nat, n: nat)
    requires h < n
    ensures Advance(h, k, n) == (h + k) % n
  {
    if k == 0 {
      ModSmall(h, n);
    } else {
      AdvanceIsSum(h, k - 1, n);
      NextIsModulo(Advance(h, k - 1, n), n);
      ModOfSum(h + (k - 1), 1, n);
    }
  }

  /** `k` round-robin commits: starting from `taps`, each of the first `k`
      cursor positions from `h` takes its entry from `committed`. */
  function Walk<T>(taps: seq<T>, committed: seq<T>, h: nat, k: nat, n: nat): (r: seq<T>)
    requires |committed| == |taps| && h < n <= |taps|
    ensures |r| == |taps|
  {
    if k == 0 then taps
    else
      var c := Advance(h, k - 1, n);
      Walk(taps, committed, h, k - 1, n)[c := committed[c]]
  }

  /** After `k <= n` commits from `h`, tap `e` holds its committed entry exactly
      when it is one of the first `n` and lies fewer than `k` steps after
      `h`; every other tap keeps its entry. */
  lemma {:induction false} WalkCommits<T>(taps: seq<T>, committed: seq<T>, h: nat, k: nat, n: nat, e: nat)
    requires |committed| == |taps| && h < n <= |taps| && k <= n && e < |taps|
    ensures Walk(taps, committed, h, k, n)[e] == if e < n && (e - h) % n < k then committed[e] else taps[e]
  {
    if k > 0 {
      WalkCommits(taps, committed, h, k - 1, n, e);
      var c := Advance(h, k - 1, n);
      AdvanceIsSum(h, k - 1, n);
      OffsetOf(h, k - 1, n);
      if e < n && e != c {
        CursorReaches(h, e, n);
      }
    }
  }

  /** Before the walk has gone all the way round, the tap under the cursor
      still holds its original entry. */
  lemma WalkCursorUntouched<T>(taps: seq<T>, committed: seq<T>, h: nat, k: nat, n: nat)
    requires |committed| == |taps| && h < n <= |taps| && k < n
    ensures Walk(taps, committed, h, k, n)[Advance(h, k, n)] == taps[Advance(h, k, n)]
  {
    var c := Advance(h, k, n);
    CursorOffset(h, k, n);
    assert !(c < n && (c - h) % n < k);
    WalkCommits(taps, committed, h, k, n, c);
  }

  /** The cursor after `k < n` steps from `h` lies `k` steps after `h`. */
  lemma CursorOffset(h: nat, k: nat, n: nat)
    requires h < n && k < n
    ensures (Advance(h, k, n) - h) % n == k
  {
    AdvanceIsSum(h, k, n);
    OffsetOf(h, k, n);
  }

  /** A tap `e` is reached from cursor `h` after `(e - h) % n` steps. */
  lemma CursorReaches(h: int, e: int, n: int)
    requires n > 0 && 0 <= e < n
    ensures (h + (e - h) % n) % n == e
  {
    ModOfSum(e - h, h, n);
    ModSmall(e, n);
  }

  /** A cursor moved `n` steps round `n` taps is back where it started. */
  lemma CursorReturns(h: int, n: int)
    requires 0 <= h < n
    ensures (h + n) % n == h
  {
    ModAddMultiple(h, 1, n);
    ModSmall(h, n);
  }

  /** Every tap as a `setLength(length)` call would commit it. */
  function Fresh<F>(t: Tank<F>, length: nat): (r: seq<RingDelay.Delay<F>>)
    requires Valid(t)
    ensures |r| == |t.delays|
  {
    seq(|t.delays|, e requires 0 <= e < |t.delays| =>
      RingDelay.SetLength(t.delays[e], WrappedTapLength(t.maxDelays, t.minLength, length, e) as real))
  }

  /** One more `setLength` call on a tank `k` steps into a round-robin
      walk from `t0`, before the walk has gone round, takes it one step
      further: the tap under the cursor is still untouched, takes its fresh
      length, and the cursor moves one tap on. */
  lemma SetLengthWalks<F>(t0: Tank<F>, t: Tank<F>, length: nat, k: nat)
    requires Valid(t0) && Valid(t) && Settings(t) == Settings(t0)
    requires k < t0.numDelays && length <= t0.maxRoomSize && t0.indexToResize < t0.numDelays
    requires t.indexToResize == Advance(t0.indexToResize, k, t0.numDelays)
    requires t.delays == Walk(t0.delays, Fresh(t0, length), t0.indexToResize, k, t0.numDelays)
    ensures var r := SetLength(t, length);
      && r.indexToResize == Advance(t0.indexToResize, k + 1, t0.numDelays)
      && r.delays == Walk(t0.delays, Fresh(t0, length), t0.indexToResize, k + 1, t0.numDelays)
  {
    var n, h, c := t0.numDelays, t0.indexToResize, t.indexToResize;
    var goal, t' := Fresh(t0, length), SetLength(t, length);
    assert t.delays[c] == t0.delays[c] by {
      WalkCursorUntouched(t0.delays, goal, h, k, n);
    }
    assert goal[c] == RingDelay.SetLength(t.delays[c], WrappedTapLength(t.maxDelays, t.minLength, length, c) as real);
    assert t'.delays == t.delays[c := goal[c]];
    NextIsModulo(c, n);
  }

  /** Up to `numDelays` calls of `setLength` from a cursor on an active tap
      are a round-robin walk of as many steps. */
  lemma SetLengthTimesWalks<F>(t: Tank<F>, length: nat, k: nat)
    requires Valid(t)
    requires t.numDelays > 0 && length <= t.maxRoomSize
    requires t.indexToResize < t.numDelays && k <= t.numDelays
    ensures var r := SetLengthTimes(t, length, k);
      && r.indexToResize == Advance(t.indexToResize, k, t.numDelays)
      && r.delays == Walk(t.delays, Fresh(t, length), t.indexToResize, k, t.numDelays)
  {
    var s, j := t, 0;
    while j < k
      invariant j <= k && s == SetLengthTimes(t, length, j)
      invariant s.indexToResize == Advance(t.indexToResize, j, t.numDelays)
      invariant s.delays == Walk(t.delays, Fresh(t, length), t.indexToResize, j, t.numDelays)
    {
      SetLengthWalks(t, s, length, j);
      s, j := SetLength(s, length), j + 1;
    }
  }

  /** A walk of `n` steps round `n` taps commits each of them once and
      returns the cursor to where it started. */
  lemma WalkAllTheWayRound<T>(taps: seq<T>, committed: seq<T>, h: nat, n: nat)
    requires |committed| == |taps| && h < n <= |taps|
    ensures Advance(h, n, n) == h
    ensures forall e :: 0 <= e < |taps| ==> Walk(taps, committed, h, n, n)[e] == if e < n then committed[e] else taps[e]
  {
    AdvanceIsSum(h, n, n);
    CursorReturns(h, n);
    forall e | 0 <= e < |taps|
      ensures Walk(taps, committed, h, n, n)[e] == if e < n then committed[e] else taps[e]
    {
      WalkCommits(taps, committed, h, n, n, e);
    }
  }

  /** With the cursor on an active tap, `numDelays` calls of `setLength`
      with the same length commit it to every active tap, each once, and
      leave the cursor where it started; the inactive taps are untouched.
      A room no shorter than the minimum length gives each tap its
      staggered length. */
  lemma RoundRobinCommitsEveryActiveTap<F>(t: Tank<F>, length: nat)
    requires Valid(t)
    requires t.numDelays > 0 && length <= t.maxRoomSize
    requires t.indexToResize < t.numDelays
    ensures var r, n := SetLengthTimes(t, length, t.numDelays), t.numDelays;
      && r.indexToResize == t.indexToResize
      && (forall e :: 0 <= e < n ==> r.delays[e] == RingDelay.SetLength(t.delays[e], WrappedTapLength(t.maxDelays, t.minLength, length, e) as real))
      && (t.minLength <= length ==> forall e :: 0 <= e < n ==>
            r.delays[e] == RingDelay.SetLength(t.delays[e], TapLength(t.maxDelays, t.minLength, length, e) as real))
      && (forall e :: n <= e < |t.delays| ==> r.delays[e] == t.delays[e])
  {
    var n, h, goal := t.numDelays, t.indexToResize, Fresh(t, length);
    var r := SetLengthTimes(t, length, n);
    SetLengthTimesWalks(t, length, n);
    assert r.delays == Walk(t.delays, goal, h, n, n) && r.indexToResize == Advance(h, n, n);
    WalkAllTheWayRound(t.delays, goal, h, n);
    forall e | 0 <= e < n
      ensures r.delays[e] == RingDelay.SetLength(t.delays[e], WrappedTapLength(t.maxDelays, t.minLength, length, e) as real)
    {
      assert r.delays[e] == goal[e];
    }
    WrappedTapLengths(t.maxDelays, t.minLength, length);
  }

  /** Calling `setLength` `k > 0` times is one call followed by `k - 1`
      more. */
  lemma {:induction false} SetLengthTimesFirst<F>(t: Tank<F>, length: nat, k: nat)
    requires Valid(t)
    requires t.numDelays > 0 && length <= t.maxRoomSize && k > 0
    ensures SetLengthTimes(t, length, k) == SetLengthTimes(SetLength(t, length), length, k - 1)
  {
    if k > 1 {
      SetLengthTimesFirst(t, length, k - 1);
    }
  }

  /** `setNumDelays` can leave the cursor on a tap that is no longer active.
      The next `setLength` call then commits only that inactive tap and
      moves the cursor onto an active one, so it takes `numDelays + 1` calls
      to commit the length to every active tap. */
  lemma RoundRobinFromInactiveCursor<F>(t: Tank<F>, length: nat)
    requires Valid(t)
    requires 0 < t.numDelays <= t.indexToResize && length <= t.maxRoomSize
    ensures var r1, h := SetLength(t, length), t.indexToResize;
      && r1.indexToResize == (h + 1) % t.numDelays < t.numDelays
      && r1.delays == t.delays[h := RingDelay.SetLength(t.delays[h], WrappedTapLength(t.maxDelays, t.minLength, length, h) as real)]
    ensures var r, n, h := SetLengthTimes(t, length, t.numDelays + 1), t.numDelays, t.indexToResize;
      && r.indexToResize == (h + 1) % n
      && (forall e :: 0 <= e < n ==> r.delays[e] == RingDelay.SetLength(t.delays[e], WrappedTapLength(t.maxDelays, t.minLength, length, e) as real))
      && r.delays[h] == RingDelay.SetLength(t.delays[h], WrappedTapLength(t.maxDelays, t.minLength, length, h) as real)
      && (forall e :: n <= e < |t.delays| && e != h ==> r.delays[e] == t.delays[e])
  {
    var r1, h := SetLength(t, length), t.indexToResize;
    assert r1.delays == t.delays[h := r1.delays[h]];
    var r := SetLengthTimes(t, length, t.numDelays + 1);
    assert r == SetLengthTimes(r1, length, t.numDelays) by {
      SetLengthTimesFirst(t, length, t.numDelays + 1);
    }
    RoundRobinCommitsEveryActiveTap(r1, length);
    forall e | 0 <= e < t.numDelays
      ensures r.delays[e] == RingDelay.SetLength(t.delays[e], WrappedTapLength(t.maxDelays, t.minLength, length, e) as real)
    {
      assert r1.delays[e] == t.delays[e];
    }
  }

  /** The tank's constructor: one line per slot, each built for the longest
      delay with gain 0.9, all taps active, the cursor on tap 0 and the
      minimum length one block; then `setLength(500)` commits 500 to tap 0
      and moves the cursor on. */
  function New<F>(filter: F): (t: Tank<F>)
    ensures Valid(t)
    ensures t.numDelays == t.maxDelays == RingDelay.NumDelays
    ensures t.minLength == RingDelay.AudioBlockSize && t.roomSize == 500 && t.indexToResize == 1
  {
    ModSmall(1, RingDelay.NumDelays);
    SetLength(Unsized(filter), 500)
  }

  /** After construction tap 0 is 500 samples long and the other lines keep
      the longest delay; every line has gain 0.9. */
  lemma NewLines<F>(filter: F)
    ensures var t := New(filter);
      && t.delays[0].length == 500.0
      && (forall e :: 1 <= e < |t.delays| ==> t.delays[e].length == RingDelay.MaxDelayLength as real)
      && (forall e :: 0 <= e < |t.delays| ==> t.delays[e].gain == 0.9)
  {
    var t := Unsized(filter);
    var d := RingDelay.SetLength(t.delays[0], WrappedTapLength(t.maxDelays, t.minLength, 500, 0) as real);
    assert New(filter).delays[0] == d;
  }

  /** The constructor's state before its `setLength(500)` call. */
  function Unsized<F>(filter: F): (t: Tank<F>)
    ensures Valid(t)
    ensures t.numDelays == t.maxDelays && t.minLength == RingDelay.AudioBlockSize && t.indexToResize == 0
    ensures forall e :: 0 <= e < |t.delays| ==> t.delays[e].length == RingDelay.MaxDelayLength as real && t.delays[e].gain == 0.9
  {
    var line := RingDelay.New(RingDelay.MaxDelayLength, 0.9, filter);
    Tank(RingDelay.NumDelays, RingDelay.NumDelays, RingDelay.AudioBlockSize, 0,
      RingDelay.MaxDelayLength, RingDelay.MaxDelayLength, seq(RingDelay.NumDelays, _ => line))
  }

  /** `setNumDelays(n)`: a count above the number of slots is ignored. The
      cursor is left where it is, even on a tap that is no longer active. */
  function SetNumDelays<F>(t: Tank<F>, n: nat): (r: Tank<F>)
    requires Valid(t)
    ensures Valid(r)
    ensures r.(numDelays := t.numDelays) == t
    ensures r.numDelays == n <==> n <= t.maxDelays || n == t.numDelays
    ensures n > t.maxDelays ==> r == t
  {
    if n > t.maxDelays then t else t.(numDelays := n)
  }

  /** `setCutoff(frequency)`: every line's filter is retuned, active or not. */
  function SetCutoff<F>(t: Tank<F>, frequency: real, retune: (F, real) -> F): (r: Tank<F>)
    requires Valid(t)
    ensures Valid(r)
    ensures |r.delays| == |t.delays| && r.(delays := t.delays) == t
    ensures forall i :: 0 <= i < |t.delays| ==>
      r.delays[i] == t.delays[i].(filter := retune(t.delays[i].filter, frequency))
  {
    t.(delays := seq(|t.delays|, i requires 0 <= i < |t.delays| => RingDelay.SetCutoff(t.delays[i], frequency, retune)))
  }

  /** `setGain(gain)`: offered to the active lines only, each of which
      applies it only when it is at most the ceiling; inactive lines keep
      their gain. */
  function SetGain<F>(t: Tank<F>, gain: real): (r: Tank<F>)
    requires Valid(t)
    ensures Valid(r)
    ensures |r.delays| == |t.delays| && r.(delays := t.delays) == t
    ensures forall i :: 0 <= i < t.numDelays ==>
      r.delays[i] == t.delays[i].(gain := if gain <= GainCeiling then gain else t.delays[i].gain)
    ensures forall i :: t.numDelays <= i < |t.delays| ==> r.delays[i] == t.delays[i]
  {
    t.(delays := seq(|t.delays|, i requires 0 <= i < |t.delays| =>
      if i < t.numDelays then RingDelay.SetGain(t.delays[i], gain).1 else t.delays[i]))
  }

  /** Every line's gain stays at or below the ceiling under `setGain`,
      whatever gain is offered. */
  lemma SetGainKeepsCeiling<F>(t: Tank<F>, gain: real)
    requires Valid(t)
    requires forall i :: 0 <= i < |t.delays| ==> t.delays[i].gain <= GainCeiling
    ensures forall i :: 0 <= i < |t.delays| ==> SetGain(t, gain).delays[i].gain <= GainCeiling
  {
  }

  /** `setSpread(spread)`: a spread outside `[0, 1]` is ignored; otherwise
      the minimum length becomes `spread * roomSize`, truncated, but never
      less than one block. No tap is resized until the next `setLength`. */
  function SetSpread<F>(t: Tank<F>, spread: real): (r: Tank<F>)
    requires Valid(t)
    ensures Valid(r)
    ensures r.(minLength := t.minLength) == t
    ensures spread < 0.0 || spread > 1.0 ==> r == t
    ensures 0.0 <= spread <= 1.0 ==>
      var m := (spread * t.roomSize as real).Floor;
      r.minLength == if m < RingDelay.AudioBlockSize as int then RingDelay.AudioBlockSize else m as nat
  {
    if spread < 0.0 || spread > 1.0 then t
    else
      var m := (spread * t.roomSize as real).Floor;
      FractionFloorAtMost(spread, t.roomSize);
      t.(minLength := if m < RingDelay.AudioBlockSize as int then RingDelay.AudioBlockSize else m as nat)
  }

  /** An accepted spread never puts the minimum length above a room size of
      at least one block. */
  lemma SetSpreadWithinRoom<F>(t: Tank<F>, spread: real)
    requires Valid(t) && 0.0 <= spread <= 1.0 && t.roomSize >= RingDelay.AudioBlockSize
    ensures SetSpread(t, spread).minLength <= t.roomSize
  {
    FractionFloorAtMost(spread, t.roomSize);
  }

  /** One line's block update into the tank's scratch block, which the line
      overwrites in full and so is modelled as silence. */
  function LineUpdate<F>(d: RingDelay.Delay<F>, input: seq<real>, process: (F, real) -> (F, real)): (r: RingDelay.DelayBlock<F>)
    requires RingDelay.Valid(d)
    requires |input| >= RingDelay.AudioBlockSize
    ensures RingDelay.Valid(r.delay)
    ensures |r.output| == RingDelay.AudioBlockSize
  {
    RingDelay.Update(d, input, Zeros(RingDelay.AudioBlockSize), RingDelay.AudioBlockSize, process)
  }

  /** The blocks every line produces, active or not: each depends only on
      its own line and the shared input. */
  function LineOutputs<F>(t: Tank<F>, input: seq<real>, process: (F, real) -> (F, real)): (blocks: seq<seq<real>>)
    requires Valid(t)
    requires |input| >= RingDelay.AudioBlockSize
    ensures |blocks| == t.maxDelays
    ensures forall e :: 0 <= e < |blocks| ==> |blocks[e]| == RingDelay.AudioBlockSize
  {
    seq(t.maxDelays, e requires 0 <= e < t.maxDelays => LineUpdate(t.delays[e], input, process).output)
  }

  /** Every line after one block, each advanced by its own block update. */
  function UpdateLines<F>(t: Tank<F>, input: seq<real>, process: (F, real) -> (F, real)): (delays: seq<RingDelay.Delay<F>>)
    requires Valid(t)
    requires |input| >= RingDelay.AudioBlockSize
    ensures |delays| == |t.delays|
    ensures forall e :: 0 <= e < |delays| ==> RingDelay.Valid(delays[e]) && delays[e] == LineUpdate(t.delays[e], input, process).delay
  {
    seq(|t.delays|, e requires 0 <= e < |t.delays| => LineUpdate(t.delays[e], input, process).delay)
  }

  /** `update(input, output, count)`: nothing happens when either array is
      missing or `count` is not one block. Otherwise every line, active or
      not, processes the input block, and the output block is the average of
      all their blocks. Output samples past the block are untouched. */
  function Update<F>(t: Tank<F>, input: Option<seq<real>>, output: Option<seq<real>>, count: nat, process: (F, real) -> (F, real)): (r: (Tank<F>, Option<seq<real>>))
    requires Valid(t)
    requires input.Some? && output.Some? && count == RingDelay.AudioBlockSize ==>
      |input.value| >= RingDelay.AudioBlockSize && |output.value| >= RingDelay.AudioBlockSize
    ensures Valid(r.0)
    ensures input.None? || output.None? || count != RingDelay.AudioBlockSize ==> r == (t, output)
    ensures input.Some? && output.Some? && count == RingDelay.AudioBlockSize ==>
      var blocks := LineOutputs(t, input.value, process);
      && r.0 == t.(delays := UpdateLines(t, input.value, process))
      && r.1.Some? && |r.1.value| == |output.value|
      && (forall i :: 0 <= i < RingDelay.AudioBlockSize ==>
            r.1.value[i] == ColumnSum(blocks, i) / RingDelay.NumDelays as real)
      && (forall i :: RingDelay.AudioBlockSize <= i < |output.value| ==> r.1.value[i] == output.value[i])
  {
    if input.None? || output.None? || count != RingDelay.AudioBlockSize then (t, output)
    else
      var blocks := LineOutputs(t, input.value, process);
      var mixed := Mean(blocks, RingDelay.AudioBlockSize);
      var out := Overwrite(mixed, output.value);
      assert forall i :: 0 <= i < RingDelay.AudioBlockSize ==> out[i] == ColumnSum(blocks, i) / RingDelay.NumDelays as real by {
        assert |blocks| == RingDelay.NumDelays;
      }
      (t.(delays := UpdateLines(t, input.value, process)), Some(out))
  }
}
