# Tank reverb core, modelled in Dafny

This project models the signal-processing core of a guitar-pedal reverb. It covers two generations of the "tank", each a bank of four feedback delay lines fed the same input block and averaged into one output block.

- **Bucket-brigade tank** (`src/include/TankVerb.h`). It has four bucket-brigade taps:
  - Each tap has a fixed 16384-sample delay store (`src/include/RingBuffer.h`). The store has a power-of-two capacity and a write cursor that wraps by masking.
  - Each block is resampled to a size that grows as the tap's target length shrinks, and the resampling uses linear interpolation.
  - The resampled block runs through the store with soft-clipped, filtered feedback and is resampled back to the block size.
  - `setLength` clamps the room size and staggers the tap lengths linearly between the room size and a minimum length. It computes in unsigned arithmetic, so a room shorter than the minimum wraps.
- **Ring-buffer tank** (`src/TankVerb.h`). It has four delay lines:
  - Each line is a variable-length modulo ring (`src/RingBuffer.cpp`).
  - A line reads its ring at a fractional offset and passes filtered feedback through a rational `tanh` approximation before writing it back.
  - Resizing the ring resamples its contents by nearest neighbour through a scratch buffer.
  - `setLength` commits a new length to only one tap per call, round-robin over the active taps.
- **Two control-side helpers**:
  - The potentiometer anti-jitter filter: a threshold-gated hold.
  - The debounced foot switch: a windowed majority vote with a rising-edge toggle.

Samples are modelled as `real` and every operation as a pure function on immutable datatypes. Each function returns the new state together with any output array.

Several parts become parameters:
- A block array that may be null is an `Option`.
- The feedback low-pass filters are an opaque state type `F`, with a step function `process(state, x) == (state', y)` and a retuning function `retune(state, frequency)`.
- The foot switch's `digitalRead` is a boolean argument.

The getters `getState` and `getToggleState` are `FootSwitch.State` and `FootSwitch.ToggleState`.

The code rejects only gains above `1.1f` and accepts negative ones. The model follows the code: `SetGain` accepts exactly the gains at or below `1.1f`, and `GainCeiling` is the exact value of that single-precision literal.

Modules, one per file:
- `ModArith`: quotient and remainder facts.
- `PowerOfTwo`: the `is_powerof2` test and the mask identity.
- `DelayStore`: the power-of-two store.
- `Blocks`: blocks, resampling indices, mixing, tap spacing.
- `BucketBrigade` and `BbdTank`: the bucket-brigade tank.
- `ModuloRing`: the modulo ring.
- `RingDelay` and `StaggeredTank`: the ring-buffer tank.
- `AntiJitter` and `FootSwitch`: the two control-side helpers.

## Model

| member | source | states |
|---|---|---|
| PowerOfTwo.IsPowerOf2 | src/include/RingBuffer.h:6-8 | the test `v && (v & (v - 1)) == 0` holds exactly for the powers of two (independent definition by halving) |
| PowerOfTwo.BitTestCorrect | src/include/RingBuffer.h:6-8 | for every `v`, `v != 0 && v & (v - 1) == 0` if and only if `v` is a power of two |
| PowerOfTwo.MaskIsModulo | src/include/RingBuffer.h:38-48 | for a power-of-two capacity `n`, `x & (n - 1)` is `x % n`, so masking the cursor is wrapping it |
| PowerOfTwo.Pow2IsPowerOfTwo | src/include/RingBuffer.h:18 | every `2^k` passes the power-of-two definition, so a `2^k` capacity passes the static check |
| BucketBrigade.MaxDelayLengthIsPowerOfTwo | src/include/RingBuffer.h:18 | the capacity 16384 of every tap's store passes `is_powerof2` |
| DelayStore.New | src/include/RingBuffer.h:20-23 | a store built for a capacity that passes the check is valid, has that capacity, cursor 0 and every slot silent |
| DelayStore.Reset | src/include/RingBuffer.h:27-34 | reset zeroes every slot and moves the cursor to 0, keeping size and mask |
| DelayStore.ResetContents | src/include/RingBuffer.h:27-34 | a reset store holds silence from oldest to newest |
| DelayStore.Write | src/include/RingBuffer.h:38-42 | the sample lands at the cursor, every other slot keeps its value, the cursor moves one slot on and wraps to 0 after the last slot |
| DelayStore.Read | src/include/RingBuffer.h:46-49 | read returns the slot under the masked cursor, which is the oldest sample in queue order |
| DelayStore.WriteShifts | src/include/RingBuffer.h:38-49 | a write shifts the contents like a queue: the oldest sample leaves and the new one enters at the newest end |
| DelayStore.WriteAllCursor | src/include/RingBuffer.h:38-42 | after any run of `k` writes the cursor has moved `k` slots on, modulo the capacity |
| DelayStore.WriteAllContents | src/include/RingBuffer.h:38-49 | after any run of writes the store holds the last `capacity` samples of the old contents followed by those written |
| DelayStore.FixedDelay | src/include/RingBuffer.h:25-49 | after a reset and `k` writes, `read()` returns the sample written exactly `capacity` writes earlier, or silence while fewer have been written |
| Blocks.SourceFraction | src/include/TankVerb.h:37-49 | the truncated index plus the fraction is exactly `k * current / new`, and the fraction lies in `[0, 1)` |
| Blocks.SourceIndexInRange | src/RingBuffer.cpp:17-22 | every output index below the new size maps to a source index below the current size |
| Blocks.Accumulate | src/include/TankVerb.h:242-250 | the mixing loop leaves each sample as the starting sample plus the scaled column sum of all blocks |
| Blocks.Mean | src/include/TankVerb.h:240-250 | a cleared block plus every tap block times `1/n` is the per-sample mean of the blocks, or silence when there are none |
| Blocks.MeanOfEqualBlocks | src/TankVerb.h:169-186 | the mean of identical blocks is that block, so equal taps pass the signal through the mixer unchanged |
| Blocks.Overwrite | src/TankVerb.h:183-186 | the block lands at the front of the output array and the rest of the array is untouched |
| Blocks.Spacing | src/include/TankVerb.h:203 | the integer spacing splits the span from minimum length to room size into `taps - 1` steps, without overshooting it by a whole step |
| Blocks.TapLength | src/include/TankVerb.h:203-207 | tap `e` gets `room - e * spacing`, which never exceeds the room size, never falls below the minimum length, and is the room size for tap 0 |
| Blocks.TapLengthNonIncreasing | src/include/TankVerb.h:203-207 | a later tap is never longer than an earlier one |
| Blocks.WrappedTapLengthAgrees | src/include/TankVerb.h:203-207 | with the room at least the minimum length, the 32-bit unsigned `room - e * ((room - min) / (taps - 1))` never wraps and is the staggered length |
| Blocks.WrappedTapLengthBelowMinimum | src/include/TankVerb.h:203-207 | with a room shorter than the minimum, at most four taps and a minimum up to 65536, the unsigned span wraps to a spacing above the room, and every tap after the first gets a wrapped length of at least the minimum |
| Blocks.WrappedTapLengths | src/TankVerb.h:133-136 | for every tap of one `setLength`: tap 0 is the room, every later tap is at least the minimum, and without a wrap the lengths are the staggered, non-increasing ones |
| Blocks.FractionFloorAtMost | src/include/TankVerb.h:225 | the truncated `spread * room` of a spread in `[0, 1]` is at most the room |
| BucketBrigade.SoftClipOdd | src/include/TankVerb.h:22-25 | the cubic clipper is odd and maps silence to silence |
| BucketBrigade.SoftClipTurnsNegative | src/include/TankVerb.h:21-25 | the cubic clipper turns negative for inputs above about `sqrt(3)` instead of decaying to 0 as its comment says |
| BucketBrigade.PreventOverrunReadsInside | src/include/TankVerb.h:32-55 | with `preventOverrun`, every interpolated output before the last reads two slots strictly inside a source of at least as many samples |
| BucketBrigade.LerpLoop | src/include/TankVerb.h:45-50 | after `k` iterations, output `j < k` interpolates between source slots `floor(j * cur / new)` and the next, and later outputs are untouched |
| BucketBrigade.ResampleLerp | src/include/TankVerb.h:35-57 | each output interpolates between two source slots that exist; with `preventOverrun` the last output is the last source sample; outputs past the new size are untouched |
| BucketBrigade.ResampleSameSizeIsIdentity | src/include/TankVerb.h:35-57 | resampling to the same size returns the source block, with or without `preventOverrun` |
| BucketBrigade.New | src/include/TankVerb.h:62-67 | a new tap has a valid 16384-sample store holding silence, gain 0.5, target length 16384 and is marked reset |
| BucketBrigade.ResampledSize | src/include/TankVerb.h:73-81 | the resampled size is at least the block size, below the scratch capacity, and equal to the raw `floor(16384 / L * blockSize)` when that is already in range; a raw size at or above 6200 is capped at 6199 and one below the block size is raised to it |
| BucketBrigade.DriveStore | src/include/TankVerb.h:131-139 | the per-sample loop keeps the store valid at its capacity and yields one wet and one fed sample per input sample |
| BucketBrigade.DriveStoreWrites | src/include/TankVerb.h:131-139 | the store ends up exactly as if the fed samples had been written in order |
| BucketBrigade.DriveStoreFeeds | src/include/TankVerb.h:133-135 | each fed sample is the input sample plus the wet sample times the gain |
| BucketBrigade.DriveStoreSteps | src/include/TankVerb.h:133-134 | wet sample `i` is the filter's answer to the soft-clipped read of the store after the first `i` writes, from the state those writes left |
| BucketBrigade.MixBlock | src/include/TankVerb.h:136-138 | each emitted sample is the even dry/wet average |
| BucketBrigade.Update | src/include/TankVerb.h:69-92 | a block update changes only the store, the filter and the previous input, which becomes the block's last sample; the scratch block, of the clamped resampled size, is the dry/wet mix of the resampled input and the wet signal the store and filter produce from it; the filter ends in the state that pass leaves; the output is that scratch block resampled back to `blockSize` samples with the last one pinned |
| BucketBrigade.UpdateWritesStore | src/include/TankVerb.h:83-89 | after a block the store holds exactly what writing the fed samples in order leaves behind, and each fed sample is the resampled dry sample plus the gain times its wet sample |
| BucketBrigade.UpdateOutputEnds | src/include/TankVerb.h:90 | the last output sample is the last resampled dry/wet sample, and samples past the block are untouched |
| BucketBrigade.UpdateSameSize | src/include/TankVerb.h:85-90 | when the target length leaves the block size unchanged, the output block is the dry/wet block itself |
| BucketBrigade.Reset | src/include/TankVerb.h:94-101 | reset clears the store only when the tap is not already marked reset, and leaves it marked reset |
| BucketBrigade.SetGain | src/include/TankVerb.h:113-122 | a gain is accepted, and applied, exactly when it is at most `1.1f`; a rejected gain leaves the tap unchanged |
| BucketBrigade.GainStaysBelowCeiling | src/include/TankVerb.h:113-122 | no sequence of `setGain` calls lifts a gain above the ceiling |
| BucketBrigade.GainBoundaryExamples | src/include/TankVerb.h:115-121 | 1.1 is accepted and 1.1001 rejected |
| BucketBrigade.SetLength | src/include/TankVerb.h:124-128 | the new target is stored and the previous one becomes the old length; nothing else changes |
| BucketBrigade.SetCutoff | src/include/TankVerb.h:108-111 | only the filter is retuned |
| BbdTank.ClampRoom | src/include/TankVerb.h:187-190 | the clamped room is below the maximum, and equals the request exactly when the request is below it |
| BbdTank.SetLength | src/include/TankVerb.h:185-208 | the room size is the clamped length; every tap gets `room - i * spacing` in 32-bit unsigned arithmetic and nothing else in it changes; tap 0 gets the room size; with the room at least the minimum the lengths lie between the minimum and the room and are non-increasing along the taps; with a shorter room every later tap gets at least the minimum length |
| BbdTank.ShortRoomWrapsExample | src/include/TankVerb.h:203-207 | with the minimum at 14400, `setLength(1000)` wraps the spacing to 1431651298 and gives the taps 1000, 2863316998, 1431665700 and 14402 |
| BbdTank.New | src/include/TankVerb.h:159-165 | a new tank has four valid taps with gain 0.5, room 16383 after the clamp, and tap lengths 16383, 11042, 5701 and 360 |
| BbdTank.SetLengthExample | src/include/TankVerb.h:203-207 | `setLength(16000)` with a one-block minimum spaces the taps 5213 samples apart |
| BbdTank.SetSpread | src/include/TankVerb.h:218-230 | a spread outside `[0, 1]` is ignored; otherwise the minimum length becomes `floor(spread * room)` but at least one block, which is at most a room of at least one block |
| BbdTank.SpreadKeepsRoomSettable | src/include/TankVerb.h:203-229 | after an accepted spread, re-applying the current room with `setLength` never wraps: the clamped room is at least the new minimum |
| BbdTank.SetNumDelays | src/include/TankVerb.h:167-175 | the count changes exactly when the new count is at most the number of taps; otherwise the call is ignored |
| BbdTank.SetGain | src/include/TankVerb.h:210-216 | every tap of the array is offered the gain and takes it only if it is at most the ceiling |
| BbdTank.SetGainKeepsCeiling | src/include/TankVerb.h:210-216 | tap gains stay at or below the ceiling whatever gain is offered |
| BbdTank.SetCutoff | src/include/TankVerb.h:177-183 | every tap's filter is retuned and nothing else changes |
| BbdTank.TapUpdate | src/include/TankVerb.h:244 | a tap's block update keeps the tap valid with its target length and returns one block |
| BbdTank.TapOutputs | src/include/TankVerb.h:242-245 | one block per active tap, each depending only on its own tap and the shared input |
| BbdTank.UpdateTaps | src/include/TankVerb.h:242-245 | the active taps advance by their own block update; the inactive taps are untouched |
| BbdTank.Update | src/include/TankVerb.h:233-251 | a missing array or wrong count changes nothing; otherwise the output block is the average of the active taps' blocks, or silence with no active tap, and samples past the block are untouched |
| ModuloRing.ResampleLoop | src/RingBuffer.cpp:18-23 | after `k` iterations, output `j` is source slot `(floor(j * cur / new) + offset) % cur`, and later outputs are untouched |
| ModuloRing.ResampleNearest | src/RingBuffer.cpp:10-25 | equal sizes return at once with the output untouched; otherwise each output is the nearest source sample counted from the offset, and outputs past the new size are untouched |
| ModuloRing.New | src/RingBuffer.cpp:27-34 | the ring spans the whole backing array, the write cursor is on its last slot and the read cursor on slot 0, and the ring is valid exactly when the array and scratch buffer are large enough |
| ModuloRing.Update | src/RingBuffer.cpp:65-73 | both cursors move `n` slots on; the last `currentLength` inputs sit at `head + i`; every slot the writes do not reach keeps its value |
| ModuloRing.UpdateKeepsCursorDistance | src/RingBuffer.cpp:65-73 | update keeps the distance from the read cursor to the write cursor |
| ModuloRing.GetLoop | src/RingBuffer.cpp:89-92 | after the loop reaches `i`, output `j` is the ring sample `offset + j` after the read cursor, and later outputs are untouched |
| ModuloRing.Get | src/RingBuffer.cpp:87-93 | integer `get` copies ring samples `offset .. blockSize - 1` after the read cursor to the front of the output and writes nothing else |
| ModuloRing.GetBlendLoop | src/RingBuffer.cpp:81-84 | after the loop reaches `i`, output `j` blends ring samples `whole + j` and the next by the fraction |
| ModuloRing.GetFractional | src/RingBuffer.cpp:75-85 | fractional `get` blends each pair of adjacent ring samples by the offset's fraction, starting from its whole part, and writes nothing else |
| ModuloRing.WholeOffsetGet | src/RingBuffer.cpp:75-93 | a fractional offset with no fractional part reads exactly what integer `get` reads |
| ModuloRing.ResizeAsWritten | src/RingBuffer.cpp:36-63 | `resize` as written: no change for the current length, otherwise the clamped length with both cursors at `tail % n`; without a scratch buffer the contents are kept |
| ModuloRing.ResizeAsWrittenSamples | src/RingBuffer.cpp:43-62 | as written, the resized ring reads the nearest old samples counted from the write cursor when the clamped length differs, but the scratch buffer's contents when it does not |
| ModuloRing.Reseat | src/RingBuffer.cpp:55-57 | the read cursor becomes `tail % n` and the write cursor joins it |
| ModuloRing.ResampleBack | src/RingBuffer.cpp:49-62 | resampling through the scratch buffer leaves a valid ring of length `n` with both cursors at `tail % n` |
| ModuloRing.ResampleBackSamples | src/RingBuffer.cpp:49-62 | the ring then reads, from its read cursor, the resampled samples, or the untouched scratch buffer when the length is the same |
| ModuloRing.WriteBackFromCursor | src/RingBuffer.cpp:59-62 | writing a whole ring's worth of samples from a shared cursor puts them in read order and returns both cursors to where they started |
| ModuloRing.Resize | src/RingBuffer.cpp:36-63 | the completed `resize` leaves the ring alone when the clamped length is the current one; otherwise it is the source's `resize` |
| ModuloRing.ResizeAgreesOutsideStaleCase | src/RingBuffer.cpp:36-63 | the completed `resize` equals the source's on every request except one that differs from the current length and clamps onto it |
| ModuloRing.ResizeSamples | src/RingBuffer.cpp:36-63 | whenever the completed `resize` changes a ring with a scratch buffer, the ring reads the nearest old samples counted from the write cursor |
| ModuloRing.StaleScratchExample | src/RingBuffer.cpp:38-62 | a concrete ring whose contents the as-written `resize` replaces with the scratch buffer's although its length does not change, while the completed `Resize` leaves it alone |
| RingDelay.Denominator | src/TankVerb.h:26 | the clipper's denominator is at least 135135, so the quotient is always defined |
| RingDelay.NumeratorBelowDenominator | src/TankVerb.h:25-26 | for non-negative input the numerator lies between 0 and the input times the denominator |
| RingDelay.SoftClipOdd | src/TankVerb.h:22-28 | the rational clipper is odd and maps silence to silence |
| RingDelay.SoftClipBounded | src/TankVerb.h:22-28 | for non-negative input, `0 <= softClip(x) <= x` |
| RingDelay.SoftClipNeverAmplifies | src/TankVerb.h:22-28 | the clipper never changes sign and never amplifies, in either direction |
| RingDelay.RingAsWritten | src/TankVerb.h:34-39 | the constructor's ring claims `maxLength + 1` slots over a storage row of 20000 samples, with its write cursor on the last claimed slot; it is valid only when the two agree |
| RingDelay.AsWrittenRingOverrunsStorage | src/TankVerb.h:34-39 | for the tank's `maxLength` of 20000 the ring is invalid and its write cursor sits just past the storage row |
| RingDelay.New | src/TankVerb.h:34-39 | with a row of `maxLength + 1` samples the line is valid at its full size, silent, with the offered gain if accepted or else 0.95, and a whole length |
| RingDelay.SetGain | src/TankVerb.h:64-71 | a gain is accepted, and applied, exactly when it is at most `1.1f` |
| RingDelay.SetLength | src/TankVerb.h:73-80 | the ring is resized to the whole part plus one, the fraction becomes the read offset, and nothing else changes |
| RingDelay.FilterRun | src/TankVerb.h:48-52 | the filter yields one output per average of adjacent fractional reads |
| RingDelay.FilterRunSteps | src/TankVerb.h:48-52 | filter output `i` is the filter's answer to average `i` from the state the first `i` averages left |
| RingDelay.FeedbackLoop | src/TankVerb.h:47-54 | the filter outputs and final filter state are those of the filter run over the averages of adjacent reads, and each output sample is the clipped input plus the gain times the filter output |
| RingDelay.Read | src/TankVerb.h:43-45 | the scratch block holds `AudioBlockSize + 1` ring samples blended at the line's fractional offset |
| RingDelay.Update | src/TankVerb.h:41-57 | the block written out is the feedback loop's output and is exactly what is appended to the ring; the filter ends in the state the feedback loop leaves; samples past the block and every other field are untouched |
| RingDelay.SetCutoff | src/TankVerb.h:59-62 | only the filter is retuned |
| StaggeredTank.SetLength | src/TankVerb.h:125-138 | a length above the maximum is ignored; otherwise only the tap under the cursor gets `room - cursor * spacing` in 32-bit unsigned arithmetic, the cursor moves to `(cursor + 1) % active`, and every other tap is untouched; the staggered length when the room is at least the minimum, and at least the minimum for a later tap when the room is shorter |
| StaggeredTank.SetLengthTimes | src/TankVerb.h:125-138 | repeated `setLength` calls change only the room size, the cursor and the taps |
| StaggeredTank.NextIsModulo | src/TankVerb.h:137 | stepping the cursor without division agrees with `(c + 1) % n` |
| StaggeredTank.AdvanceIsSum | src/TankVerb.h:137 | `k` cursor steps from `h` land on `(h + k) % n` |
| StaggeredTank.WalkCommits | src/TankVerb.h:133-137 | after `k <= n` round-robin commits, a tap holds its new entry exactly when it is active and fewer than `k` steps after the starting cursor |
| StaggeredTank.SetLengthWalks | src/TankVerb.h:125-138 | with the cursor on an active tap, each further `setLength` call, before the walk has gone round, takes the round-robin walk one step further |
| StaggeredTank.SetLengthTimesWalks | src/TankVerb.h:125-138 | with the cursor on an active tap, up to `numDelays` `setLength` calls are a round-robin walk of as many steps |
| StaggeredTank.WalkAllTheWayRound | src/TankVerb.h:136-137 | a walk of `n` steps commits each of the first `n` taps once and returns the cursor to its start |
| StaggeredTank.RoundRobinCommitsEveryActiveTap | src/TankVerb.h:125-138 | with the cursor on an active tap, `numDelays` calls with one length commit it to every active tap, leave the inactive taps untouched and return the cursor to its start |
| StaggeredTank.SetLengthTimesFirst | src/TankVerb.h:125-138 | `k` calls are one call followed by `k - 1` more |
| StaggeredTank.RoundRobinFromInactiveCursor | src/TankVerb.h:125-138 | with the cursor left on an inactive tap by `setNumDelays`, the next call commits only that tap and moves the cursor onto an active one; `numDelays + 1` calls commit the length to every active tap |
| StaggeredTank.New | src/TankVerb.h:93-105 | a new tank is valid with four active lines, a one-block minimum length, room 500 and the cursor on tap 1 |
| StaggeredTank.NewLines | src/TankVerb.h:99-104 | after construction tap 0 is 500 samples long, the others keep the longest delay, and every line has gain 0.9 |
| StaggeredTank.Unsized | src/TankVerb.h:99-103 | before the constructor's `setLength(500)` every line has the longest delay and gain 0.9 |
| StaggeredTank.SetNumDelays | src/TankVerb.h:107-115 | the count changes exactly when the new count is at most the number of slots |
| StaggeredTank.SetCutoff | src/TankVerb.h:117-123 | every line's filter is retuned, active or not |
| StaggeredTank.SetGain | src/TankVerb.h:140-145 | only active lines are offered the gain, each taking it only if it is at most the ceiling |
| StaggeredTank.SetGainKeepsCeiling | src/TankVerb.h:140-145 | line gains stay at or below the ceiling whatever gain is offered |
| StaggeredTank.SetSpread | src/TankVerb.h:147-160 | a spread outside `[0, 1]` is ignored; otherwise the minimum length becomes `floor(spread * room)` but at least one block |
| StaggeredTank.SetSpreadWithinRoom | src/TankVerb.h:154-158 | an accepted spread never lifts the minimum length above a room of at least one block |
| StaggeredTank.LineUpdate | src/TankVerb.h:173-174 | a line's block update keeps it valid and returns one block |
| StaggeredTank.LineOutputs | src/TankVerb.h:171-180 | one block per line, active or not |
| StaggeredTank.UpdateLines | src/TankVerb.h:171-175 | every line advances by its own block update |
| StaggeredTank.Update | src/TankVerb.h:162-187 | a missing array or wrong count changes nothing; otherwise the output block is the average of all four lines' blocks, and samples past the block are untouched |
| AntiJitter.New | src/src/filters/AntiJitterFilter.cpp:3-6 | a new filter has the given threshold and holds 0 |
| AntiJitter.Update | src/src/filters/AntiJitterFilter.cpp:8-15 | the returned value is the held value after the call, and it is either the reading or the old held value |
| AntiJitter.HoldsWithinThreshold | src/src/filters/AntiJitterFilter.cpp:10-14 | the state is kept exactly when the reading is within the threshold of the held value, boundary included, or equal to it; beyond the threshold the reading is taken |
| AntiJitter.OutputTracksInput | src/AntiJitterFilter.h:4-8 | with a non-negative threshold the returned value is never further than the threshold from the reading |
| AntiJitter.UpdateIdempotent | src/src/filters/AntiJitterFilter.cpp:8-15 | feeding the same reading twice gives the same state and result as feeding it once |
| AntiJitter.DefaultFilterExample | src/AntiJitterFilter.h:10-16 | a default filter ignores readings of 1.5 and -1.5 and takes 1.75 |
| FootSwitch.New | src/include/FootSwitch.h:6-13 | `mult * division == 1`, the timer step is `refreshRate / division`, both states false and both counters zero |
| FootSwitch.Update | src/include/FootSwitch.h:15-31 | the timing parameters never change, and a poll either restarts the counters or leaves both states alone |
| FootSwitch.PollInsideWindow | src/include/FootSwitch.h:17-20 | inside a window a poll adds its share to the timer and its read to the accumulator, and both states stay put |
| FootSwitch.PollClosesWindow | src/include/FootSwitch.h:20-30 | the poll that takes the timer past the refresh period sets the state to the window's majority vote and restarts both counters |
| FootSwitch.ToggleOnRisingEdge | src/include/FootSwitch.h:22-27 | the toggle flips exactly when the debounced state rises |
| FootSwitch.WindowPrefix | src/include/FootSwitch.h:15-20 | with the default division, the first four polls of a window only count |
| FootSwitch.FiveReadWindow | src/include/FootSwitch.h:12-30 | with the default division the fifth poll closes the window: the state becomes true exactly when at least three of the five reads were high, and the toggle flips on a rising edge |
| FootSwitch.MajorityOfFive | src/include/FootSwitch.h:22 | with `mult` one quarter, the vote is high from three high reads up |
| FootSwitch.NewStartsWindow | src/include/FootSwitch.h:44-51 | a new default switch is at the start of a window with both states false |

## Left out

- `src/src/main.cpp` is not part of this model. It covers hardware set-up, ADC polling and the audio callback's wiring.
- The low-pass filters are not modelled. These are Tone, Butterworth, IIRLowPass, Moog and biquad. Each is an opaque state with a `process` step and a `retune` function.
- Floating-point arithmetic is not modelled. Samples, gains and lengths are exact reals:
  - The resamplers' `static_cast<float>(cur) / new * k` followed by truncation is modelled as the exact `floor(k * cur / new)`. Rounding can move that index at exact multiples.
  - `0.333333f` is taken as the decimal 0.333333.
  - The foot switch's timer sums are exact.
  - NaN and infinite samples are not modelled.
- The unsigned arithmetic of both `setLength`s is modelled modulo 2^32, for the 32-bit target. A room shorter than the minimum length wraps `length - mMinLength`, and the model gives the taps the wrapped lengths. The tap length is then converted to `float`; the model takes that conversion as exact, although a wrapped length above 2^24 would be rounded.
- Undefined integer conversions and divisions by zero become preconditions:
  - The bucket-brigade `setLength` requires a positive length. A zero length gives tap 0 a zero target length, and the next block update divides by it.
  - `ModuloRing.Resize` and `ModuloRing.ResizeAsWritten` require `0 < newLength` and `2 <= maxLength` for any request other than the current length. The source's `mTail % newLength` (src/RingBuffer.cpp:54) divides by the clamped length, which is zero for a zero request or a one-slot ring.
  - The older tank's `% mCurrentNumDelays` needs an active tap.
  - A negative or infinite length converted to `size_t` is excluded.
  - `FootSwitch.New` requires a non-zero division, because `1.f / 0` would give an infinite multiplier.
- Scratch buffers are modelled per call or per ring, not as shared globals:
  - The bucket-brigade tap's shared `resizeBuffer` is fully written before it is read within a call.
  - In the older tank all lines share `kResamplingBuffer`. The model gives each ring its own scratch buffer, so in `ModuloRing.ResizeAsWritten` the stale contents are that ring's own rather than those of whichever line resized last.
- Each tank's per-tap temporary block is modelled as silence. Every tap overwrites it in full before it is read.
- The commented-out code in the bucket-brigade `setLength` and in the older `setSpread` is not modelled.
- `BucketBrigadeDelay::mOffset` is not modelled, because it is never used. `isReset` and `oldLength` are plain fields:
  - `isReset()` is a field read.
  - `mOldLength` is written but never read. The constructor sets it to zero because the source leaves it uninitialised.
- Nothing in the source clears the reset flag, so `reset()` never clears the store after construction. The model keeps that behaviour.
- Concurrency between the control loop and the audio callback is not modelled: torn reads and the real-time deadline.
- The foot switch's pin number and `pinMode` are not modelled. Both are hardware set-up.
- BucketBrigade.Update: the contract does not state the store's cursor position directly. It follows from `UpdateWritesStore`, which gives the store as a run of `|scratch|` writes, together with `DelayStore.WriteAllCursor`.
- RingDelay.SetLength: resizes the ring with the completed `ModuloRing.Resize`, not the source's `resize`. On a request that differs from the current length but clamps onto it, the source would copy stale scratch contents into the ring (first row of "## Findings"); the model leaves the ring unchanged there. `ModuloRing.ResizeAgreesOutsideStaleCase` states that the two agree on every other request. `StaggeredTank.SetLength` and the round-robin lemmas inherit this.
- StaggeredTank.Unsized: builds each line with the corrected `RingDelay.New`, whose ring has `MAX_DELAY_LENGTH + 1` slots over a storage row of the same size (second row of "## Findings"). The source's rows have `MAX_DELAY_LENGTH` slots; `RingDelay.RingAsWritten` models those.
- BucketBrigade.Reset: the source skips clearing whenever `mIsReset` is set, which after construction is always. The model states only what happens to the flag and the store.

## Findings

| source | as written | input that shows it | evidently intended | confidence | as-written member | corrected member |
|---|---|---|---|---|---|---|
| src/RingBuffer.cpp:38-62 | `resize` compares the request with the current length before clamping it. When the clamp lands on the current length, `resizeNearestNeighbor` returns without writing the scratch buffer, and `update` then copies the scratch buffer's stale contents into the ring | `ModuloRing.StaleScratchExample`: a ring of length 2 over 3 slots with scratch `[7, 7, 7]`, resized to 5 (clamped to 2), has its contents replaced by 7s | a request that clamps to the current length leaves the ring alone | not executed | ModuloRing.ResizeAsWritten | ModuloRing.Resize |
| src/TankVerb.h:12-13 | every storage row `kDelayBufferss[i]` has 20000 slots, but `Delay` builds its ring with `maxLength + 1 = 20001` slots and the write cursor on slot 20000. `setLength(20000)` asks `resize` for the current length, so it returns at once | `RingDelay.AsWrittenRingOverrunsStorage`: a new tank's taps 1 to 3 keep length 20001, so their first block update writes one slot past their row | storage rows of `MAX_DELAY_LENGTH + 1` samples, matching the ring | not executed | RingDelay.RingAsWritten | RingDelay.New |
