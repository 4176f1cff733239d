# Ichor in Dafny

A model of the parts of Ichor whose correctness is hardest to see from the code, with proofs.

**The dense hash table** (`include/ankerl/unordered_dense.h`), the container behind Ichor's maps and sets. Entries are
kept in a dense vector; a circular array of buckets indexes them, each bucket packing the distance from the key's home
and a byte of its hash into one word. `Layout.dfy` proves what insertion by shifting up, erasure by shifting down and
swap with the last entry keep of the bucket order; `Table.dfy` is the class with its loops, its distance word of 32
bits and its growth; `TableRun.dfy` shows that every run of operations is a run on a plain map, and on a plain vector.
The hash is any total function, so the results hold for every hash, including one that sends all keys to one bucket.

**The GSM 06.10 encoder** (`examples/realtime_example/gsm_enc/gsm_enc.cpp`), section by section of the
recommendation: offset compensation and preemphasis (`Preprocess.dfy`), reflection coefficients and log area ratios
(`Normalize.dfy`, `Lpc.dfy`) and the linear predictor they stand for (`Lattice.dfy`, `Predictor.dfy`), long-term
prediction (`Ltp.dfy`) and the gain it means on the samples (`TrueGain.dfy`), grid selection and quantization
(`Rpe.dfy`, `Apcm.dfy`), the subframe loop with its decoder (`Coder.dfy`), the 33-byte frame (`Frame.dfy`), whole runs
(`Encoder.dfy`) and the history across frames (`History.dfy`). Each stage is proved against a function of its inputs,
and that function against what it is for: a filter in real arithmetic, the normal equations, the gain on unscaled
samples, the nearest code, the impulse response. Words are bounded integers and every narrowing is a proof obligation. A
`longword`, declared `long`, is taken as 32 bits: the procedures are shown to stay within them, so a wider `long` makes
no difference, except for the autocorrelations, which are inputs here.

**Codecs and wide arithmetic**: the text forms of uuids and version 1 uuids (`include/sole/sole.h`), base64
(`src/base64/base64.cpp`), and the 64 by 64 bit multiplication and read schedules of the two wyhash routines.

Three properties one might expect turn out not to hold of the code. Each has an input at which it fails and the exact
condition under which it holds:

- The encoder's long-term history is not carried from frame to frame (the copy is commented out), so each frame of a
  run is coded against silence. `History.HistoryIsHeard` gives the short-term residual of a frame after which a decoder
  that keeps its history rebuilds no second frame as the encoder did (which samples leave that residual is not stated);
  `History.CarriedHistory` and `History.CarriedRun` say when it does.
- `consteval_wyr8` does not in general return the eight bytes as a number. `ConstevalHash.Word8Signed` and
  `ConstevalHash.Word8Unsigned` give the exact conditions for the two kinds of characters, `ConstevalHash.Word8Loses` an
  instance.
- `get_time` does not always return a later time. `UuidTime.ReturnedFalls` gives a call whose recorded time rises and
  whose returned time falls; `UuidTime.Monotonic`, `UuidTime.ReturnedRise` and `UuidTime.ReturnedRun` give the exact
  conditions, over whole runs, for the recorded and for the returned times.

Shifts and masks are written as quotients and remainders of powers of two, and unions of disjoint bit ranges as sums.
Dafny's division rounds down for positive divisors, as an arithmetic shift right does.

## Model

| member | source | states |
|---|---|---|
| `Layout.PassedToPosition` | include/ankerl/unordered_dense.h:906-916 | under the bucket invariant no probe for an indexed key stops before the key's own bucket: every bucket from home up to it is at least as large as the probe is there, fingerprints included |
| `Layout.NotPlacedBeyond` | include/ankerl/unordered_dense.h:1118-1155 | the early exit of the probe loops is right: a probe larger than the bucket it meets has already gone past every place its key could be |
| `Layout.PassedStep` | include/ankerl/unordered_dense.h:906-916 | a probe that meets a bucket not smaller than itself has made fewer steps than there are keys, and its distance field has not overflowed |
| `Layout.DistanceBound` | include/ankerl/unordered_dense.h:863-869 | no key is further from home than there are other keys in the table |
| `Layout.ShiftUpGood` | include/ankerl/unordered_dense.h:918-925 | place-and-shift-up at a probed spot keeps the whole invariant around the wrap: the bijection between non-empty buckets and indices, exact distances and fingerprints, and the neighbour ordering |
| `Layout.ShiftDownGood` | include/ankerl/unordered_dense.h:1013-1023 | backward shift keeps the whole invariant for the indices that remain |
| `Layout.MovedLast` | include/ankerl/unordered_dense.h:1026-1042 | pointing the last entry's bucket at the hole restores the invariant for exactly the remaining indices |
| `Layout.RunBound` | include/ankerl/unordered_dense.h:918-925 | a run of non-empty buckets is no longer than the number of indexed entries, so shifts end at an empty bucket |
| `Layout.DistanceFieldTooNarrow` | include/ankerl/unordered_dense.h:863-869 | 2^24 keys of one home bucket cannot be laid out at all in 32-bit bucket words: some distance needs more than 24 bits |
| `Layout.DistanceField` | include/ankerl/unordered_dense.h:863-869 | whatever the hash, the 24-bit distance field is wide enough for n keys if and only if n is below 2^24; the number of buckets does not matter |
| `Layout.ProbeField` | include/ankerl/unordered_dense.h:906-916 | whatever the hash, the words of probes among n keys stay within 32 bits if and only if n is below 2^24 - 1 |
| `Sizing.BucketCounts` | include/ankerl/unordered_dense.h:927-937 | for every bucket count from 4 to 2^32 the load limit is below the bucket count and grows with every doubling |
| `Sizing.BucketToSpare` | include/ankerl/unordered_dense.h:970-980 | a table within its limit and its number of keys has an empty bucket, also the largest, which may be filled up |
| `Sizing.Doubling` | include/ankerl/unordered_dense.h:1000-1010 | a table one key over its limit is not the largest, and twice the buckets are enough |
| `Sizing.HomeInRange` | include/ankerl/unordered_dense.h:893-895 | a hash shifted down by the table's shift is a bucket index |
| `Entries.SwapRemovedMap` | include/ankerl/unordered_dense.h:1026-1042 | filling a hole with the last entry removes exactly one binding from the map the vector stands for |
| `Entries.RangeErasedExact` | include/ankerl/unordered_dense.h:1656-1678 | what range erase leaves is, as a multiset, exactly what was outside the range |
| `Entries.MeetingKept` | include/ankerl/unordered_dense.h:2011-2027 | removing the keys that meet a predicate leaves exactly the bindings that fail it |
| `Table.PlaceAndShiftUp` | include/ankerl/unordered_dense.h:918-925 | the in-place loop puts the bucket at its place and moves the run behind it one place up, ending at the first empty bucket |
| `Table.EraseAndShiftDown` | include/ankerl/unordered_dense.h:1013-1023 | the in-place loop pulls the displaced run down and empties the bucket behind it |
| `Table.Table.NextWhileLess` | include/ankerl/unordered_dense.h:906-916 | stops at the first bucket not larger than the probe, before which the key cannot be |
| `Table.Table.ProbeStep` | include/ankerl/unordered_dense.h:1094-1115 | stepping over a bucket keeps what the probe knows; the distance increment does not wrap and the step count stays below the number of keys |
| `Table.Table.ProbeStop` | include/ankerl/unordered_dense.h:1118-1155 | a probe larger than the bucket it meets proves the key absent from the whole table |
| `Table.Table.ProbeHit` | include/ankerl/unordered_dense.h:1118-1155 | a probe that meets its own word and key has found the key's one entry |
| `Table.Table.NoWrap` | include/ankerl/unordered_dense.h:863-869 | in every reachable table no distance field is within one step of overflowing |
| `Table.Table.RunEnds` | include/ankerl/unordered_dense.h:918-925 | from every bucket an empty one is within reach |
| `Table.Table.Index` | include/ankerl/unordered_dense.h:988-998 | adding an entry's index at a probed spot keeps the index exact |
| `Table.Table.FillBuckets` | include/ankerl/unordered_dense.h:988-998 | rebuilding the index from distinct entries yields a valid table, without a key comparison |
| `Table.Table.IncreaseSize` | include/ankerl/unordered_dense.h:1000-1010 | a table one over its limit is rehashed into twice the buckets and holds the same entries; its overflow error is not reached |
| `Table.Table.CalcShiftsForSize` | include/ankerl/unordered_dense.h:931-937 | the smallest bucket count whose load limit is at least the size, for every size up to 3435973888; beyond, the loop runs down to zero |
| `Table.Table.FindIndexBucket` | include/ankerl/unordered_dense.h:1032-1040 | the unguarded search for a value index ends at that index's own bucket, never at an empty bucket that happens to carry index 0 |
| `Table.Table.DoErase` | include/ankerl/unordered_dense.h:1013-1043 | the bucket's entry is removed by swap with the last and handed over; the table stays valid |
| `Table.Table.constructor` | include/ankerl/unordered_dense.h:1200-1212 | an empty valid table standing for the empty map |
| `Table.Table.WithCapacity` | include/ankerl/unordered_dense.h:1176-1189 | an empty valid table with room for the requested number of entries |
| `Table.Table.Find` | include/ankerl/unordered_dense.h:1118-1155 | the position of the key's entry if the plain map has the key, end() otherwise, although the first two probes are made without the early exit |
| `Table.Table.Emplace` | include/ankerl/unordered_dense.h:1537-1565 | inserts exactly when the plain map lacks the key, appends at the end, and changes nothing otherwise |
| `Table.Table.TryEmplace` | include/ankerl/unordered_dense.h:1094-1115 | same outcome as emplace without building the entry first |
| `Table.Table.DoPlaceElement` | include/ankerl/unordered_dense.h:1076-1091 | appends a new key where the probe stopped, growing if need be; one binding is added and no other changes |
| `Table.Table.InsertOrAssign` | include/ankerl/unordered_dense.h:1067-1073 | binds the key to the value whether or not it was there, and says which; the entry keeps its place or is appended |
| `Table.Table.EraseKey` | include/ankerl/unordered_dense.h:1046-1064 | removes exactly the key's binding, by swap with the last, and returns how many there were; every other binding stays |
| `Table.Table.EraseAt` | include/ankerl/unordered_dense.h:1616-1628 | removes exactly the entry pointed at, by swap with the last, and returns it |
| `Table.Table.Clear` | include/ankerl/unordered_dense.h:1368-1371 | an empty valid table |
| `Table.Table.At` | include/ankerl/unordered_dense.h:1163-1168 | the bound value, or the key-not-found error |
| `Table.Table.Rehash` | include/ankerl/unordered_dense.h:1848-1858 | the smallest bucket array for the requested count and the present size; entries and bindings unchanged |
| `Table.Table.Reserve` | include/ankerl/unordered_dense.h:1860-1873 | room for the requested count, never fewer buckets than before; entries and bindings unchanged |
| `Table.Table.Replace` | include/ankerl/unordered_dense.h:1419-1469 | afterwards the table has every key of the container exactly once, each with an entry of the container, at the places the overwriting of duplicates leaves them |
| `Table.Table.IndexOrDrop` | include/ankerl/unordered_dense.h:1437-1468 | one round indexes the entry or overwrites a duplicate by the last one, keeping the set of keys and making progress |
| `Table.Table.EraseRange` | include/ankerl/unordered_dense.h:1656-1678 | drops exactly the range, and says where every survivor ends up |
| `Table.Table.EraseForwards` | include/ankerl/unordered_dense.h:1656-1678 | erasing left to right refills the range from the back |
| `Table.Table.EraseBackwards` | include/ankerl/unordered_dense.h:1656-1678 | erasing right to left cuts the rest of the range off |
| `Table.Table.EraseIf` | include/ankerl/unordered_dense.h:2011-2027 | keeps exactly the bindings failing the predicate, at the places erasing from the back leaves them, applies the predicate to every original entry once, from the back, and returns how many were erased |
| `TableRun.FindThenErase` | include/ankerl/unordered_dense.h:1616-1628 | erasing through the iterator that find returns removes exactly the key's binding, and nothing when find returns end() |
| `TableRun.Perform` | include/ankerl/unordered_dense.h:1046-1168 | one operation on the table does to the entries what it does to a plain vector and, range erase and replace apart, to the bindings what it does to a plain map |
| `TableRun.PerformAll` | include/ankerl/unordered_dense.h:906-1155 | refinement over every run, of any length, of emplace, try_emplace, insert_or_assign, both erases, erase_if, lookup, clear, rehash and reserve: all outcomes and the final bindings are those of a plain map, as long as no insertion finds 2^24 - 2 other keys |
| `TableRun.PerformOnEntries` | include/ankerl/unordered_dense.h:906-1155 | the same over every run that also has range erase and replace, against a plain vector: the entries and their order |
| `TableRun.RunFromEmpty` | include/ankerl/unordered_dense.h:1176-1212 | every run of operations on a new table behaves as on the empty plain map |
| `TableRun.Equal` | include/ankerl/unordered_dense.h:1892-1914 | true exactly when both tables stand for the same map |
| `FixedPoint.Add` | examples/realtime_example/gsm_enc/gsm_enc.cpp:52-54 | the one unsigned comparison gives the saturated 16-bit sum |
| `FixedPoint.Sub` | examples/realtime_example/gsm_enc/gsm_enc.cpp:56-58 | the saturated 16-bit difference |
| `FixedPoint.Abs` | examples/realtime_example/gsm_enc/gsm_enc.cpp:60-60 | the magnitude, with -32768 taken to 32767 |
| `FixedPoint.Mult` | examples/realtime_example/gsm_enc/gsm_enc.cpp:41-42 | the fractional product rounded down; fits a word for every pair but (-1, -1) |
| `FixedPoint.MultR` | examples/realtime_example/gsm_enc/gsm_enc.cpp:38-39 | the fractional product rounded to nearest, within half a unit |
| `FixedPoint.LAdd` | examples/realtime_example/gsm_enc/gsm_enc.cpp:44-50 | the macro with its unsigned intermediate gives the saturated 32-bit sum |
| `FixedPoint.FindMax` | examples/realtime_example/gsm_enc/gsm_enc.cpp:726-733 | the largest magnitude of a block: no sample exceeds it and one attains it |
| `Preprocess.Next` | examples/realtime_example/gsm_enc/gsm_enc.cpp:2045-2086 | one filter step keeps the invariant that the recursive state is within 2^29 of the last downscaled sample |
| `Preprocess.DecayBound` | examples/realtime_example/gsm_enc/gsm_enc.cpp:2060-2086 | from any state within the invariant the new 32-bit state needs no saturation and the rounded output fits a word |
| `Preprocess.DecayedExact` | examples/realtime_example/gsm_enc/gsm_enc.cpp:2068-2076 | the product taken in two 16-bit halves is the exact product with 32735/32768 rounded to nearest |
| `Preprocess.State.Sample` | examples/realtime_example/gsm_enc/gsm_enc.cpp:2043-2088 | every narrowing assignment fits and the saturating addition never saturates: one round equals the unbounded step, whose output Preprocess.EmphasisTracksIdeal brackets |
| `Preprocess.State.Frame` | examples/realtime_example/gsm_enc/gsm_enc.cpp:2019-2093 | over a frame, and hence over every stream from the cleared state, the loop computes the filter and keeps the invariant |
| `Preprocess.TracksIdeal` | examples/realtime_example/gsm_enc/gsm_enc.cpp:2045-2093 | for every sample stream the integer recursion stays within 16384/33 of the same recursion in real arithmetic: rounding errors do not accumulate |
| `Preprocess.OutputTracksIdeal` | examples/realtime_example/gsm_enc/gsm_enc.cpp:2045-2093 | the offset-free sample is the ideal one rounded, to within 1/66 of a unit beyond the rounding |
| `Preprocess.EmphasisTracksIdeal` | examples/realtime_example/gsm_enc/gsm_enc.cpp:2043-2088 | for every stream, each sample put out is within 1.5 of y[k] - (28180/32768) y[k-1], y being the offset-free signal in real arithmetic, taken at the 16-bit limit where it exceeds one |
| `Preprocess.Downscaled` | examples/realtime_example/gsm_enc/gsm_enc.cpp:2045-2048 | half the sample, rounded down to a multiple of four |
| `Preprocess.RunAppends` | examples/realtime_example/gsm_enc/gsm_enc.cpp:2019-2093 | the state carried over makes frame after frame one stream |
| `Apcm.ExpMant` | examples/realtime_example/gsm_enc/gsm_enc.cpp:678-706 | exponent in -4..6 and mantissa in 0..7 for every code, with the logarithmic reading of the code |
| `Apcm.LevelOf` | examples/realtime_example/gsm_enc/gsm_enc.cpp:735-754 | the code of a maximum is the lowest of the 64 levels that the maximum stays under |
| `Apcm.CodeMax` | examples/realtime_example/gsm_enc/gsm_enc.cpp:735-754 | the shift-and-count loop computes that level, in 0..63, without saturation |
| `Apcm.ScaledInSteps` | examples/realtime_example/gsm_enc/gsm_enc.cpp:780-787 | no sample of a block leaves 16 bits when shifted by 6 - exp, not even -32768 |
| `Apcm.StepMember` | examples/realtime_example/gsm_enc/gsm_enc.cpp:780-787 | the product with the rounded inverse mantissa selects the quantizer step that contains the sample, so the code is in 0..7 |
| `Apcm.Quantize` | examples/realtime_example/gsm_enc/gsm_enc.cpp:708-796 | for every 13 words: the block's level, its scale, and a code in 0..7 per sample; every shift and narrowing fits |
| `Apcm.InverseQuantize` | examples/realtime_example/gsm_enc/gsm_enc.cpp:800-830 | each decoded sample from the direct mantissa table, shift and rounding |
| `Apcm.ReconstructExact` | examples/realtime_example/gsm_enc/gsm_enc.cpp:800-830 | the decoder never saturates: the result is the step's midpoint scaled down with rounding |
| `Apcm.QuantizationError` | examples/realtime_example/gsm_enc/gsm_enc.cpp:708-830 | code then decode gives every sample back to within half a quantizer step plus one, at any scale it fits |
| `Apcm.BlockError` | examples/realtime_example/gsm_enc/gsm_enc.cpp:708-830 | the same bound for every sample of every block at the scale the block selects |
| `Rpe.WeightingFilter` | examples/realtime_example/gsm_enc/gsm_enc.cpp:472-562 | the 32-bit accumulator does not overflow and each output is the rounded, saturated convolution |
| `Rpe.ImpulseResponse` | examples/realtime_example/gsm_enc/gsm_enc.cpp:472-562 | a single sample a at position j gives at k the rounded product of a with entry 5 + j - k of table 4.4, and nothing further away |
| `Rpe.Superposition` | examples/realtime_example/gsm_enc/gsm_enc.cpp:472-562 | before rounding, the sum of two blocks is answered by the sum of the answers |
| `Rpe.LinearPhase` | examples/realtime_example/gsm_enc/gsm_enc.cpp:472-562 | reversing the input reverses the output |
| `Rpe.SharedEnergy` | examples/realtime_example/gsm_enc/gsm_enc.cpp:590-661 | the sum shared by grids 0 and 3 gives each its own energy |
| `Rpe.SelectGrid` | examples/realtime_example/gsm_enc/gsm_enc.cpp:584-663 | comparing the shared sums picks the first of the four grids of maximal energy, within 32 bits |
| `Rpe.GridNearlyBest` | examples/realtime_example/gsm_enc/gsm_enc.cpp:584-663 | no grid has more energy, in unscaled samples, than the selected one, up to six times the magnitudes of both plus 234, which is what dividing by 4 loses |
| `Rpe.GridSelection` | examples/realtime_example/gsm_enc/gsm_enc.cpp:566-674 | the selected grid and its 13 samples |
| `Rpe.GridPositioning` | examples/realtime_example/gsm_enc/gsm_enc.cpp:834-878 | the falling-through switch and the loop write exactly 40 samples and nothing else |
| `Rpe.GridReadBack` | examples/realtime_example/gsm_enc/gsm_enc.cpp:834-878 | reading the grid back gives the 13 samples, and every other sample is zero |
| `Normalize.NormPositive` | examples/realtime_example/gsm_enc/gsm_enc.cpp:2097-2129 | shifting a positive number by its norm puts its leading bit just below the sign bit |
| `Normalize.NormNegative` | examples/realtime_example/gsm_enc/gsm_enc.cpp:2097-2129 | the same for negative numbers, down to the smallest |
| `Normalize.Div` | examples/realtime_example/gsm_enc/gsm_enc.cpp:2162-2189 | fifteen steps of long division give floor(32768 num / denum), and 32767 when the operands are equal |
| `Normalize.QuotientLargest` | examples/realtime_example/gsm_enc/gsm_enc.cpp:2162-2189 | the quotient is the largest number of 32768ths that fits |
| `Ltp.MaxScaled` | examples/realtime_example/gsm_enc/gsm_enc.cpp:1012-1028 | the scaling chosen from the norm brings the largest residual sample below 2^9 |
| `Ltp.ScaledNoFurther` | examples/realtime_example/gsm_enc/gsm_enc.cpp:1012-1028 | and no further than that takes: a residual that is scaled keeps a maximum of at least 2^8 |
| `Ltp.SampleScaled` | examples/realtime_example/gsm_enc/gsm_enc.cpp:1031-1035 | every scaled sample fits ten bits |
| `Ltp.CorrBound` | examples/realtime_example/gsm_enc/gsm_enc.cpp:1054-1093 | no partial correlation sum leaves 32 bits |
| `Ltp.BestOfIsBest` | examples/realtime_example/gsm_enc/gsm_enc.cpp:1039-1100 | the running best is the first lag of maximal positive correlation, or 40 if none is positive |
| `Ltp.Search` | examples/realtime_example/gsm_enc/gsm_enc.cpp:1039-1100 | the loop over the 81 lags computes that lag and its correlation |
| `Ltp.SumPower` | examples/realtime_example/gsm_enc/gsm_enc.cpp:1113-1122 | the power of the history at the lag, doubled, within 32 bits |
| `Ltp.Gain` | examples/realtime_example/gsm_enc/gsm_enc.cpp:1127-1154 | the gain code from normalized correlation and power |
| `Ltp.GainBracket` | examples/realtime_example/gsm_enc/gsm_enc.cpp:1127-1154 | the true gain lies between the decision levels of its code, to within 2/32768 |
| `Ltp.Parameters` | examples/realtime_example/gsm_enc/gsm_enc.cpp:997-1155 | lag in 40..120 and gain code in 0..3 for every residual and history; no sum or shift leaves 32 bits |
| `TrueGain.LagNearlyBest` | examples/realtime_example/gsm_enc/gsm_enc.cpp:1031-1100 | on the unscaled samples no lag correlates better than the one found, up to what scaling the residual down loses |
| `TrueGain.GainIsTrue` | examples/realtime_example/gsm_enc/gsm_enc.cpp:997-1155 | the correlation of the residual with the history at the lag, over the energy of the history there, both on the unscaled samples, lies between the decision levels of the gain code, up to 2/32768 and a slack for the scaling of the residual and the division of the history by 8 |
| `TrueGain.DecodedGain` | examples/realtime_example/gsm_enc/gsm_enc.cpp:997-1155 | the decoded gain is the middle of its decision levels, and within 0.15 of the true one for the middle codes, up to the same slack |
| `TrueGain.PredictionHelps` | examples/realtime_example/gsm_enc/gsm_enc.cpp:1385-1425 | with a gain above the lowest, taking the history times the decoded gain from the residual leaves no more energy than there was, up to the slack |
| `TrueGain.EstimateIsPast` | examples/realtime_example/gsm_enc/gsm_enc.cpp:1385-1425 | the estimate is the history sample the correlation was taken with, times the decoded gain, rounded |
| `Ltp.AnalysisFilter` | examples/realtime_example/gsm_enc/gsm_enc.cpp:1385-1425 | with dp and dpp the same array, estimate and residual are those of the old history: no slot is read after it is written |
| `Ltp.ResidualRestores` | examples/realtime_example/gsm_enc/gsm_enc.cpp:1385-1425 | estimate and residual add up to the sample if and only if their difference fits a word |
| `Coder.OnTheGrid` | examples/realtime_example/gsm_enc/gsm_enc.cpp:432-461 | at every position of the chosen grid a decoder of the subframe gets the estimate plus the weighted residual, saturated, to within the error bound of the block quantizer |
| `Coder.OffTheGrid` | examples/realtime_example/gsm_enc/gsm_enc.cpp:432-461 | everywhere else it gets the estimate |
| `Coder.RpeEncoding` | examples/realtime_example/gsm_enc/gsm_enc.cpp:935-954 | the parameters of the block, and in its place the samples a decoder makes of them |
| `Coder.UpdateResidual` | examples/realtime_example/gsm_enc/gsm_enc.cpp:450-456 | the reconstructed residual is the sum of decoded samples and estimate |
| `Coder.EncodeSubframe` | examples/realtime_example/gsm_enc/gsm_enc.cpp:432-461 | one subframe: parameters within their field widths, and the buffer extended by exactly what a decoder rebuilds from them |
| `Coder.EncodeFrame` | examples/realtime_example/gsm_enc/gsm_enc.cpp:431-461 | the four subframes in order, each coded against what has been rebuilt so far |
| `Coder.InStep` | examples/realtime_example/gsm_enc/gsm_enc.cpp:431-461 | the specification's buffer is a function of the history and the parameters alone, by its construction; that the encoder's loops compute it is the content of Coder.EncodeSubframe and Encoder.EncodeOne |
| `Lpc.AcfFits` | examples/realtime_example/gsm_enc/gsm_enc.cpp:1857-1861 | no bit is lost in normalizing autocorrelations bounded by the first |
| `Lpc.ErrorShrinks` | examples/realtime_example/gsm_enc/gsm_enc.cpp:1878-1894 | the recursion keeps the prediction error between zero and its old value, without saturation |
| `Lpc.Schur` | examples/realtime_example/gsm_enc/gsm_enc.cpp:1872-1905 | the in-place recursion on P and K computes the coefficients step by step and meets the division's precondition each time |
| `Lattice.StageIsRotation` | examples/realtime_example/gsm_enc/gsm_enc.cpp:1893-1903 | where nothing saturates, one stage is a hyperbolic rotation of P[m + 1] and K[m]: P^2 - K^2 shrinks by 1 - r^2 to within 2 (P + K magnitudes) + 1/4, and the opposite rotation gives (1 - r^2) of either back to within one unit |
| `Predictor.ReflectionCancels` | examples/realtime_example/gsm_enc/gsm_enc.cpp:1876-1890 | the coefficient cancels P[1] against P[0] to within P[0]/32768 |
| `Predictor.FollowsLattice` | examples/realtime_example/gsm_enc/gsm_enc.cpp:1863-1905 | through n stages P and K stay within (2^n - 1)/2 of a lattice in real arithmetic with the same coefficients, as long as the recursion goes on and that lattice stays within 16 bits |
| `Predictor.LatticeIsPredictor` | examples/realtime_example/gsm_enc/gsm_enc.cpp:1863-1905 | that lattice holds, at every lag, the correlations of the linear predictor built from the coefficients with the autocorrelations |
| `Predictor.NormalEquations` | examples/realtime_example/gsm_enc/gsm_enc.cpp:1836-1905 | for every order n up to 8 the predictor made of the first n coefficients satisfies the normal equations of the normalized autocorrelations at every lag from 1 to n, to within 2^n, under the same two conditions |
| `Predictor.PredictionError` | examples/realtime_example/gsm_enc/gsm_enc.cpp:1892-1894 | and P[0] is the error of that predictor, to within (2^n - 1)/2 |
| `Lpc.ReflectionCoefficients` | examples/realtime_example/gsm_enc/gsm_enc.cpp:1836-1905 | for any nine autocorrelations exactly eight coefficients in -32767..32767 |
| `Lpc.ToLogAreaRatios` | examples/realtime_example/gsm_enc/gsm_enc.cpp:1909-1946 | the piecewise linear transformation, in place |
| `Lpc.LarRoundTrip` | examples/realtime_example/gsm_enc/gsm_enc.cpp:1562-1598 | the transformation is monotone and its decoder inverts it, but for the last bit of small odd coefficients |
| `Lpc.QuantizeAndCode` | examples/realtime_example/gsm_enc/gsm_enc.cpp:1950-1987 | the level of each ratio, clipped and made non-negative; every code is within its field of 6, 6, 5, 5, 4, 4, 3 and 3 bits |
| `Lpc.CodeMonotone` | examples/realtime_example/gsm_enc/gsm_enc.cpp:1950-1987 | the code never falls when the ratio rises |
| `Lpc.NearestCode` | examples/realtime_example/gsm_enc/gsm_enc.cpp:1451-1488 | no code of the field decodes nearer to the ratio than the code chosen, exactly, for each of the eight quantizers and every ratio, clipped ones included |
| `Lpc.LarQuantizationError` | examples/realtime_example/gsm_enc/gsm_enc.cpp:1451-1488 | an unclipped ratio is decoded to within half a quantizer step, for each of the eight quantizers |
| `Frame.ReadGains` | examples/realtime_example/gsm_enc/gsm_enc.cpp:291-298 | lag, gain, grid and level of a subframe are read back bit by bit, across byte boundaries |
| `Frame.ReadCodes` | examples/realtime_example/gsm_enc/gsm_enc.cpp:296-312 | so are its thirteen samples |
| `Frame.SubRoundTrip` | examples/realtime_example/gsm_enc/gsm_enc.cpp:291-312 | a subframe is recovered from anywhere in a byte string |
| `Frame.HeaderRoundTrip` | examples/realtime_example/gsm_enc/gsm_enc.cpp:279-290 | the magic number and the eight codes are read back, and every byte is a byte |
| `Frame.PackingIsLossless` | examples/realtime_example/gsm_enc/gsm_enc.cpp:192-378 | an unpacker that reads the fields in the order of the format recovers all of them, for every frame whose fields are in range |
| `Frame.PackFrame` | examples/realtime_example/gsm_enc/gsm_enc.cpp:279-378 | the 33 bytes are the packed header and the four packed subframes |
| `Encoder.LpcCodes` | examples/realtime_example/gsm_enc/gsm_enc.cpp:1989-1999 | from autocorrelations to codes within their field widths |
| `Encoder.HistoryKept` | examples/realtime_example/gsm_enc/gsm_enc.cpp:420-464 | coding a frame leaves the 120 samples of history at the front of the buffer as they were |
| `Encoder.EncodeOne` | examples/realtime_example/gsm_enc/gsm_enc.cpp:185-464 | for every frame the unpacked bytes are the codes and subframes computed, and a decoder rebuilds from them exactly the encoder's buffer |
| `Encoder.EncodeRun` | examples/realtime_example/gsm_enc/gsm_enc.cpp:2193-2231 | over every run of frames from the cleared state each frame carries its own parameters, coded against silence because no frame's end is copied to the front, and a decoder that starts from silence rebuilds the encoder's buffer from every frame |
| `History.NoPitch` | examples/realtime_example/gsm_enc/gsm_enc.cpp:1037-1134 | without a positive correlation the subframe is coded with lag 40 and the smallest gain, as is the first subframe of every frame |
| `History.CarriedHistory` | examples/realtime_example/gsm_enc/gsm_enc.cpp:431-464 | a decoder that carries its last 120 samples over agrees with the encoder on a frame if and only if every sample predicted from before the frame is scaled to zero |
| `History.CarriedRun` | examples/realtime_example/gsm_enc/gsm_enc.cpp:2219-2231 | over every run such a decoder rebuilds every frame as the encoder did if and only if nothing of any frame is heard in the next |
| `History.HeardFromFive` | examples/realtime_example/gsm_enc/gsm_enc.cpp:431-464 | one sample of magnitude five in the last subframe of a frame and the next frame is not rebuilt, whatever it is |
| `History.HistoryIsHeard` | examples/realtime_example/gsm_enc/gsm_enc.cpp:431-464 | a concrete frame, given by its short-term residual, after which no second frame is rebuilt |
| `Uuid.TextValue` | include/sole/sole.h:384-404 | reading base 62 digits as a number undoes writing them; none is a dash or a terminator |
| `Uuid.PrefixFits` | include/sole/sole.h:782-795 | while the digits of a 64-bit number are parsed the number so far never exceeds it: no overflow |
| `Uuid.ElevenDigits` | include/sole/sole.h:384-404 | no 64-bit number has more than eleven digits |
| `Uuid.WriteDigits` | include/sole/sole.h:392-396 | the do-while loop writes exactly the digits, in front of what is there |
| `Uuid.Base62` | include/sole/sole.h:384-404 | the text, inside the 24-byte buffer for every uuid |
| `Uuid.Str` | include/sole/sole.h:359-382 | the 36 characters in groups of 8, 4, 4, 4 and 12 |
| `Uuid.HexDigits` | include/sole/sole.h:361-361 | the sixteen digits, in lower case |
| `Uuid.Rebase62` | include/sole/sole.h:782-795 | the value of any characters modulo 2^64, with every step wrapped |
| `Uuid.ReadHex` | include/sole/sole.h:800-817 | no shift loses a bit while sixteen digits are read |
| `Uuid.Rebuild` | include/sole/sole.h:776-822 | the uuid a string stands for: one dash base 62, more hexadecimal, none or misplaced ones zero |
| `Uuid.HexReadBack` | include/sole/sole.h:800-817 | after k digits of printed text the number so far is the upper k digits of the uuid's word |
| `Uuid.Base62RoundTrip` | include/sole/sole.h:384-404 | parsing the base 62 text gives the uuid back, for every uuid |
| `Uuid.HexRoundTrip` | include/sole/sole.h:359-382 | parsing the hexadecimal text gives the uuid back, for every uuid |
| `UuidTime.Clock.GetTime` | include/sole/sole.h:486-505 | records the clock, or one more than the last time if the clock did not advance |
| `UuidTime.TickIncreases` | include/sole/sole.h:495-500 | the recorded time goes up if and only if it was not the largest 64-bit number |
| `UuidTime.Monotonic` | include/sole/sole.h:486-505 | over every run and whatever the clock does, the recorded times strictly increase if and only if the time before and every reading leave room below 2^64 for the calls that follow |
| `UuidTime.RecordedRise` | include/sole/sole.h:486-505 | the same with any bound: the times rise and stay within it if and only if the readings leave room for it |
| `UuidTime.ReturnedRise` | include/sole/sole.h:486-505 | the returned times of a run with one offset strictly increase, starting from the sum of the time before and the offset, if and only if there is room for the sums; a recorded time that wraps after the sum has wrapped does no harm |
| `UuidTime.ReturnedRun` | include/sole/sole.h:486-505 | the same for the returned times of a run alone, with nothing returned before them, as from a cleared clock |
| `UuidTime.ReturnedFalls` | include/sole/sole.h:497-504 | a call that records a later time and returns an earlier one |
| `UuidTime.TimesFit` | include/sole/sole.h:699-734 | the times of a run fit in 60 bits if and only if the readings leave room for it |
| `UuidTime.Uuid1Fields` | include/sole/sole.h:699-734 | the fields of a version 1 uuid give its time modulo 2^60, its node, its clock sequence (the low 14 bits of the time), and the version and variant of RFC 4122 |
| `UuidTime.Uuid1Equal` | include/sole/sole.h:699-734 | two uuids of a node are equal if and only if their times agree modulo 2^60 |
| `UuidTime.Assemble` | include/sole/sole.h:699-734 | the shifts and masks put together exactly those fields |
| `UuidTime.Uuid1Run` | include/sole/sole.h:699-734 | a run of calls yields the uuids of the recorded times in order |
| `UuidTime.Uuid1Distinct` | include/sole/sole.h:699-734 | the uuids of a run are pairwise distinct whenever its times fit in 60 bits |
| `Base64.FourIsGroup` | src/base64/base64.cpp:55-58 | the four values are the base 64 digits of the 24-bit group |
| `Base64.ThreeOfFour` | src/base64/base64.cpp:100-105 | joining the four values gives the three bytes back |
| `Base64.TailIgnored` | src/base64/base64.cpp:113-125 | the first n - 1 bytes depend on the first n values only: what the lookup gives for padding never reaches the output |
| `Base64.EncodedLength` | src/base64/base64.cpp:45-86 | the text has 4 * ceil(n / 3) characters |
| `Base64.Encode` | src/base64/base64.cpp:45-86 | the text of the bytes, by groups of three with '=' filling up the last |
| `Base64.Decode` | src/base64/base64.cpp:88-128 | the bytes of the characters up to the first that is not in the alphabet; n left over give n - 1 bytes |
| `Base64.RoundTrip` | src/base64/base64.cpp:45-128 | decoding the text of a byte string gives the byte string, for every byte string |
| `Base64.EncodeDecode` | src/base64/base64.cpp:45-128 | the two procedures in a row return the input, for every input whose text length is an int |
| `WyHash.Mum` | include/ankerl/unordered_dense.h:174-192 | the limb multiplication returns exactly the low and high words of the 128-bit product, without overflow in the high word |
| `WyHash.MixLimbs` | include/ankerl/unordered_dense.h:196-199 | the limb path and the 128-bit path mix to the same word |
| `WyHash.ReadLanes` | include/ankerl/unordered_dense.h:242-253 | the three-lane loop equals the three-lane recursion and has read exactly the bytes before where it stops |
| `WyHash.Hash` | include/ankerl/unordered_dense.h:219-264 | for every length the routine computes the hash, reads every byte of the key and none outside it |
| `WyHash.ShortTells` | include/ankerl/unordered_dense.h:229-239 | two keys of one length up to 16 give the same two words if and only if they are equal: nothing is lost before the words are mixed |
| `ConstevalHash.UnionAt` | include/ichor/ConstevalHash.h:37-43 | a byte of the union of terms is the byte itself, or ones if a later term is a negative number |
| `ConstevalHash.Word8Signed` | include/ichor/ConstevalHash.h:37-43 | over signed characters, as typeNameHash uses it, the eight-byte reader gives the number the bytes spell if and only if every byte from 128 on is preceded by bytes 255 only |
| `ConstevalHash.Word8Unsigned` | include/ichor/ConstevalHash.h:37-43 | over unsigned characters, if and only if the fifth byte is below 128 or the first four are all ones |
| `ConstevalHash.Word8Loses` | include/ichor/ConstevalHash.h:37-43 | two different blocks that the reader does not tell apart, for signed and for unsigned characters |
| `ConstevalHash.Read256` | include/ichor/ConstevalHash.h:87-104 | the unrolled body is four steps of the simple 64-byte recursion |
| `ConstevalHash.Read256s` | include/ichor/ConstevalHash.h:85-104 | the unrolled loop equals the simple recursion up to the last multiple of 256 |
| `ConstevalHash.Hash` | include/ichor/ConstevalHash.h:57-124 | for every length and for signed and unsigned characters the routine computes the hash, reads every byte of the key and none outside it |

## Left out

- Table.Table.Emplace: new keys only in a table of fewer than 2^24 - 2 keys, so that there are at most 2^24 - 2 afterwards. By `Layout.ProbeField` the words of probes fit for every hash exactly up to that many keys, and by `Layout.DistanceField` those of buckets for one more.
- Table.Table.TryEmplace: bounded as Table.Table.Emplace.
- Table.Table.DoPlaceElement: bounded as Table.Table.Emplace.
- Table.Table.InsertOrAssign: bounded as Table.Table.Emplace.
- Table.Table.IncreaseSize: bounded as Table.Table.Emplace, so that the error for the largest bucket array is not reached.
- Table.Table.Rehash: counts up to 3435973888, beyond which calc_shifts_for_size finds no bucket count (`Table.Table.CalcShiftsForSize`).
- Table.Table.Reserve: bounded as Table.Table.Rehash.
- Table.Table.WithCapacity: bounded as Table.Table.Rehash.
- Table.Table.Replace: containers up to that size with at most 2^24 - 2 different keys.
- TableRun.PerformAll: runs whose every insertion and resizing is within these bounds at the time it is made; their length is not bounded.
- TableRun.PerformOnEntries: bounded as TableRun.PerformAll.
- Table.Table.Find: returns an index rather than an iterator; const and transparent-key overloads are not modelled apart.
- Lpc.ReflectionCoefficients: autocorrelations of 32 bits; for wider ones gsm_enc_norm is not defined.
- Predictor.NormalEquations: for the orders the recursion reaches before P[0] is below the magnitude of P[1], and while the lattice in real arithmetic stays within 16 bits; that it always does for the autocorrelations of a signal is not stated.
- Predictor.FollowsLattice: bounded as Predictor.NormalEquations.
- Predictor.PredictionError: bounded as Predictor.NormalEquations.
- Lattice.StageIsRotation: where neither of the two sums saturates.
- Base64.Decode: strings whose size an int holds; for a larger one the counter starts out wrong, and counting it down can overflow.
- Uuid.Rebuild: strings with two or more dashes that are too short to be indexed are outside its precondition, as the code reads them without a check.
- The table's load factor setter, copies, moves, swap, allocators, iterator types, the moved-from state without buckets, and the segmented container.
- The encoder's autocorrelation and short-term lattice filter: the autocorrelations and the residual of each frame are parameters of `Encoder.EncodeRun`; the scaling the recommendation puts into the autocorrelation is commented out in the code.
- The floating-point and table-multiplication variants of the long-term predictor.
- MAC lookup, the system clock, random uuids, pretty printing of uuids; clock readings and the node are parameters.
- Locale-dependent character classes: the base64 alphabet test is that of the C locale.
- Hash quality, big-endian machines, and the 32-bit variant of the mixing step of `consteval_wyhash`.
- The dependency manager, event queues, coroutines, services and network code: their bodies are wiring and callbacks and would add only easy members.
