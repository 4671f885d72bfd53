# A verified model of the receiver chain

This project models the integer and bit-level core of a DAB/DAB+ receiver in Dafny and proves what that core is for.
`dafny verify dfyconfig.toml` checks all of it.

The parts, each in its own modules:

- **Reed-Solomon codec** (`galois*`, `recurrence`, `locator`, `powersums`, `forney`, `codeword`, `erasures`, `correction`, `search`,
  `generator`, `polyarrays`, `rscode`, `reed_solomon`). The field is eight bits modulo x^8+x^4+x^3+x^2+1; the log tables are proved to
  implement it once, and the rest works over the field. Berlekamp-Massey is proved with Massey's invariant, erasures by simulating a
  search on the syndromes without the erased points. The result is bounded-distance correction: e errors and f erasures with
  2e + f at most NPAR are undone, in every word of at most 255 bytes.
- **Streaming buffers** (`sliding_buffer`, `sample_positions`, `unit_positions`, `sample_buffer`, `symbol_buffer`, `play_runs`,
  `feeder_stalls`, `scheduler`). Objects over arrays, with the whole sample and unit streams and a running base offset as ghost state. Every event of the play loop keeps the
  buffers windows of their streams and is a transition on values, so that whole runs, and the stall of the feeder, are reasoned about
  as sequences of such transitions.
- **Time de-interleaver** (`time_deinterleaver`, `msc_decoder`, `play_decoding`). The in-place index-table move, on top of the sliding
  unit buffer, is proved to invert the time interleaving of EN 300 401 section 12 over a stream of any length, and in every run of the
  play loop.
- **Viterbi decoder** (`trellis`, `deviterbi`, `mother_code`, `code_distances`, `clean_reception`). Double-buffered add-compare-select
  and the circular traceback against the maximum over all paths of the section 11.1 mother code, with integer metrics, and the state
  the source really starts from. The code is tied to its generator polynomials on the bits put in, and distances in it, bounded by
  potentials over the 64 differences of states, show that the decoder puts out the bits sent although it picks a wrong state.
- **Demodulator indexing** (`congruential`, `frequency_deinterleaver`, `demodulator`). The frequency de-interleaver table is a bijection
  for every power of two from 8 on, because its generator has full period; the demapping fills the output in the standard's order, and
  every symbol it reads is transformed exactly once, and phase steps sent come out at their place.
- **Rate matching** (`rate_matching`, `depuncturer`), equal error protection and the FIC.
- **Superframes** (`superframe`, `superframe_decoder`, `gf2_division`, `firecode`, `checksums`, `bit_fields`): assembly in the 16-CIF
  buffer, the fire code and the CRC, both against division of binary polynomials, reading bit fields, and all of it together: a
  superframe hit by errors within the reach of the code is delivered as it was sent.
- **Asynchronous transfers** (`async_protocol`, `async_transfers`). The state the lock protects is a value with one transition per
  critical section; the device object, with its intrusive linked list, is proved to take exactly these transitions in every
  interleaving of completions, cancel calls and the reader. No transfer is lost from the ring while a run goes on, and a cancelled run
  ends: the transfers libusb still holds bound the passes left.
- **Fractional synthesiser** (`fractional_pll`): divider, integer part in eight bits, greedy sigma-delta loop, and how close the words
  come to the wanted frequency.

`pigeonhole` and `division` hold the counting and quotient facts the others share.

## Results that are not what the source says

- The sigma-delta loop (src/rtlsdr/src/tuner_r82xx.c:513-522) divides by an `n_sdm` shifted to zero for a fraction of 2 and any reference
  of 32768 kHz or more. It is safe for every fraction exactly below that (`SafeIffSmallReference`).
- The multiplier `nint` has eight bits (src/rtlsdr/src/tuner_r82xx.c:433, :488). From 1769.9995 MHz on there is no divider, the multiplier
  loses bits, may still pass the check at :491, and the fraction is out of range (`FractionUnbounded`). Below, and only below, it is at
  most twice the reference (`BoundedIffTunable`). An integer part below 13 is not what its register fields say (`IntegerReadBack`).
- The feeder can get stuck for good although every worker is prompt. `StuckIffNothingStored` says when. There are two causes.
  Compaction lowers the idle demodulator's mark with everything else (src/sdrdab/scheduler.cc:1201) and only a report of the
  demodulator sets it anew (:831), so without frames the mark stays in the stream and holds the feeder back. And a feeder event hands
  no frame to the demodulator (:766-774): a frame that becomes ready then is taken up only at a worker's next report, and the only one
  left to report may be the synchroniser, which waits for samples that find no room because of this very frame. That happens in
  nominal reception, too.
  `StallingRun` is a run of each kind.
- The Viterbi traceback starts from a state found by searching past the metrics just written (src/sdrdab/DataDecoder/deviterbi.cc:181-191):
  every other step the metrics before that step, otherwise the saved tail that lies behind the array, and one place late
  (`PickStart`, `ReadBehind`). So no maximum-likelihood decision over a whole frame is claimed. What saves the decoder is its depth:
  with little noise all paths selected agree 31 steps back, whatever state is picked (`BitDecoded`).
- A synchroniser report that found its NULL symbol moves the position by the NULL symbol's distance and then adds that distance again
  for the frame (src/sdrdab/scheduler.cc:784-799). The frame is taken from the right place exactly when the position was right before
  (`FrameBehindNull`); with NULL symbols one frame apart that is from the second report on (`LocksOn`). In mode III the NULL symbol
  has an odd number of samples, so no report can be exact, and the correction puts positions between the real and the imaginary part
  of a sample (`OnlyModeIIILeavesGrid`).
- `correct_errors_erasures` returns the number of errata, not 1 as its comment says (src/rscode/berlekamp.c:265-266, :316), and
  `compute_genpoly` uses the roots alpha^0 to alpha^(n-1), not alpha^1 to alpha^n (src/rscode/rs.c:158-165). The model follows the code.
- A failed buffer allocation returns with the device still marked running (src/rtlsdr/src/librtlsdr.c:2085-2109), so every later read is
  refused as busy; `ReadAsync` states this.
- `r == LIBUSB_TRANSFER_NO_DEVICE` under `r < 0` never holds, since that constant is positive (src/rtlsdr/src/librtlsdr.c:2127, :2185);
  the model has no such branch.
- A wait that fails other than by interruption leaves the loop and frees the buffers whether or not libusb still holds some
  (src/rtlsdr/src/librtlsdr.c:2146-2150, :2222-2225). The device is valid afterwards exactly when none was outstanding (`ReadAsync`).

## Assumptions

- The synchroniser reports a NULL position of at most three half NULL symbols, a unit or window reported has the agreed size, and a
  worker reports only what it was resumed for. Each worker acts at its report.
- libusb calls back once for every transfer it accepted.
- What other threads do and which codes libusb returns are arbitrary inputs of the transfer protocol. A pass of a cancelled run is
  useful if it does not wait, or if its wait succeeds and libusb calls back for some transfer in it.
- `zeroTail_` lies directly behind `accMetricBuff_`, as declared (src/sdrdab/DataDecoder/deviterbi.h:67-68).
- Sub-channel sizes are at least one step of their protection profile, as the lengths in the source are negative otherwise.

## Model

| member | source | states |
|---|---|---|
| `Galois.MulAssoc` | src/rscode/galois.c:38-42 | multiplication modulo x^8+x^4+x^3+x^2+1 is associative |
| `Galois.MulComm` | src/rscode/galois.c:38-42 | and commutative |
| `Galois.MulAddRight` | src/rscode/galois.c:38-42 | and distributes over addition |
| `Galois.MulInv` | src/rscode/galois.c:108-111 | every non-zero byte times its inverse is one |
| `Galois.NoZeroDivisors` | src/rscode/galois.c:98-105 | a product is zero only when a factor is |
| `Galois.OrderIs255` | src/rscode/galois.c:38-42 | the powers of alpha return to one after 255 steps and no fewer, the cycle length claimed for the polynomial |
| `Galois.LogExists` | src/rscode/galois.c:87-94 | every non-zero byte is a power of alpha below 255 |
| `GaloisTables.FillExpTable` | src/rscode/galois.c:61-85 | the shift register on eight variables fills the table with the powers of alpha |
| `GaloisTables.FillLogTable` | src/rscode/galois.c:87-94 | the search loops find for every non-zero byte its least exponent |
| `GaloisTables.InitGaloisTables` | src/rscode/galois.c:52-95 | the finished tables are valid: exponents and logarithms of the field |
| `GaloisTables.Tables.Gmult` | src/rscode/galois.c:97-105 | table multiplication is field multiplication, zeros included |
| `GaloisTables.Tables.Ginv` | src/rscode/galois.c:108-111 | table inversion is the field inverse, and one for zero |
| `Generator.GenPolyRoots` | src/rscode/rs.c:153-171 | the generator polynomial vanishes at alpha^i for every i below its degree |
| `Generator.GenPolyMonic` | src/rscode/rs.c:153-171 | it is monic of degree n |
| `Generator.ParityCompletes` | src/rscode/rs.c:86-97 | a message followed by its remainder, reversed, has no syndromes |
| `Generator.CodewordsAreFarApart` | src/rscode/rs.c:119-132 | two words without syndromes that differ in at most NPAR places are equal |
| `RsCode.RsCode.constructor` | src/rscode/rs.c:46-55 | initialize_ecc: valid tables and the generator polynomial computed |
| `RsCode.RsCode.ComputeGenpoly` | src/rscode/rs.c:153-171 | the product loop computes the generator polynomial |
| `RsCode.RsCode.RunRegister` | src/rscode/rs.c:186-194 | message(x) x^NPAR = q(x) g(x) + register(x), coefficient by coefficient, for messages of any length; the values agree at every root |
| `Generator.DivisionAdvances` | src/rscode/rs.c:188-193 | a byte fed back is the next coefficient of the quotient, and the register stays the remainder |
| `RsCode.RsCode.ClockRegister` | src/rscode/rs.c:189-193 | one byte into the register, in place from the top down |
| `RsCode.RsCode.BuildCodeword` | src/rscode/rs.c:86-97 | message bytes followed by the parity bytes, highest first |
| `RsCode.RsCode.EncodeData` | src/rscode/rs.c:181-200 | the codeword is systematic and all its syndromes vanish |
| `RsCode.RsCode.DecodeData` | src/rscode/rs.c:106-117 | the Horner loops compute the word at alpha^0 to alpha^9 |
| `RsCode.RsCode.CheckSyndrome` | src/rscode/rs.c:120-132 | reports exactly whether some syndrome is non-zero |
| `Codeword.SyndromeOfDifference` | src/rscode/rs.c:106-117 | the difference of two words shows in the syndromes as power sums over the places where they differ or that are flagged |
| `Recurrence.MasseyBound` | src/rscode/berlekamp.c:80-101 | a recurrence that fails at n forces every recurrence past n to have a length of at least n + 1 minus its own |
| `Recurrence.Repaired` | src/rscode/berlekamp.c:82-97 | adding the scaled companion repairs the failure at n |
| `Recurrence.ShortestAfterFailure` | src/rscode/berlekamp.c:88-93 | the length rule of the update gives a least length |
| `Search.SearchGrows` | src/rscode/berlekamp.c:82-100 | the growing step keeps the invariant: psi generates the syndromes so far, no recurrence that does is shorter, and D is silent before n with discrepancy one at n |
| `Search.SearchRepairs` | src/rscode/berlekamp.c:82-100 | the repairing step keeps it |
| `Search.SearchPasses` | src/rscode/berlekamp.c:80-100 | a passed position keeps it |
| `Search.SameDiscrepancy` | src/rscode/berlekamp.c:80-80 | with erasures in psi, its discrepancy on the syndromes is that of the error part on the syndromes without the erased points |
| `Erasures.DotThroughLocator` | src/rscode/berlekamp.c:150-166 | convolving with the erasure locator is taking the erased points out of the sequence, one linear factor at a time |
| `Erasures.ReducedPowerSums` | src/rscode/berlekamp.c:150-166 | syndromes with the erased points taken out are power sums with those values removed |
| `PowerSums.Vandermonde` | src/rscode/berlekamp.c:75-101 | as many power sums as points, all zero, only when all values are zero |
| `PowerSums.ShortestIsLocator` | src/rscode/berlekamp.c:75-104 | twice as many power sums as error points: the shortest recurrence is the product of (1 + x z) over the points |
| `RsCode.RsCode.InitGamma` | src/rscode/berlekamp.c:150-166 | gamma becomes the product of (1 + alpha^i z) over the flagged locations |
| `RsCode.RsCode.ComputeDiscrepancy` | src/rscode/berlekamp.c:181-189 | the sum is the discrepancy of the recurrence at n |
| `RsCode.RsCode.SearchStep` | src/rscode/berlekamp.c:80-100 | one turn of the loop keeps the search invariant and moves the length as the rule says |
| `RsCode.RsCode.ModifiedBerlekampMassey` | src/rscode/berlekamp.c:61-107 | Lambda is a shortest recurrence for the reduced syndromes times the erasure locator; Omega is Lambda times the syndromes, cut off |
| `RsCode.RsCode.ComputeModifiedOmega` | src/rscode/berlekamp.c:113-123 | Omega is the product of Lambda and the syndromes modulo z^NPAR |
| `PolyArrays.MultPolys` | src/rscode/berlekamp.c:126-146 | the shift-and-add loops compute the product polynomial |
| `RsCode.RsCode.FindRoots` | src/rscode/berlekamp.c:235-253 | the search lists every location whose inverse power is a root, each once, highest first |
| `Correction.RootsAreErrata` | src/rscode/berlekamp.c:235-253 | Chien: the roots are exactly the error and erasure locations |
| `Forney.ForneyFormula` | src/rscode/berlekamp.c:296-315 | Omega over the odd part of Lambda at an error point is the error value, and the divisor is not zero |
| `Correction.MagnitudesAreErrors` | src/rscode/berlekamp.c:296-315 | the magnitude computed at each erratum is the difference between codeword and word there |
| `RsCode.RsCode.ErrorMagnitude` | src/rscode/berlekamp.c:297-311 | the evaluation loops compute that magnitude |
| `RsCode.RsCode.ApplyCorrections` | src/rscode/berlekamp.c:296-316 | each listed location is corrected once and nothing else changes |
| `RsCode.Decoded` | src/rscode/berlekamp.c:268-322 | with few enough errata the listed locations are the errata and applying the corrections gives the codeword |
| `RsCode.RsCode.CorrectErrorsErasures` | src/rscode/berlekamp.c:268-322 | any e unflagged errors and f flagged erasures with 2e + f at most NPAR in a codeword of up to 255 bytes are undone exactly and counted; a zero return leaves the word alone |
| `ReedSolomon.CellsDistinct` | src/sdrdab/DataDecoder/reed_solomon.cc:47-53 | i + j * no_cells names every cell of the columns once |
| `ReedSolomon.ReedSolomonCorrection` | src/sdrdab/DataDecoder/reed_solomon.cc:37-56 | every column within NPAR / 2 errors of a codeword becomes it; clean columns stay; the result counts the errors |
| `SlidingBuffer.HoldsMoved` | src/sdrdab/scheduler.cc:1189-1210 | moving a tail of the buffer to the front keeps it a window of the stream at a later base |
| `SampleBuffer.ParametersOf` | src/sdrdab/scheduler.cc:1378-1470 | the mode constants satisfy the size assumptions of the buffer proofs |
| `SampleBuffer.FrameOfMode` | src/sdrdab/scheduler.cc:1378-1470 | a frame is its NULL symbol and its symbols, lasts 96, 24, 24 or 48 ms, and the read sizes listed hold it and one more NULL symbol |
| `SamplePositions.Place.LocksOn` | src/sdrdab/scheduler.cc:779-816 | after a report that found its NULL symbol, or found it displaced, the next finds the one a frame later at half the NULL size |
| `SamplePositions.Place.StaysLocked` | src/sdrdab/scheduler.cc:779-816 | from there on every report moves the synchroniser by one frame exactly |
| `SamplePositions.Place.FrameBehindNull` | src/sdrdab/scheduler.cc:782-803 | a frame is taken to begin behind its NULL symbol exactly when no correction was made or none was needed |
| `SampleBuffer.OnlyModeIIILeavesGrid` | src/sdrdab/scheduler.cc:784-816 | a report leaves the positions on whole samples except, exactly, one that locks on in mode III |
| `SampleBuffer.SampleBuffer.FeederTurn` | src/sdrdab/DataFeeder/file_data_feeder.cc:88-126 | the feeder stores a block only after the last one was released, each block once, and it fits |
| `SampleBuffer.SampleBuffer.ShiftSyncFeederPointersIfPossible` | src/sdrdab/scheduler.cc:1155-1231 | released exactly unless the consumers lag; only the base, the write position and the flag change in the stream, and the next block fits |
| `SampleBuffer.SampleBuffer.Compact` | src/sdrdab/scheduler.cc:1186-1207 | the move neither overlaps nor loses a needed sample |
| `SampleBuffer.SampleBuffer.OnDataFeederEvent` | src/sdrdab/scheduler.cc:766-774 | last_data_feeder_write_ becomes the end of the stored block, which is released unless a consumer lags, and the synchroniser is resumed if its window is written: the exact new place of every position |
| `SampleBuffer.SampleBuffer.OnSynchronizerReport` | src/sdrdab/scheduler.cc:775-825 | the exact new place of every position for each quality; frames found are recorded in increasing stream order and never beyond the data written |
| `SampleBuffer.SampleBuffer.ResumeSynchronizerIfReady` | src/sdrdab/scheduler.cc:669-681 | the synchroniser is resumed exactly when idle and its window is written |
| `SampleBuffer.SampleBuffer.ResumeDemodulatorIfReady` | src/sdrdab/scheduler.cc:683-709 | a frame is handed over exactly when one waits, is written, and the demodulator is idle and not blocked; frames go in order, each once |
| `SampleBuffer.SampleBuffer.OnDemodulatorReport` | src/sdrdab/scheduler.cc:826-833 | the mark moves to the end of the buffer as it then lies in the stream, and the block is released if now possible |
| `SampleBuffer.SampleBuffer.AssertionsHold` | src/sdrdab/scheduler.cc:1215-1226 | in every reachable state the assertions in the source hold and a frame in work is intact |
| `PlayRuns.StuckForGood` | src/sdrdab/scheduler.cc:1155-1184 | a feeder that is stuck, in any of the states of the next row, stores nothing more in any run |
| `PlayRuns.StuckIffNothingStored` | src/sdrdab/scheduler.cc:766-774 | with both consumers idle and nothing for them to start on, a ready frame that no report will hand over included, a held block and a lagging consumer mean exactly that no run from there stores anything |
| `PlayRuns.MarkStaysWithoutFrames` | src/sdrdab/scheduler.cc:1200-1203 | the idle mark keeps its place in the stream, however often the buffer is compacted, until a frame is handed over |
| `PlayRuns.FeedNeedsFrames` | src/sdrdab/scheduler.cc:826-831 | from a clean start, in any order of events, at most twice the buffer is stored while no report finds a frame |
| `FeederStalls.DisplacedStalls` | src/sdrdab/scheduler.cc:1155-1231 | twelve rounds with every NULL symbol displaced, each worker prompt, leave the feeder stuck |
| `FeederStalls.NominalStalls` | src/sdrdab/scheduler.cc:755-862 | so do thirteen rounds of nominal reception of a fifteen-symbol sub-channel: a frame is ready, and nothing hands it over |
| `FeederStalls.FeederStops` | src/sdrdab/scheduler.cc:755-862 | whatever follows either of these two runs, the twelve blocks stored are the last |
| `Scheduler.Scheduler.StallingRun` | src/sdrdab/scheduler.cc:755-862 | the play loop over real buffers, led through either run from a clean start, ends stuck after twelve blocks, whatever events follow |
| `SymbolBuffer.SymbolBuffer.constructor` | src/sdrdab/scheduler.cc:1140-1152 | the initial window: all but one of its units zero |
| `SymbolBuffer.SymbolBuffer.ShiftDemodDecodPointersIfPossible` | src/sdrdab/scheduler.cc:883-933 | blocked exactly when the decoder lags; positions keep their place in the unit stream |
| `SymbolBuffer.SymbolBuffer.OnDemodulatorReport` | src/sdrdab/scheduler.cc:826-831 | one unit joins the stream |
| `SymbolBuffer.SymbolBuffer.ResumeDatadecoderIfReady` | src/sdrdab/scheduler.cc:711-727 | resumed exactly when idle with a full window, which is window number decoded of the stream |
| `SymbolBuffer.SymbolBuffer.OnDatadecoderReport` | src/sdrdab/scheduler.cc:838-857 | the window moves on by one unit, none skipped or repeated |
| `SymbolBuffer.LagEnds` | src/sdrdab/scheduler.cc:894-905 | a lag ends after finitely many decodes, each of a complete window |
| `SymbolBuffer.SymbolBuffer.BlockedMeansDecodable` | src/sdrdab/scheduler.cc:894-905 | a blocked demodulator means a full window, and enough decodes lift the block |
| `SymbolBuffer.SymbolBuffer.PositionsAreMultiples` | src/sdrdab/scheduler.cc:890-923 | all positions are multiples of the unit |
| `PlayRuns.BlockEnds` | src/sdrdab/scheduler.cc:838-860 | in any run from a blocked state the demodulator is unblocked before the decoder has reported more than three windows of units |
| `Scheduler.Scheduler.BlockEndsInRuns` | src/sdrdab/scheduler.cc:826-860 | every valid blocked state is one of these, and its decoder is at work |
| `Scheduler.Scheduler.Handle` | src/sdrdab/scheduler.cc:763-862 | every event keeps both buffers valid; streams, frames found and all positions in both buffers become what the transition function says |
| `Scheduler.Scheduler.Play` | src/sdrdab/scheduler.cc:755-862 | every run of events ends where these transitions lead from the start, so the streams are determined; with the demodulator idle throughout, the feeder stores at most a buffer length past its mark |
| `TimeDeinterleaver.PosIsReversedDelay` | src/sdrdab/DataDecoder/data_decoder_data.h:215-215 | each table entry plus the bit-reversed delay of EN 300 401 section 12 is 15 |
| `TimeDeinterleaver.AddrInjective` | src/sdrdab/data_decoder.cc:421-423 | different samples of different CIFs have different addresses |
| `TimeDeinterleaver.Station.UnitSizesAgree` | src/sdrdab/data_decoder.cc:131-133 | the decoder's padding and the scheduler's unit size describe units of the same size |
| `TimeDeinterleaver.Station.PaddingAround` | src/sdrdab/data_decoder.cc:131-132 | the left padding is what the first symbol holds ahead of the sub-channel, the right one what the last holds behind it |
| `TimeDeinterleaver.Station.ReadsSubChannel` | src/sdrdab/data_decoder.cc:270-278 | value k of CIF c is read where value k mod 64 of capacity unit startAddr + k / 64 arrives among the symbols demapped |
| `TimeDeinterleaver.TimeDeinterleaver.constructor` | src/sdrdab/data_decoder.cc:410-426 | the index tables hold the source and target address of every sample |
| `TimeDeinterleaver.SourceUntouched` | src/sdrdab/data_decoder.cc:428-432 | no cell is overwritten before it is read |
| `TimeDeinterleaver.TimeDeinterleaver.Move` | src/sdrdab/data_decoder.cc:428-432 | the in-place loop moves every sample as a simultaneous copy would, and touches nothing else |
| `MscDecoder.UnitArrives` | src/sdrdab/scheduler.cc:826-831 | a new unit keeps the stream relation between received and rewritten units |
| `MscDecoder.WindowDecoded` | src/sdrdab/data_decoder.cc:370-371 | so does one more window rewritten in place |
| `MscDecoder.MscDecoder.CountFrame` | src/sdrdab/data_decoder.cc:266-269 | the frame counter opens the gate exactly after sixteen CIFs of units |
| `MscDecoder.MscDecoder.MSCDecoder` | src/sdrdab/data_decoder.cc:370-378 | behind the gate every CIF handed on consists of sample k of received CIF r + 16 - pos_table[k mod 16], all arrived |
| `MscDecoder.MscDecoder.OnWindow` | src/sdrdab/data_decoder.cc:266-278 | the whole step, for every reachable state |
| `MscDecoder.DelaysCancel` | src/sdrdab/data_decoder.cc:428-432 | against the interleaver of section 12 every CIF handed on is one logical frame, whole |
| `PlayDecoding.RunFollows` | src/sdrdab/scheduler.cc:755-862 | in every run of the play loop, however its events interleave, the unit stream is what the windows decoded so far make of the units delivered |
| `PlayDecoding.RunGivesFrames` | src/sdrdab/scheduler.cc:755-862 | so in any run every window reported after the gate has opened holds whole logical frames of the transmitter, in order |
| `DeViterbi.RowSumIsMotherBit` | src/sdrdab/DataDecoder/deviterbi.cc:276-280 | the generator row sum modulo two is the mother code bit |
| `MotherCode.ShiftRegister` | src/sdrdab/DataDecoder/deviterbi.cc:244-252 | a state moves its bits on by one place and takes in the new one |
| `MotherCode.StateHoldsInputs` | src/sdrdab/DataDecoder/deviterbi.cc:244-280 | after any path the state holds the last six bits put in |
| `MotherCode.CodeLaw` | src/sdrdab/DataDecoder/deviterbi.cc:254-293 | output k at step t is the parity of generator 133, 171, 145 or 133 (octal) against the bits put in at steps t to t - 6 |
| `DeViterbi.DeViterbi.DeViterbiInit` | src/sdrdab/DataDecoder/deviterbi.cc:237-293 | predecessor states and branch signs of the section 11.1 mother code, which is `CodeLaw` |
| `Trellis.BestIsUpperBound` | src/sdrdab/DataDecoder/deviterbi.cc:89-174 | no path beats the recursive metric of its end state |
| `Trellis.SurvivorAchieves` | src/sdrdab/DataDecoder/deviterbi.cc:165-173 | the selected path reaches its state and achieves the metric |
| `Trellis.BestIsMaximum` | src/sdrdab/DataDecoder/deviterbi.cc:89-174 | the metric is the maximum over all start states and input bits |
| `DeViterbi.DeViterbi.AddCompareSelect` | src/sdrdab/DataDecoder/deviterbi.cc:71-178 | a step writes the metrics of step i + 1 and the selections, in the half and slot it should |
| `Trellis.TraceIsSurvivorBit` | src/sdrdab/DataDecoder/deviterbi.cc:193-200 | the state n selections back names the selected path's input bit at that step |
| `DeViterbi.DeViterbi.TraceBack` | src/sdrdab/DataDecoder/deviterbi.cc:193-200 | the circular reads follow exactly the last 30 selections |
| `DeViterbi.DeViterbi.PickStart` | src/sdrdab/DataDecoder/deviterbi.cc:181-191 | the state picked is one past the first of the largest values behind the half just written, or 0 if that is the first |
| `DeViterbi.DeViterbi.PutBit` | src/sdrdab/DataDecoder/deviterbi.cc:202-217 | one bit is stored at its place, MSB first, the others kept |
| `DeViterbi.DeViterbi.DeViterbiProcess` | src/sdrdab/DataDecoder/deviterbi.cc:48-234 | every output bit is the bit, 30 steps back, of a best path into the state the source picks at that step |
| `CodeDistances.OutputsDiffer` | src/sdrdab/DataDecoder/deviterbi.cc:274-280 | the code is linear: outputs of two paths differ as the difference of their inputs says |
| `CleanReception.MetricGap` | src/sdrdab/DataDecoder/deviterbi.cc:89-174 | the metrics of two paths differ as their distances from the code word sent, up to the noise |
| `CleanReception.PathTo` | src/sdrdab/DataDecoder/deviterbi.cc:89-174 | to every state leads a path within 15 code bits of what was sent |
| `CleanReception.ApartOrBack` | src/sdrdab/DataDecoder/deviterbi.cc:193-200 | a path with a wrong bit has differed in ten code bits when it rejoins the one sent, or drifts off by three quarters of a bit a step |
| `CleanReception.SentPathIsBest` | src/sdrdab/DataDecoder/deviterbi.cc:89-174 | without noise the path sent has the best metric of its end state, all of the signal |
| `CleanReception.SentBitsSelected` | src/sdrdab/DataDecoder/deviterbi.cc:89-200 | with less noise than seven code bits the path selected into its end state carries the bits sent |
| `CleanReception.BitDecoded` | src/sdrdab/DataDecoder/deviterbi.cc:181-200 | and 31 selections back so does the path selected into any state |
| `CleanReception.OutputIsSent` | src/sdrdab/DataDecoder/deviterbi.cc:48-234 | so whatever state is picked the decoder puts out the bits sent, for code words of any length, with up to three values of wrong sign or noise to that amount |
| `CleanReception.BlockIsSent` | src/sdrdab/DataDecoder/deviterbi.cc:48-234 | a block closed with a zero and the six tail bits comes out whole, read past its end as the source does |
| `Congruential.FullPeriod` | src/sdrdab/demodulator.cc:210-213 | x -> 13 x + c with c odd visits every residue of a power of two once |
| `FrequencyDeinterleaver.IndicesBijective` | src/sdrdab/demodulator.cc:215-231 | the carriers in use, in order of their visit, map one to one onto the table |
| `FrequencyDeinterleaver.GenerateFrequencyDeInterleaverTab` | src/sdrdab/demodulator.cc:192-235 | for every FFT size 2^m from 8 on the loop numbers the carriers in the order of EN 300 401 section 14.6 |
| `FrequencyDeinterleaver.TableIsPermutation` | src/sdrdab/demodulator.cc:192-235 | the finished table is a permutation of 1 to 3n/4 |
| `Demodulator.SourceIsBin` | src/sdrdab/demodulator.cc:143-157 | the two index formulas address the FFT bin of the carrier |
| `Demodulator.StepFromPrevious` | src/sdrdab/demodulator.cc:152-159 | the two cells are the phase step: times the previous symbol it is the current one, times the power |
| `Demodulator.TurnRecovered` | src/sdrdab/demodulator.cc:146-163 | a carrier turned by a + ib gives a and b times the power received, at the place of its QPSK symbol |
| `Demodulator.Demodulator.DemapSymbol` | src/sdrdab/demodulator.cc:146-163 | each symbol fills its block: QPSK symbol t of the standard order at t and t + carriers, every cell written once |
| `Demodulator.Demodulator.DeQPSK` | src/sdrdab/demodulator.cc:141-190 | the blocks of the FIC and of every CIF follow one another in order |
| `Demodulator.Demodulator.TurnsRecovered` | src/sdrdab/demodulator.cc:141-190 | so for every carrier of every symbol demapped |
| `Demodulator.Demodulator.FFTInPlace` | src/sdrdab/demodulator.cc:91-112 | every symbol the demapping reads is transformed exactly once, all others not at all |
| `Demodulator.Demodulator.DemappedAreNeeded` | src/sdrdab/demodulator.cc:141-190 | every symbol demapped, and its predecessor, is among those transformed |
| `Demodulator.Demodulator.NeededAreDemapped` | src/sdrdab/demodulator.cc:91-112 | and no symbol is transformed that is not read |
| `AsyncProtocol.ErrorsOverIsRun` | src/rtlsdr/src/librtlsdr.c:1971-1983 | the error count reaches n exactly at the end of a run of n errors without a success between |
| `AsyncProtocol.LostIffRun` | src/rtlsdr/src/librtlsdr.c:1971-1993 | the device is given up for the code that says it is gone or a run of as many errors as there are transfers, and for nothing else |
| `AsyncProtocol.View.CompletedSound` | src/rtlsdr/src/librtlsdr.c:1953-1999 | a completion joins the queue once, leaves libusb, and keeps successes in order |
| `AsyncProtocol.View.SubmittedAgainSound` | src/rtlsdr/src/librtlsdr.c:2178-2188 | a transfer goes back to libusb only while the run goes on |
| `AsyncProtocol.View.AllCancelledSound` | src/rtlsdr/src/librtlsdr.c:2191-2200 | a cancel request catches every submitted transfer |
| `AsyncProtocol.View.EndCheckedSound` | src/rtlsdr/src/librtlsdr.c:2202-2212 | a cancelled run ends exactly when libusb holds no transfer |
| `AsyncProtocol.View.EndedRunDelivered` | src/rtlsdr/src/librtlsdr.c:2222-2228 | an ended run has delivered every success, once and in order |
| `AsyncProtocol.View.PoppedRing` | src/rtlsdr/src/librtlsdr.c:2154-2166 | while running, a transfer taken from the list is the only one neither queued nor with libusb |
| `AsyncProtocol.View.Productive` | src/rtlsdr/src/librtlsdr.c:2202-2212 | a pass that did not wait, or saw a transfer called back, is one of the passes left |
| `AsyncTransfers.Device.LibusbCallback` | src/rtlsdr/src/librtlsdr.c:1953-1999 | the callback appends to the intrusive list and sets status, length, error count and cancel request exactly |
| `AsyncTransfers.Device.CancelAsync` | src/rtlsdr/src/librtlsdr.c:2231-2255 | a running read is asked to cancel, a second request changes nothing, an inactive device refuses |
| `AsyncTransfers.Device.Pop` | src/rtlsdr/src/librtlsdr.c:2155-2176 | the list head is taken in order and delivered if it succeeded |
| `AsyncTransfers.Device.Resubmit` | src/rtlsdr/src/librtlsdr.c:2178-2188 | accepted, the transfer is with libusb again; refused, it is marked failed and a cancel is requested; the code is the one returned |
| `AsyncTransfers.Device.Drain` | src/rtlsdr/src/librtlsdr.c:2154-2189 | the list is emptied, with callbacks letting other threads in; while the run goes on every transfer is resubmitted; a loss is noticed, and a cancel from the callback stops the run |
| `AsyncTransfers.Device.FinishPass` | src/rtlsdr/src/librtlsdr.c:2191-2212 | cancelling and the end check together |
| `AsyncTransfers.Device.Pass` | src/rtlsdr/src/librtlsdr.c:2137-2222 | one pass keeps the protocol and loses no transfer; in a cancelled run it takes a bound of 2 pending + 1 down whenever it does not wait, or its wait succeeds and libusb calls back for something in it, and ends the run once all are called back; a failed wait breaks the loop |
| `AsyncTransfers.Device.SubmitAll` | src/rtlsdr/src/librtlsdr.c:2111-2132 | exactly the transfers before the first refusal are handed to libusb, and the last code is returned; a refusal requests a cancel, and undisturbed the run goes on |
| `AsyncTransfers.Device.FreeAsyncBuffers` | src/rtlsdr/src/librtlsdr.c:2042-2062 | freeing leaves a valid device exactly when libusb holds no transfer and none is queued |
| `AsyncTransfers.CancelledRunEnds` | src/rtlsdr/src/librtlsdr.c:2137-2222 | each useful pass of a cancelled run leaves fewer, and 2n + 1 of them end it: over every chain of passes |
| `AsyncTransfers.AskedRunEnds` | src/rtlsdr/src/librtlsdr.c:2137-2255 | in terms of what goes on around the run alone: a cancel asked for in two successive waits and more than 2n waits since that bring everything back |
| `AsyncTransfers.Device.RunPasses` | src/rtlsdr/src/librtlsdr.c:2137-2222 | the states between the passes form a chain up to the last pass, the end of the run or a wait that failed with the code returned; more than 2n useful passes end a cancelled run, whatever asked for the cancel |
| `AsyncTransfers.Device.ReadAsync` | src/rtlsdr/src/librtlsdr.c:2064-2229 | a started run returns the last code of libusb; its trace is complete up to the present state unless a wait failed; once cancelled in any way more than 2n useful passes end it, and so do more than 2n full waits after a cancel was asked for, with nothing pending and all successes delivered; undisturbed it goes on; a failed wait ends it with a valid device exactly when nothing is outstanding; a failed allocation leaves it marked running |
| `SuperframeAssembly.SuperFrame.CircshiftBuff` | src/sdrdab/DataDecoder/superframe.cc:205-219 | the next CIFs always fit; the run is dropped only when it could not be kept |
| `SuperframeAssembly.SuperFrame.SuperFrameHandle` | src/sdrdab/DataDecoder/superframe.cc:62-82 | decoded where the first synchronised CIF has four more behind it; one with fewer stays at the head |
| `SuperframeAssembly.SuperFrame.Decode` | src/sdrdab/DataDecoder/superframe.cc:84-202 | corrected in place; the head then stands five CIFs further, four if every checksum failed, or the buffer is empty if it was no superframe or nothing follows it |
| `SuperframeAssembly.SuperFrame.OnCifs` | src/sdrdab/data_decoder.cc:389-398 | for every outcome the buffer stays one contiguous in-order run of the CIF stream, and superframes are taken in order |
| `SuperframeDecoder.OctetKeepsNumber` | src/sdrdab/DataDecoder/superframe.cc:96-97 | the two forms of a byte write the same number, bits in the same order |
| `SuperframeDecoder.UnitsFillSuperframe` | src/sdrdab/DataDecoder/superframe.cc:103-124 | the access units are 120 ms of audio at the core sampling rate |
| `SuperframeDecoder.FirstBehindAddresses` | src/sdrdab/DataDecoder/superframe.cc:103-124 | the first access unit starts right behind the addresses of the others |
| `SuperframeDecoder.ReadStarts` | src/sdrdab/DataDecoder/superframe.cc:96-143 | the access unit addresses read from the header, and whether they are in order |
| `SuperframeDecoder.CheckUnits` | src/sdrdab/DataDecoder/superframe.cc:145-187 | exactly the access units with their own checksum are handed on, the others counted |
| `SuperframeDecoder.Evaluate` | src/sdrdab/DataDecoder/superframe.cc:62-187 | headers, correction and access units on the bytes of the buffer |
| `SuperframeDecoder.OnReceived` | src/sdrdab/DataDecoder/superframe.cc:62-202 | the whole step on the buffer, from the bytes received to access units |
| `SuperframeDecoder.SuperframeRestored` | src/sdrdab/DataDecoder/superframe.cc:84-88 | a superframe met by errors within reach in every column becomes what was sent |
| `SuperframeDecoder.SuperframeDelivered` | src/sdrdab/DataDecoder/superframe.cc:62-202 | and with its own checksum behind every access unit all of them are delivered, and it is passed by five CIFs |
| `Gf2Division.MultipleIffNoRemainder` | src/sdrdab/DataDecoder/superframe.cc:221-222 | a polynomial is a multiple of the generator exactly when the register division leaves zero |
| `Gf2Division.BurstDetected` | src/sdrdab/DataDecoder/superframe.cc:221-222 | no error burst of at most 16 bits turns one multiple into another |
| `Gf2Division.OddErrorsDetected` | src/sdrdab/DataDecoder/superframe.cc:221-222 | and for a generator that x + 1 divides, no odd number of wrong bits does |
| `Firecode.GeneratorFactors` | src/sdrdab/DataDecoder/superframe.cc:221-222 | the fire code generator is (x^11 + 1)(x^5 + x^3 + x^2 + x + 1) |
| `Firecode.GeneratorEven` | src/sdrdab/DataDecoder/superframe.cc:221-222 | so x + 1 divides it |
| `Checksums.CrcPolynomialEven` | src/sdrdab/DataDecoder/superframe.cc:282-300 | the CRC polynomial is x^16 + x^12 + x^5 + 1, which x + 1 divides |
| `Firecode.FirecodeTable.constructor` | src/sdrdab/DataDecoder/superframe.cc:223-252 | each table entry is the byte times x^8 reduced by the generator |
| `Firecode.ByteUpdate` | src/sdrdab/DataDecoder/superframe.cc:259-262 | a look-up per byte is multiplication by x^8 plus the new byte, modulo the generator |
| `Firecode.FirecodeTable.FirecodeCheck` | src/sdrdab/DataDecoder/superframe.cc:255-273 | accepts exactly when bytes 2 to 10 followed by bytes 0 and 1 are a multiple of the generator |
| `Checksums.CrcRegisterIsRemainder` | src/sdrdab/DataDecoder/superframe.cc:282-300 | the register computes the preset remainder of the message times x^16 |
| `Checksums.CrcCleared` | src/sdrdab/DataDecoder/superframe.cc:289-300 | after the message only its own check word clears the register |
| `Checksums.CRC16` | src/sdrdab/DataDecoder/superframe.cc:282-310 | true exactly when the last two bytes are the complement of the all-ones-preset remainder; the buffer ends as it was |
| `BitFields.BinToDec` | src/sdrdab/DataDecoder/superframe.cc:275-280 | the number written by the given bits, wherever they lie in their bytes |
| `RateMatching.OnesOfVector` | src/sdrdab/DataDecoder/data_decoder_data.h:35-60 | puncturing vector k keeps k + 8 of its 32 places |
| `RateMatching.VectorsNested` | src/sdrdab/DataDecoder/data_decoder_data.h:35-60 | each vector is the one before it with one place more, the bytes taking turns in the order 0, 2, 1, 3 |
| `RateMatching.ShiftedBit` | src/sdrdab/DataDecoder/depuncturer.cc:349-358 | the shift expression reads the vector from the highest bit down |
| `DePuncturer.PuncturedFilled` | src/sdrdab/DataDecoder/depuncturer.cc:347-362 | puncturing what was filled gives back the samples in order |
| `DePuncturer.FilledPunctured` | src/sdrdab/DataDecoder/depuncturer.cc:347-362 | filling what was punctured restores every kept place and puts zero elsewhere |
| `DePuncturer.DePuncturer.DePuncturerFICInit` | src/sdrdab/DataDecoder/depuncturer.cc:51-76 | the FIC blocks are 21 or 29 times 128 places of vector 16, three times 128 of vector 15 and the tail; they take 2304 or 3072 samples and fill 4 * (768 + 6) or 4 * (1024 + 6) places |
| `DePuncturer.DePuncturer.DePuncturerMSCInit` | src/sdrdab/DataDecoder/depuncturer.cc:212-314 | vectors, block lengths and their order for every equal-protection profile; they take 64 samples per capacity unit and fill 4 * (24 * kbps + 6) places |
| `DePuncturer.DePuncturer.DePuncturerProcess` | src/sdrdab/DataDecoder/depuncturer.cc:316-366 | kept places take the samples in order, punctured places become zero, and nothing else changes |
| `FractionalPll.CalculateDivider` | src/rtlsdr/src/tuner_r82xx.c:455-467 | a divider is found exactly from 27657 to 1769999 kHz, and it is 2^(div_num + 1) |
| `FractionalPll.BoundedIffFits` | src/rtlsdr/src/tuner_r82xx.c:487-489 | with the multiplier kept in eight bits and its product in 32, the fraction is at most twice the reference exactly when no bits are lost |
| `FractionalPll.BoundedIffTunable` | src/rtlsdr/src/tuner_r82xx.c:438-489 | for references from 8.39 to 1073 MHz that is exactly for frequencies below 1769.9995 MHz |
| `FractionalPll.FractionUnbounded` | src/rtlsdr/src/tuner_r82xx.c:487-493 | 28.8 MHz and 1850 MHz: the multiplier is cut to 15, passes the check, and the fraction is 235936000 |
| `FractionalPll.SafeIffSmallReference` | src/rtlsdr/src/tuner_r82xx.c:513-522 | the loop never divides by an n_sdm shifted to zero, whatever the fraction, exactly for references below 32768 kHz |
| `FractionalPll.LargeReferenceIsUnsafe` | src/rtlsdr/src/tuner_r82xx.c:513-522 | a fraction of 2 reaches the division by zero for every larger reference |
| `FractionalPll.DivisionReached` | src/rtlsdr/src/tuner_r82xx.c:438-522 | 983.041 MHz and 32.768 MHz: integer part 30, fraction 2, division by zero |
| `FractionalPll.SdmWord` | src/rtlsdr/src/tuner_r82xx.c:513-522 | the loop ends; sdm fits 16 bits and accounts for every fraction up to 16 kHz and what exceeds twice the reference |
| `FractionalPll.PllWords` | src/rtlsdr/src/tuner_r82xx.c:438-522 | the words for a frequency and when there are none; below 1770 MHz, with a reference between 8.39 and 32.7675 MHz, they stand for an oscillator frequency at most 16 kHz above and 18 kHz below the wanted one |
| `FractionalPll.IntegerReadBack` | src/rtlsdr/src/tuner_r82xx.c:496-499 | the register fields stand for the integer part exactly when it is at least 13 |

## Left out

- The `nextBits_` table of the Viterbi decoder is modelled as the binary digits it lists.
- BlockIsSent: says nothing of blocks whose last data bit is a one. Past the end of a block the source reads its last code word again and
  again (src/sdrdab/DataDecoder/deviterbi.cc:78-79); after a one that is no code word of zeros. For such blocks `OutputIsSent` covers
  all but the last 24 bits.
- Floating-point rounding and the SSE path: metrics are integers, demapped values are reals, padding is computed in integers.
- Reed-Solomon words beyond the correction radius: only that a zero return leaves the word alone and what was applied otherwise.
- Access units of a single byte, whose checksum would begin before them: they count as failed.
- Repeated erasures: the correction result asks for distinct flagged locations inside the word.
- Unequal error protection tables, energy dispersal, FIG parsing, the ADTS headers put before access units and the audio path.
- Sync, Conf, SetNewWritePointer, CalculateNewBufferPosition, the end of Play and positions carried across Reconfigure: every run starts from a clean state.
- The end-of-file path of the file feeder, which signals a block without writing one, and the resampler behind it.
- Races on the memory of a worker while it runs: its effect is atomic at its report; the FFT and remodulation done in place count as identity on the sample stream.
- The Windows branch of the read loop, and a second reader entering while the first releases the lock to record a lost device (src/rtlsdr/src/librtlsdr.c:2214-2221).
- Signal processing: FFT, NULL and phase reference detection, drift estimation, SNR, register writes, the fine-tune adjustment of the divider number and the lock check.
