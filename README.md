# Digital Signal Encoder — verified model of the encoding engine

The Digital Signal Encoder turns a string of binary digits into the traces of
six line-encoding schemes: NRZ-L, NRZ-I, Bipolar AMI, Pseudoternary,
Manchester and Differential Manchester. Before any scheme runs, the entry is
trimmed of surrounding whitespace. It is rejected when it is empty or when it
holds a character other than `0` or `1`. This project models that engine and
the input check in Dafny and proves the laws each scheme promises.

Layout (one Dafny module per component):

- `signals.dfy`, module `Signals`: the initial level (`High`/`Low`), the two
  trace shapes (`Steps` for level traces, `Transitions` for time/level traces),
  the level seeds, the held trailing sample, and a character count.
- `level_encoders.dfy`, module `LevelEncoders`: NRZ-L, NRZ-I, Bipolar AMI and
  Pseudoternary.
- `transition_encoders.dfy`, module `TransitionEncoders`: Manchester and
  Differential Manchester, with their shared time axis.
- `validation.dfy`, module `Validation`: trimming and the empty / non-binary
  rejections.
- `encoder.dfy`, module `Encoder`: the request path. It checks the entry once,
  then runs all six schemes on the checked bits.

Each stateful scheme is defined twice:

- A recursive function over the bits, carrying the running level or polarity
  (`NrziRun`, `AmiRun`, `PseudoRun`, `DiffRun`). This is the specification.
- A method whose `for` loop follows the loop of the Python program
  `digital_signal_encoder.py` step by step
  (`EncodeNrzI`, `EncodeBipolarAmi`, …). Each method is proved equal to its
  function.

The laws of each scheme are proved about the function, as lemmas.

Modelling choices:

- The initial level is an explicit `Level` parameter. In
  `digital_signal_encoder.py` it is read from a drop-down that offers only
  `High` and `Low`.
- Times are exact `real`s (`i`, `i + 0.5`, `i + 1`).
- Bits are characters. Each encoder tests only for the character it reacts
  to, as the code does: `'1'` for NRZ-L, NRZ-I, AMI and Manchester, `'0'` for
  Pseudoternary and Differential Manchester. So the encoders are total on any
  string, and the lemmas hold on any string.
- The level traces need `|data| >= 1`, because they repeat the last sample.
  The transition traces have no precondition, because the code does not index
  the last sample there.

## Model

| member | source | states |
|---|---|---|
| `Signals.PreviousLevel` | digital_signal_encoder.py:168-170 | The signed level before the first bit is +1 exactly for High and -1 for Low |
| `Signals.SeedLevel` | digital_signal_encoder.py:180 | The binary seed of NRZ-I and Differential Manchester is 1 exactly for High, else 0 |
| `Signals.Hold` | digital_signal_encoder.py:175 | The trailing sample is one extra copy of the last sample; the earlier samples are unchanged |
| `LevelEncoders.NrzL` | digital_signal_encoder.py:172-176 | Length is bits + 1; sample i is 1 iff bit i is '1' and 0 otherwise; the last sample repeats sample n-1; there is no initial-level input |
| `LevelEncoders.NrziRun` | digital_signal_encoder.py:184-187 | One sample per bit; from a binary level, every sample is 0 or 1 |
| `LevelEncoders.NrzI` | digital_signal_encoder.py:178-189 | Length is bits + 1; every sample is 0 or 1; the last sample is held |
| `LevelEncoders.NrziRunTransition` | digital_signal_encoder.py:184-187 | Sample i differs from the level before it (the seed for i = 0) iff bit i is '1' |
| `LevelEncoders.NrziRunParity` | digital_signal_encoder.py:184-187 | Sample i is the seed XOR the parity of the number of '1's among bits 0..i |
| `LevelEncoders.NrzILaws` | digital_signal_encoder.py:178-189 | On the full trace: the transition-iff-'1' law and the parity closed form, seeded 1 for High and 0 for Low |
| `LevelEncoders.NrziParityStep` | digital_signal_encoder.py:184-186 | Reading one bit keeps the running level equal to the seed XOR the parity of the '1's read so far |
| `LevelEncoders.EncodeNrzI` | digital_signal_encoder.py:178-189 | The loop's output equals the NRZ-I specification; throughout the loop, `current_level` is the seed XOR the parity of the '1's read so far |
| `LevelEncoders.AmiRun` | digital_signal_encoder.py:197-202 | One sample per bit; its content is fixed by AmiRunAlphabet, AmiRunFirstMark and AmiRunAlternation |
| `LevelEncoders.AmiRunAlphabet` | digital_signal_encoder.py:197-202 | From a polarity of ±1, a sample is 0 iff its bit is not '1', and every sample lies in {-1, 0, 1} |
| `LevelEncoders.BipolarAmi` | digital_signal_encoder.py:191-204 | Length is bits + 1; the last sample is held |
| `LevelEncoders.BipolarAmiAlphabet` | digital_signal_encoder.py:191-204 | On the full trace, sample i is zero exactly when bit i is not '1', and every sample lies in {-1, 0, 1} |
| `LevelEncoders.AmiRunFirstMark` | digital_signal_encoder.py:195-200 | The first '1' carries the starting polarity |
| `LevelEncoders.AmiRunAlternation` | digital_signal_encoder.py:197-200 | Two '1's with no '1' between them get opposite polarity, whatever number of other bits separate them |
| `LevelEncoders.BipolarAmiFirstMark` | digital_signal_encoder.py:191-204 | On the full trace, the first '1' carries minus the previous level, whether or not another '1' follows |
| `LevelEncoders.BipolarAmiAlternation` | digital_signal_encoder.py:191-204 | On the full trace, two '1's with no '1' between them are non-zero and of opposite sign |
| `LevelEncoders.EncodeBipolarAmi` | digital_signal_encoder.py:191-204 | The loop's output equals the Bipolar AMI specification |
| `LevelEncoders.PseudoRun` | digital_signal_encoder.py:212-217 | One sample per bit; its content is fixed by PseudoRunAlphabet and PseudoRunMirrorsAmi |
| `LevelEncoders.PseudoRunAlphabet` | digital_signal_encoder.py:212-217 | From a polarity of ±1, a sample is 0 iff its bit is not '0', and every sample lies in {-1, 0, 1} |
| `LevelEncoders.Pseudoternary` | digital_signal_encoder.py:206-219 | Length is bits + 1; the last sample is held |
| `LevelEncoders.PseudoternaryAlphabet` | digital_signal_encoder.py:206-219 | On the full trace, sample i is zero exactly when bit i is not '0', and every sample lies in {-1, 0, 1} |
| `LevelEncoders.PseudoRunMirrorsAmi` | digital_signal_encoder.py:197-217 | A Pseudoternary run equals an AMI run over the complemented bits, with the same starting polarity |
| `LevelEncoders.PseudoternaryMirrorsAmi` | digital_signal_encoder.py:191-219 | Pseudoternary(d, lvl) equals BipolarAmi(complement of d, lvl) exactly |
| `LevelEncoders.BipolarAmiMirrorsPseudoternary` | digital_signal_encoder.py:191-219 | On binary bits, BipolarAmi(d, lvl) equals Pseudoternary(complement of d, lvl) exactly |
| `LevelEncoders.PseudoternaryFirstMark` | digital_signal_encoder.py:206-219 | The first '0' carries minus the previous level, whether or not another '0' follows |
| `LevelEncoders.PseudoternaryAlternation` | digital_signal_encoder.py:206-219 | Two '0's with no '0' between them are non-zero and of opposite sign |
| `LevelEncoders.EncodePseudoternary` | digital_signal_encoder.py:206-219 | The loop's output equals the Pseudoternary specification |
| `LevelEncoders.LevelExamples` | digital_signal_encoder.py:172-204 | NRZ-L of "1" is [1,1] and of "0" is [0,0]; NRZ-I of "101" from High is [0,0,1,1]; AMI of "11011" from High is [-1,1,0,-1,1,1] |
| `TransitionEncoders.TimeAxis` | digital_signal_encoder.py:234 | There are four time samples per bit |
| `TransitionEncoders.TimeAxisAt` | digital_signal_encoder.py:234 | The times of bit i are i, i + 0.5, i + 0.5, i + 1 |
| `TransitionEncoders.TimeAxisMonotone` | digital_signal_encoder.py:227-235 | The time axis never decreases and stays within [0, n] |
| `TransitionEncoders.ManchesterGroup` | digital_signal_encoder.py:228-233 | A bit's four levels are binary, flat in each half, and change at the centre: low-to-high iff the bit is '1' |
| `TransitionEncoders.ManchesterLevels` | digital_signal_encoder.py:227-235 | There are four levels per bit |
| `TransitionEncoders.Manchester` | digital_signal_encoder.py:221-236 | The trace is a transition trace; time and level sequences both have length 4 × bits; there is no initial-level input |
| `TransitionEncoders.ManchesterLevelsAt` | digital_signal_encoder.py:227-235 | Levels 4i..4i+3 are exactly bit i's group, so they depend only on bit i |
| `TransitionEncoders.ManchesterLevelsAppend` | digital_signal_encoder.py:227-235 | Encoding a concatenation concatenates the encodings, so a bit's levels do not depend on its neighbours |
| `TransitionEncoders.EncodeManchester` | digital_signal_encoder.py:221-236 | The loop's times and levels equal the Manchester specification |
| `TransitionEncoders.Toggle` | digital_signal_encoder.py:249-257 | On a binary level, the inverted level is 1 minus the level |
| `TransitionEncoders.DiffGroup` | digital_signal_encoder.py:247-257 | One bit contributes four levels; their laws are in DiffGroupLaws |
| `TransitionEncoders.DiffGroupLaws` | digital_signal_encoder.py:247-257 | From a binary carried level, one bit's four levels are binary, flat in each half and change at the centre; the first differs from the carried level exactly when the bit is '0' |
| `TransitionEncoders.DiffRun` | digital_signal_encoder.py:246-259 | There are four levels per bit |
| `TransitionEncoders.DifferentialManchester` | digital_signal_encoder.py:238-260 | The trace is a transition trace of length 4 × bits, with exactly Manchester's time axis |
| `TransitionEncoders.DiffRunLaws` | digital_signal_encoder.py:246-259 | From a binary level, each bit's levels are binary, with s[4i]=s[4i+1], s[4i+2]=s[4i+3] and s[4i+1]≠s[4i+2]; s[4i] differs from the carried level (the seed for i = 0, else s[4i-1]) iff bit i is '0' |
| `TransitionEncoders.DifferentialManchesterLaws` | digital_signal_encoder.py:243-259 | The same centre and start laws on the full trace, seeded 1 for High and 0 for Low |
| `TransitionEncoders.EncodeDifferentialManchester` | digital_signal_encoder.py:238-260 | The loop's times and levels equal the Differential Manchester specification |
| `Validation.TrimStart` | digital_signal_encoder.py:283 | Drops exactly the leading whitespace: the result is a suffix, everything dropped is whitespace, and the result does not start with whitespace |
| `Validation.TrimEnd` | digital_signal_encoder.py:283 | Drops exactly the trailing whitespace: the result is a prefix, everything dropped is whitespace, and the result does not end with whitespace |
| `Validation.Trim` | digital_signal_encoder.py:283 | The trimmed entry is no longer than the raw one, and neither starts nor ends with whitespace |
| `Validation.TrimIsSlice` | digital_signal_encoder.py:283 | The trimmed entry is a contiguous slice of the raw entry, and only whitespace lies outside it |
| `Validation.IsBinary` | digital_signal_encoder.py:294 | Checked one character at a time, a string is binary exactly when every character is '0' or '1' |
| `Validation.Validate` | digital_signal_encoder.py:283-299 | EmptyInput iff the trimmed entry is empty; InvalidSymbol iff it is non-empty and not all '0'/'1'; otherwise Ok with the trimmed entry unchanged |
| `Validation.ValidateAcceptsBits` | digital_signal_encoder.py:283-299 | A non-empty binary string passes unchanged |
| `Validation.ValidateRejectsForeign` | digital_signal_encoder.py:293-299 | A single character anywhere that is neither whitespace nor a bit rejects the whole entry with InvalidSymbol |
| `Validation.ValidateRejectsBlank` | digital_signal_encoder.py:285-291 | An entry of whitespace only is rejected with EmptyInput |
| `Encoder.AllSignals` | digital_signal_encoder.py:124-131 | Six plots in display order: four level traces of length bits + 1, then two transition traces of length 4 × bits |
| `Encoder.GenerateAllSignals` | digital_signal_encoder.py:282-309 | A rejected entry yields the check's error and no trace; otherwise all six encoders run on the trimmed, binary, non-empty entry |

## Left out

- The Tk window, its widgets, styles and status messages; the close handler;
  and `main`. These are user-interface plumbing with no encoding logic.
- Plotting and canvas drawing (`plot_signal`, figure layout). These are calls
  into the plotting library.
- numpy arrays. The model uses plain sequences.
- Reading the initial level from the drop-down. It is a `Level` parameter.
- Part of Python's `str.strip()` whitespace set. `Validation.IsWhitespace`
  covers six characters: space, tab, line feed, carriage return, vertical tab
  (U+000B) and form feed (U+000C). Python also strips the separators
  U+001C-U+001F, U+0085, U+00A0 and the other Unicode spaces and separators.
  So the model rejects an entry such as U+001C followed by `1` with
  `InvalidSymbol`, where `digital_signal_encoder.py` accepts it as `1`.
- `LevelEncoders.Complement` and `LevelEncoders.ComplementInvolution` are
  helpers for stating the AMI/Pseudoternary mirror in both directions. They
  model no code of their own.
- Determinism of the encoders needs no lemma, because Dafny functions are
  deterministic by construction.
