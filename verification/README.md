# Scan-buffer decoder of MultRangerWIconExpress

This project models `DataProcessor.accessData`. That is the routine that turns one
scan buffer from a SICK Ranger camera, delivered through the IconExpress
interface, into a textual report.

A buffer has a format name, a height (the number of scans) and a list of
**components**. Each component is a named group of **subcomponents**. Each
subcomponent has a name, a declared value type (`BYTE`, `WORD`, `DWORD`, `INT`,
`FLOAT`, `RGB2`), a width, and one row of samples per scan.

The decoder works as follows:

- An `IMAGE` buffer produces a single notice line and nothing else.
- Otherwise the decoder visits every subcomponent, component by component. Each
  subcomponent produces one report line.
- A subcomponent named `Mark` produces the scan counter and two status flags. Both
  come from the first two 32-bit words of scan 0: the overtrig count (bits 16..23)
  and the enable bit (bit 30).
- Every other subcomponent produces the mean of its samples. A sample of 0 means
  "missing data" and counts for nothing.
- An `RGB2` sample is a packed `[B G R pad]` word. It contributes the sum of its
  three colour bytes and counts as three values.

Modules:

- `Wrappers`: `Option` and `Result`.
- `IconBuffer`: the buffer, component and subcomponent records and value-type
  classification. It also defines `Units`, the component-then-subcomponent visiting
  order.
- `BitFields`: C# `int`/`uint` reinterpretation, the Mark word's bit fields, and the
  RGB2 colour bytes.
- `SampleStats`: the zero-skipping tally as a functional specification (`SeqTally`
  over the row-major samples), the nested scan/column loop that computes it, and
  the mean.
- `DataProcessor`: the decoding of one subcomponent (`DecodeUnit`) and the whole
  report (`Decode`), both as functions. It also has the imperative
  `AccessData`/`DecodeSubComponents`/`DecodeSubComponent` loops, proved equal to
  those functions.
- `DecoderProperties` and `DecoderExamples`: properties of the report and worked
  examples.

Report lines are records (`Entry`), not padded strings. `Notice` is the image
message. `MarkLine` holds the counter, overtrig and enable values. `MeanLine` holds
the tally (sum and count), from which `Mean` derives the mean. `FloatLine` is a
`FLOAT` subcomponent.

The value type is a string, and the decoder switches on it with six case labels
and no default branch (`DataProcessor.cs:52-163`). A subcomponent whose value-type
name is none of the six matches no case: its `sum` and `count` stay 0 and its mean
is 0/0. The model keeps such names as `ValueType.Other(name)` and gives them an
empty tally, whose `Mean` is `None`.

## Model

| member | source | states |
|---|---|---|
| DataProcessor.Decode | MultRangerWIconExpress/MultRangerWIconExpress/DataProcessor.cs:21-25 | a buffer whose format name is `IMAGE` yields exactly one line, the image notice, whatever components it has |
| DataProcessor.DecodeReport | MultRangerWIconExpress/MultRangerWIconExpress/DataProcessor.cs:28-43 | for a non-image buffer, a successful report has exactly one line per subcomponent of the buffer and no notice line; the report fails if and only if some Mark subcomponent cannot be read |
| DataProcessor.DecodeFailsIffUnreadableMark | MultRangerWIconExpress/MultRangerWIconExpress/DataProcessor.cs:35-40 | decoding a sequence of subcomponents fails exactly when one of them is a Mark with no scan or narrower than two words |
| DataProcessor.FailureHasUnreadableMark | MultRangerWIconExpress/MultRangerWIconExpress/DataProcessor.cs:35-40 | a failed non-image report comes from a Mark subcomponent of the buffer that has no scan or is narrower than two words, and its error carries that component's and subcomponent's names |
| DataProcessor.UnreadableMarkFails | MultRangerWIconExpress/MultRangerWIconExpress/DataProcessor.cs:35-40 | a non-image buffer holding an unreadable Mark subcomponent cannot be reported |
| DataProcessor.MarkReadable | MultRangerWIconExpress/MultRangerWIconExpress/DataProcessor.cs:37-39 | the Mark reads succeed exactly when the buffer has a scan 0 and the Mark is at least two words wide; a width of 0 or 1 makes the read at line 38 or 39 throw |
| DataProcessor.DecodeUnit | MultRangerWIconExpress/MultRangerWIconExpress/DataProcessor.cs:35-167 | one subcomponent's line: the Mark branch is taken exactly when the name is `Mark`; it fails exactly when that Mark is unreadable, with an error naming it; a line carries the component and subcomponent names and is never a notice |
| DataProcessor.DecodeUnits | MultRangerWIconExpress/MultRangerWIconExpress/DataProcessor.cs:28-43 | decoding the visited subcomponents one after the other, stopping at the first error, yields on success exactly one line per subcomponent |
| DataProcessor.DecodeUnitsSucceedsIff | MultRangerWIconExpress/MultRangerWIconExpress/DataProcessor.cs:28-43 | the subcomponent sequence decodes if and only if every one of its subcomponents decodes |
| DataProcessor.DecodeUnitsEntries | MultRangerWIconExpress/MultRangerWIconExpress/DataProcessor.cs:28-43 | line `k` of a successful decode is the line of subcomponent `k`, so lines appear in visiting order |
| DataProcessor.DecodeUnitsFirstFailure | MultRangerWIconExpress/MultRangerWIconExpress/DataProcessor.cs:28-40 | a failed decode reports the error of the first subcomponent that fails, and every earlier one succeeds |
| DataProcessor.DecodeUnitsAppend | MultRangerWIconExpress/MultRangerWIconExpress/DataProcessor.cs:28-31 | decoding two sequences in a row is decoding the first and, if it succeeds, appending the lines of the second |
| DataProcessor.DecodeSubComponent | MultRangerWIconExpress/MultRangerWIconExpress/DataProcessor.cs:35-167 | the imperative per-subcomponent step (Mark read, type switch, scan/column loops) returns the same line or error as `DecodeUnit` |
| DataProcessor.DecodeSubComponents | MultRangerWIconExpress/MultRangerWIconExpress/DataProcessor.cs:31-169 | the inner loop over one component's subcomponents returns the decoding of that component's tagged subcomponents, stopping at the first failure |
| DataProcessor.SubComponentStep | MultRangerWIconExpress/MultRangerWIconExpress/DataProcessor.cs:31 | one step of the inner loop: a failing subcomponent makes the whole component fail with its error; a succeeding one appends its line |
| DataProcessor.ComponentStep | MultRangerWIconExpress/MultRangerWIconExpress/DataProcessor.cs:28 | one step of the outer loop: the decoding after component `i` is the decoding before it followed by component `i`'s lines; an early failure is the final result |
| DataProcessor.AccessData | MultRangerWIconExpress/MultRangerWIconExpress/DataProcessor.cs:15-171 | the imperative decoder (image check, component loop, subcomponent loop) returns the same report or error as `Decode` |
| DecoderProperties.EntriesInVisitOrder | MultRangerWIconExpress/MultRangerWIconExpress/DataProcessor.cs:28-31 | in a successful report, subcomponent `j` of component `i` owns line `Offset(i) + j`, which carries that component's and subcomponent's names |
| DecoderProperties.UnitEntriesInOrder | MultRangerWIconExpress/MultRangerWIconExpress/DataProcessor.cs:28-31 | the same placement, stated for the decoding of the visited subcomponents |
| DecoderProperties.EntryAt | MultRangerWIconExpress/MultRangerWIconExpress/DataProcessor.cs:41-42 | line `p` of a successful decode is a subcomponent line with the names of subcomponent `p` |
| DecoderProperties.MarkEntryFields | MultRangerWIconExpress/MultRangerWIconExpress/DataProcessor.cs:37-40 | a readable Mark line holds word 0 of scan 0 as a signed 32-bit counter, bits 16..23 of word 1 as overtrig (0..255), and bit 30 of word 1 as enable (0 or 1) |
| DecoderProperties.MarkReadsOnlyRowZero | MultRangerWIconExpress/MultRangerWIconExpress/DataProcessor.cs:33-40 | two Mark subcomponents that agree on the first two words of scan 0 give the same line, whatever their other scans, widths or heights |
| DecoderProperties.ScalarEntry | MultRangerWIconExpress/MultRangerWIconExpress/DataProcessor.cs:55-124 | a BYTE/WORD/DWORD/INT line counts the nonzero samples of the first `width` columns of every scan and sums exactly those samples; the count is at most scans×width |
| DecoderProperties.ColourEntry | MultRangerWIconExpress/MultRangerWIconExpress/DataProcessor.cs:145-162 | an RGB2 line counts three per nonzero sample (a multiple of 3, at most 3×scans×width) and sums the three colour bytes of each nonzero sample; the sum lies between 0 and 255×count |
| DecoderProperties.NoDataEntry | MultRangerWIconExpress/MultRangerWIconExpress/DataProcessor.cs:47-53 | a non-Mark, non-FLOAT line has no mean exactly when every sample read is zero or the type is unrecognised; an empty grid never has a mean |
| DecoderProperties.ScalarMeanBetween | MultRangerWIconExpress/MultRangerWIconExpress/DataProcessor.cs:55-124 | when all nonzero samples lie in `[lo, hi]` and one is nonzero, the scalar mean exists and lies in `[lo, hi]` |
| DecoderProperties.ColourMeanBetween | MultRangerWIconExpress/MultRangerWIconExpress/DataProcessor.cs:145-165 | when the blue, green and red bytes of every counted RGB2 word lie in `[lo, hi]` and one word is nonzero, the mean exists and lies in `[lo, hi]`: between the smallest and largest counted colour byte |
| DecoderProperties.ColourMeanIsByte | MultRangerWIconExpress/MultRangerWIconExpress/DataProcessor.cs:145-165 | an RGB2 grid with a nonzero word has a mean between 0 and 255 |
| DecoderProperties.TypeBounds | MultRangerWIconExpress/MultRangerWIconExpress/DataProcessor.cs:56-110 | the returned pair is the smallest and the largest nonzero value of a scalar type (byte, ushort, uint, int): both are nonzero values of the type, and every nonzero value of the type lies between them |
| DecoderProperties.InRangeMean | MultRangerWIconExpress/MultRangerWIconExpress/DataProcessor.cs:55-124 | a scalar grid of in-range samples with a nonzero sample has a mean within its type's range |
| IconBuffer.Classify | MultRangerWIconExpress/MultRangerWIconExpress/DataProcessor.cs:52-163 | the switch on the declared value-type name loses nothing (the name is recovered from the result), and a name matches no case exactly when it is not one of the six case labels |
| IconBuffer.ClassifyTypeName | MultRangerWIconExpress/MultRangerWIconExpress/DataProcessor.cs:52-55 | classifying a value type's name gives that value type back |
| IconBuffer.Units | MultRangerWIconExpress/MultRangerWIconExpress/DataProcessor.cs:28-31 | the visiting order has one element per subcomponent of the buffer |
| IconBuffer.UnitsMembers | MultRangerWIconExpress/MultRangerWIconExpress/DataProcessor.cs:28-31 | every visited subcomponent belongs to a component of the buffer and is tagged with that component's name |
| IconBuffer.UnitsOrder | MultRangerWIconExpress/MultRangerWIconExpress/DataProcessor.cs:28-31 | subcomponent `j` of component `i` is visited at position `Offset(i) + j`: component by component, in subcomponent order, none skipped |
| IconBuffer.UnitsPrefix | MultRangerWIconExpress/MultRangerWIconExpress/DataProcessor.cs:28 | visiting the first `i` components visits a prefix of the whole order |
| IconBuffer.UnitsSnoc | MultRangerWIconExpress/MultRangerWIconExpress/DataProcessor.cs:28-31 | visiting one more component appends exactly its subcomponents, tagged with its name |
| IconBuffer.TagSplit | MultRangerWIconExpress/MultRangerWIconExpress/DataProcessor.cs:31 | a component's tagged subcomponents split at any subcomponent into the tagged prefix and the tagged rest |
| IconBuffer.UnitsShaped | MultRangerWIconExpress/MultRangerWIconExpress/DataProcessor.cs:57 | in a well-shaped buffer every visited subcomponent has one row per scan of at least `width` samples |
| BitFields.AsInt32 | MultRangerWIconExpress/MultRangerWIconExpress/DataProcessor.cs:37-38 | reading a 32-bit word as a C# `int` gives a value in the int32 range with the same bit pattern, unchanged when it is already in range |
| BitFields.Word32 | MultRangerWIconExpress/MultRangerWIconExpress/DataProcessor.cs:39-40 | the 32-bit pattern of an integer is in `[0, 2^32)` and congruent to it modulo 2^32 |
| BitFields.ShiftedByte | MultRangerWIconExpress/MultRangerWIconExpress/DataProcessor.cs:154-156 | `(byte)(v >> k)`, a floor division by 2^k followed by the byte cast, always yields a byte |
| BitFields.Overtrig | MultRangerWIconExpress/MultRangerWIconExpress/DataProcessor.cs:39 | `(byte)(w >> 16)` is a byte |
| BitFields.Enable | MultRangerWIconExpress/MultRangerWIconExpress/DataProcessor.cs:40 | `(byte)((w >> 30) & 1)` is 0 or 1 |
| BitFields.MarkFieldsArePatternBits | MultRangerWIconExpress/MultRangerWIconExpress/DataProcessor.cs:39-40 | the arithmetic shifts of a possibly negative `int` give bits 16..23 and bit 30 of its 32-bit pattern |
| BitFields.PackedOvertrig | MultRangerWIconExpress/MultRangerWIconExpress/DataProcessor.cs:39 | packing an overtrig byte into bits 16..23 reads it back through the shift |
| BitFields.PackedEnable | MultRangerWIconExpress/MultRangerWIconExpress/DataProcessor.cs:40 | packing an enable bit into bit 30 reads it back through the shift |
| BitFields.MarkFlagsRoundTrip | MultRangerWIconExpress/MultRangerWIconExpress/DataProcessor.cs:38-40 | any overtrig byte and enable bit packed into a flags word, with any other bits, are recovered by the source's shifts and casts |
| BitFields.Blue | MultRangerWIconExpress/MultRangerWIconExpress/DataProcessor.cs:154 | the blue byte is in `[0, 256)` |
| BitFields.Green | MultRangerWIconExpress/MultRangerWIconExpress/DataProcessor.cs:155 | the green byte is in `[0, 256)` |
| BitFields.Red | MultRangerWIconExpress/MultRangerWIconExpress/DataProcessor.cs:156 | the red byte is in `[0, 256)` |
| BitFields.ColourSum | MultRangerWIconExpress/MultRangerWIconExpress/DataProcessor.cs:157 | the sum of the three colour bytes lies in `[0, 765]` |
| BitFields.RgbRoundTrip | MultRangerWIconExpress/MultRangerWIconExpress/DataProcessor.cs:144-157 | a word packed as `[B G R pad]` yields back its blue, green and red bytes, whatever the pad byte |
| SampleStats.Contribution | MultRangerWIconExpress/MultRangerWIconExpress/DataProcessor.cs:63-66 | a sample counts for nothing exactly when it is 0; a nonzero scalar adds itself and counts one; a nonzero RGB2 word adds its colour bytes and counts three |
| SampleStats.SeqTally | MultRangerWIconExpress/MultRangerWIconExpress/DataProcessor.cs:62-67 | the tally of a sample sequence is the left fold of `Contribution` over the samples in reading order, starting from sum 0 and count 0; `ScalarTallyMeaning`, `ColourCountMeaning` and `ColourSumMeaning` give its meaning |
| SampleStats.LowByteIgnored | MultRangerWIconExpress/MultRangerWIconExpress/DataProcessor.cs:152-158 | an RGB2 word that is nonzero only in its low byte adds nothing to the sum, yet counts three |
| SampleStats.Flat | MultRangerWIconExpress/MultRangerWIconExpress/DataProcessor.cs:58-62 | the samples read by the scan/column loops number scans×width |
| SampleStats.GridTally | MultRangerWIconExpress/MultRangerWIconExpress/DataProcessor.cs:58-69 | the tally of a subcomponent is the tally of its first `width` samples of each of its scans, read scan by scan (the same loops at lines 147-161 for RGB2); `Accumulate` computes it and `GridCountZeroIffAllZero` and the bounds lemmas describe it |
| SampleStats.FlatIndex | MultRangerWIconExpress/MultRangerWIconExpress/DataProcessor.cs:58-62 | the sample at scan `i`, column `j` is read at position `i·width + j` of the reading order |
| SampleStats.FlatMembers | MultRangerWIconExpress/MultRangerWIconExpress/DataProcessor.cs:58-62 | every sample read lies in the first `width` columns of some scan |
| SampleStats.TallySnoc | MultRangerWIconExpress/MultRangerWIconExpress/DataProcessor.cs:62-67 | reading one more sample adds its contribution to the tally |
| SampleStats.ScalarTallyMeaning | MultRangerWIconExpress/MultRangerWIconExpress/DataProcessor.cs:58-69 | the scalar count is the number of nonzero samples and the sum is the sum of all samples |
| SampleStats.ColourCountMeaning | MultRangerWIconExpress/MultRangerWIconExpress/DataProcessor.cs:152-158 | the RGB2 count is three times the number of nonzero samples |
| SampleStats.ColourSumMeaning | MultRangerWIconExpress/MultRangerWIconExpress/DataProcessor.cs:152-157 | the RGB2 sum is the total of the colour bytes of all samples (zero samples have none) |
| SampleStats.CountZeroIffAllZero | MultRangerWIconExpress/MultRangerWIconExpress/DataProcessor.cs:63-66 | the count is 0 if and only if every sample is 0 |
| SampleStats.CountBound | MultRangerWIconExpress/MultRangerWIconExpress/DataProcessor.cs:66 | a scalar count is at most the number of samples; an RGB2 count is a multiple of 3, at most three times the number of samples |
| SampleStats.ScalarSumBounds | MultRangerWIconExpress/MultRangerWIconExpress/DataProcessor.cs:112-123 | if every nonzero sample lies in `[lo, hi]` then count·lo ≤ sum ≤ count·hi |
| SampleStats.ColourSumBounds | MultRangerWIconExpress/MultRangerWIconExpress/DataProcessor.cs:152-158 | the RGB2 sum lies between 0 and 255×count |
| SampleStats.ColourSumBetween | MultRangerWIconExpress/MultRangerWIconExpress/DataProcessor.cs:152-158 | if the three colour bytes of every counted RGB2 word lie in `[lo, hi]` then count·lo ≤ sum ≤ count·hi |
| SampleStats.Mean | MultRangerWIconExpress/MultRangerWIconExpress/DataProcessor.cs:165 | there is no mean exactly when the count is 0; otherwise mean×count = sum |
| SampleStats.MeanBetween | MultRangerWIconExpress/MultRangerWIconExpress/DataProcessor.cs:165 | a nonzero count with count·lo ≤ sum ≤ count·hi gives a mean in `[lo, hi]` |
| SampleStats.GridCountZeroIffAllZero | MultRangerWIconExpress/MultRangerWIconExpress/DataProcessor.cs:58-69 | a grid's count is 0 if and only if every sample in its first `width` columns is 0 |
| SampleStats.GridScalarBounds | MultRangerWIconExpress/MultRangerWIconExpress/DataProcessor.cs:58-69 | bounds on a grid's nonzero samples bound its sum by count·lo and count·hi |
| SampleStats.GridColourBounds | MultRangerWIconExpress/MultRangerWIconExpress/DataProcessor.cs:145-162 | bounds on the colour bytes of a grid's nonzero RGB2 words bound its sum by count·lo and count·hi |
| SampleStats.Accumulate | MultRangerWIconExpress/MultRangerWIconExpress/DataProcessor.cs:47-69 | the nested scan/column loop starting from sum 0, count 0 computes the zero-skipping tally of the grid's samples in row-major order |
| DecoderExamples.ColourWordExample | MultRangerWIconExpress/MultRangerWIconExpress/DataProcessor.cs:154-158 | the word `0x001020FF` has blue 0x00, green 0x10 and red 0x20, and contributes sum 0x30 with count 3 |
| DecoderExamples.MarkExample | MultRangerWIconExpress/MultRangerWIconExpress/DataProcessor.cs:37-40 | a Mark with words 42 and `0x40010000` in scan 0 reports counter 42, overtrig 1 and enable 1 |
| DecoderExamples.MarkAllBitsSet | MultRangerWIconExpress/MultRangerWIconExpress/DataProcessor.cs:39-40 | the all-ones (negative) flags word reports overtrig 255 and enable 1 |
| DecoderExamples.NarrowMarkAborts | MultRangerWIconExpress/MultRangerWIconExpress/DataProcessor.cs:37-40 | a one-word-wide Mark aborts the whole report with an error naming it |
| DecoderExamples.ImageExample | MultRangerWIconExpress/MultRangerWIconExpress/DataProcessor.cs:21-25 | an `IMAGE` buffer reports only the notice, even when it holds an unreadable Mark |
| DecoderExamples.UnknownTypeHasNoMean | MultRangerWIconExpress/MultRangerWIconExpress/DataProcessor.cs:52-53 | a subcomponent of an unrecognised value type gets an empty tally and no mean, whatever its samples |

## Left out

- The form in `Form1.cs` (camera connection, grabbing, threading, the text box, the log) is user interface and I/O around the decoder. It is not part of this model.
- The vendor accessors (`buffer.Components[...]`, `SubComponents[...]`, `GetRows<T>`) are replaced by the sample grid held in each subcomponent. The model assumes the by-name lookup returns the subcomponent being iterated. Duplicate component or subcomponent names are not modelled.
- The buffer's grids are assumed well shaped: one row per scan, each at least `width` samples long (`IconBuffer.WellShaped`). What the vendor library does for a malformed buffer is not visible.
- `String.Format` padding, column layout and `N2` number rendering are not modelled. Report lines are records that hold the same values.
- FLOAT subcomponents produce `FloatLine` with no statistics, because floating-point sums and means are not modelled. Their samples are not part of the grid's meaning.
- SampleStats.Accumulate: the sum is an exact integer, while the source accumulates into a `double`, whose rounding is not modelled.
- SampleStats.Accumulate: the count is an unbounded natural number. The source's `uint` count would wrap after 2^32 − 1 increments, which is not modelled.
- SampleStats.Mean: the mean is an exact rational. The source's `double` division (and its rounding) is not modelled. A zero count yields `None` where the source computes 0/0 = NaN.
- DataProcessor.DecodeUnit: a Mark subcomponent of width 0 or 1 makes the array read at line 38 (`markData[0, 0]`) or line 39 (`markData[0, 1]`) throw, which abandons the whole call. For a buffer of height 0, what `GetRows<int>(0, 1)` at line 37 returns is vendor behaviour that the source does not show. The model ties a subcomponent's rows to the buffer's scans, so a height-0 buffer has no row 0, and it reports `MarkRowMissing` in that case as well; the Mark result therefore depends on the height when the height is 0. In every such case the model returns `Failure(MarkRowMissing)` for the whole report. The exception type and the discarded partial text are not modelled.
- BitFields.Blue: accepts any integer, but it matches the source's `(byte)(dwordValue >> 24)` only for words in `[0, 2^32)`, the values a C# `uint` can hold; the same holds for `BitFields.Green` and `BitFields.Red`. RGB2 samples outside that range cannot occur in the source and are not given a meaning.
- The samples are modelled as unbounded integers. That each value fits its declared type is a hypothesis (`IconBuffer.SamplesInRange`) of the lemmas that need it, not a property of the grid type.
