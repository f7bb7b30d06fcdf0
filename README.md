# pslib v1.0 sample storage engine, modelled in Dafny

pslib stores fixed-rate measurement traces taken by a set of probes. A PSI
descriptor (`psi_t`) records the sampling rate, the number of samples, the
probes (`probe_t`) and the PSD files (`psd_t`) that hold the samples. Each
PSD file is a sequence of binary rows. A row holds one `data_stream_t`
(current and voltage) per probe, followed by one `event_t` per probe and one
global event. In memory, `samples_t` holds a time window of rows as two flat
vectors. `sample_t` is a view of one row, and the iterator of `samples_t`
walks those views. `load_samples` streams the PSD files into a window,
`save_samples` writes a full-length buffer back out, and `validate_psi`
checks a descriptor before either runs. The checksum, the rate in kHz and
the calibration attributes of `save_psi` are modelled as well.

Modules, one per source file:

- `Events` (`event_t`): the 16-bit event word. The top bit is the
  "occurred" flag and the low 15 bits are the value.
- `DataStreams` (`data_stream_t`): the two doubles as raw 64-bit patterns.
- `Probes` (`probe_t`): a calibration bound that is NaN is modelled as `None`.
- `Psds` (`psd_t`).
- `Psis` (`psi_t`): the sampling interval and the length, in nanoseconds.
- `SampleRows` (`sample_t`).
- `SampleBuffers` (`samples_t`): the value `Buffer`, the class `Samples`
  with its fields, and the class `SampleIterator`.
- `PsdFiles`: a PSD file on disk, as records plus a byte size. Also the
  writer's file names.
- `Loader` (`load_samples`): a loop over the descriptor's PSD files, read
  row by row. The loop is proved equal to `LoadSpec`, which is written as
  the concatenated row stream filtered by the time window.
- `Saver` (`save_samples`): proved equal to `SaveSpec`, which writes each
  PSD file's rows and pads the file to 1 GiB.
- `Validator` (`validate_psi`).
- `PsiWriter`: the parts of `save_psi` named above, and the checksum read
  of `load_psi`.
- `RoundTrip`: loading what was saved.
- `Arith`: arithmetic helpers. `Wrappers`: `Option` and `Result`.

Main results:

- `RoundTrip.SaveLoadRoundTrip`: a buffer that passes the validator and
  covers the whole trace loads back equal to itself. "Covers the whole
  trace" means: begin 0, end `length()`, the first offset at most 1, and
  the rows of the PSD files adding up to the buffer's size, which is at
  most sampling_count + 1. The lemma also assumes:
  - the sampling rate is at most 10^9 Hz, so the interval is positive;
  - the descriptor read back compares equal to the saved one
    (`Psis.Equal`);
  - the reader's `names` gives each PSD the file name the writer used
    (`WriterFilename`).
- `Loader.LoadWindow`: `load_samples` keeps exactly the rows k with
  begin ≤ k·interval ≤ end, in order.
- `Loader.TimeFormula`: `at(i).time` is the row's real time exactly when
  `begin` is a multiple of the interval, or is negative by less than one
  interval.

Behaviour of the code that the model keeps:

- `at()` does not check its index. `SampleBuffers.At` therefore requires
  the row to lie inside the vectors, instead of returning an
  index-out-of-range error.
- `save_samples` rejects only `begin_time > 0`. A negative begin passes,
  and `Saver.Check` models that.
- A PSD offset is 1-based when positive: `save_samples` starts at row
  `offset - 1`, and `validate_psi` demands `offset == rows before + 1`.
- The time cursor of `load_samples` starts at 0 and advances one interval
  per row, including the rows it skips.
- Opening or writing a file is not checked in `save_samples`.

## Model

| member | source | states |
|---|---|---|
| Events.OccurredBit | src/pslib/v1_0/event_t.h:33-37 | an event occurred exactly when the word's top bit (0x8000) is set |
| Events.MaskSplit | src/pslib/v1_0/event_t.h:39-43 | the value is below 0x8000, and the word is the value plus 0x8000 when the flag is set, the value itself otherwise |
| Events.Compose | src/pslib/v1_0/event_t.h:31-43 | a flag and a 15-bit value make a word from which `occured()` and `value()` give them back |
| Events.ZeroWord | src/pslib/v1_0/event_t.h:31-43 | the zero word read from padding has not occurred and has value 0 |
| Events.Equal | src/pslib/v1_0/event_t.h:46-49 | two events are equal exactly when their words are equal |
| Events.NotEqual | src/pslib/v1_0/event_t.h:51-54 | `!=` holds exactly when the words differ |
| Probes.Equal | src/pslib/v1_0/probe_t.h:45-89 | two probes are equal exactly when id, port, kind, the presence of each bound and each present bound agree |
| Probes.NotEqual | src/pslib/v1_0/probe_t.h:91-94 | `!=` is the negation of `==` |
| Probes.AbsentBoundsEqual | src/pslib/v1_0/probe_t.h:56-67 | probes without bounds are equal exactly when id, port and kind agree |
| Probes.PresenceMismatchUnequal | src/pslib/v1_0/probe_t.h:56-67 | a bound present in one probe and NaN in the other makes them unequal |
| Psds.Equal | src/pslib/v1_0/psd_t.h:37-52 | two PSD descriptors are equal exactly when all four fields agree |
| Psds.NotEqual | src/pslib/v1_0/psd_t.h:54-57 | `!=` is the negation of `==` |
| Psds.EqualIsFieldwise | src/pslib/v1_0/psd_t.h:37-52 | `==` is reflexive and symmetric, and changing any single field breaks it |
| Psds.TotalRowsNonNegative | src/pslib/v1_0/validate_psi.h:149-154 | when no data count is negative, the row total is not negative |
| Psds.TotalRowsAppend | src/pslib/v1_0/validate_psi.h:168 | the running row total over two lists of PSDs is the sum of the totals |
| Psis.SamplingInterval | src/pslib/v1_0/psi_t.h:48-52 | the interval is 10^9 divided by the rate, rounded down |
| Psis.LengthIsWholeIntervals | src/pslib/v1_0/psi_t.h:54-57 | the length is sampling_count whole intervals, and k intervals fit in it exactly when k ≤ sampling_count |
| Psis.IntervalRange | src/pslib/v1_0/validate_psi.h:72-81 | a rate from 1000 Hz to 1 GHz gives an interval from 1 ns to 1 ms |
| Psis.TestTiming | test/pslib/v1_0/test.save_and_load_samples_3GiB.cpp:39-40 | 1000 Hz and 1500 samples give an interval of 10^6 ns and a length of 1.5·10^9 ns |
| Psis.Equal | src/pslib/v1_0/psi_t.h:60-78 | two descriptors are equal exactly when all fields but the filename agree |
| Psis.NotEqual | src/pslib/v1_0/psi_t.h:80-83 | `!=` is the negation of `==`, with the filename ignored |
| SampleRows.MakeSample | src/pslib/v1_0/sample_t.h:49-58 | the view of row idx has time t, the p values starting at p·idx and the p+1 events starting at (p+1)·idx |
| SampleRows.RowValues | src/pslib/v1_0/sample_t.h:53-54 | the value view has p elements, element j being values[p·idx + j] |
| SampleRows.RowEvents | src/pslib/v1_0/sample_t.h:55-56 | the event view has p+1 elements, element j being events[(p+1)·idx + j] |
| SampleRows.Equal | src/pslib/v1_0/sample_t.h:61-85 | two rows are equal exactly when time, values and events agree |
| SampleRows.NotEqual | src/pslib/v1_0/sample_t.h:87-90 | `!=` is the negation of `==` |
| SampleBuffers.SizeIsWholeRows | src/pslib/v1_0/samples_t.h:110-113 | size() counts the whole rows of p values in the value vector |
| SampleBuffers.TruncDiv | src/pslib/v1_0/samples_t.h:117-118 | the quotient of the row offset rounds toward zero, on both signs |
| SampleBuffers.Reservable | src/pslib/v1_0/samples_t.h:104-107 | the capacity reservation succeeds exactly when end is less than one interval before begin; otherwise the truncated row count is negative and wraps in the size_t cast |
| SampleBuffers.RowTimeFormula | src/pslib/v1_0/samples_t.h:115-122 | row times are evenly spaced by the interval, and row 0 lies within one interval of begin (equal to it when begin is a multiple) |
| SampleBuffers.At | src/pslib/v1_0/samples_t.h:115-122 | at(idx) is the row at idx, with the row time of idx |
| SampleBuffers.ViewableRow | src/pslib/v1_0/samples_t.h:110-122 | every index below size() is a row inside both vectors |
| SampleBuffers.WellFormedViewable | src/pslib/v1_0/samples_t.h:110-122 | a buffer with whole rows in both vectors can be viewed row by row |
| SampleBuffers.Equal | src/pslib/v1_0/samples_t.h:135-153 | two buffers are equal exactly when they agree on everything but the descriptor's filename |
| SampleBuffers.NotEqual | src/pslib/v1_0/samples_t.h:155-158 | `!=` is the negation of `==` |
| SampleBuffers.EqualBuffersSameRows | src/pslib/v1_0/samples_t.h:135-153 | equal buffers yield the same sequence of rows |
| SampleBuffers.Samples.constructor | src/pslib/v1_0/samples_t.h:98-108 | a new buffer holds the descriptor, begin and end, and no rows; it needs a positive interval (the reservation divides by it) and a Reservable window (otherwise reserve throws) |
| SampleBuffers.Samples.Begin | src/pslib/v1_0/samples_t.h:124-127 | begin() is a fresh iterator at index 0 of this buffer |
| SampleBuffers.Samples.End | src/pslib/v1_0/samples_t.h:129-132 | end() is a fresh iterator at index size() of this buffer |
| SampleBuffers.SampleIterator.constructor | src/pslib/v1_0/samples_t.h:55-59 | the iterator holds the index and the buffer it was given |
| SampleBuffers.SampleIterator.PreIncrement | src/pslib/v1_0/samples_t.h:61-66 | prefix `++` advances the index and returns a copy made before the increment |
| SampleBuffers.SampleIterator.PostIncrement | src/pslib/v1_0/samples_t.h:67-71 | postfix `++` advances the index and returns a copy made after it |
| SampleBuffers.CollectRows | test/pslib/v1_0/test.save_and_load_samples_iterator.cpp:116-126 | iterating from begin() to end() and dereferencing yields exactly the rows at(0) … at(size()-1) |
| PsdFiles.ZeroRecord | src/pslib/v1_0/load_samples.h:64-78 | a read past the data gives a row of zero values and zero events |
| PsdFiles.CompleteRows | src/pslib/v1_0/load_samples.h:54-78 | the number of whole rows that fit in the file's size |
| PsdFiles.WrittenRowsComplete | src/pslib/v1_0/load_samples.h:54-78 | every written row of a well-formed file is a whole row |
| PsdFiles.RecordAt | src/pslib/v1_0/load_samples.h:64-78 | read j yields the j-th stored row when one was written, and the zero row beyond the written rows |
| PsdFiles.NatToString | src/pslib/v1_0/save_samples.h:54-55 | `to_string` of a natural is a non-empty string of decimal digits, one digit exactly below 10 |
| PsdFiles.NatToStringRoundTrip | src/pslib/v1_0/save_samples.h:54-55 | reading the decimal text gives the number back |
| PsdFiles.IntToString | src/pslib/v1_0/save_samples.h:54-55 | `to_string` of an integer is non-empty and starts with '-' exactly when the integer is negative |
| PsdFiles.IntToStringDigits | src/pslib/v1_0/save_samples.h:54-55 | after the optional '-', `to_string` writes only decimal digits, and they read back as the integer's magnitude |
| PsdFiles.NatToStringInjective | src/pslib/v1_0/save_samples.h:54-55 | different naturals have different texts |
| PsdFiles.IntToStringInjective | src/pslib/v1_0/save_samples.h:54-55 | different integers have different texts |
| PsdFiles.WriterFilenameInjective | src/pslib/v1_0/save_samples.h:53-55 | PSDs with different ids are written to different files |
| PsdFiles.FilenameExample | src/pslib/v1_0/save_samples.h:54-55 | id 12 in directory "data" with base "run" is written to data/run_12.psd |
| Loader.SegmentRows | src/pslib/v1_0/load_samples.h:52-81 | the rows one PSD file contributes, each a row of p values and p+1 events |
| Loader.StreamRows | src/pslib/v1_0/load_samples.h:47-82 | the concatenated row stream over all PSD files consists of well-shaped rows |
| Loader.StreamRowsAppend | src/pslib/v1_0/load_samples.h:47-82 | the stream over two lists of PSDs is the first list's stream followed by the second's |
| Loader.SelectStopsAfterEnd | src/pslib/v1_0/load_samples.h:60-62 | once the cursor has passed end, later rows change nothing |
| Loader.StreamPrefix | src/pslib/v1_0/load_samples.h:47-82 | the rows read so far are a prefix of the whole stream |
| Loader.StreamStep | src/pslib/v1_0/load_samples.h:47-82 | each finished PSD file appends its rows to the stream |
| Loader.StoppedAfterEnd | src/pslib/v1_0/load_samples.h:60-62 | the early `return` yields what reading the whole stream would |
| Loader.LoadedStep | src/pslib/v1_0/load_samples.h:55-79 | a row in the window is appended to both vectors, a row outside it is skipped |
| Loader.AppendRow | src/pslib/v1_0/load_samples.h:64-78 | the values and events of a row are pushed onto the buffer and nothing else changes |
| Loader.SegmentGuard | src/pslib/v1_0/load_samples.h:54 | the loop guard (stream good and counter nonzero) holds exactly while rows of the file remain |
| Loader.SegmentRowAt | src/pslib/v1_0/load_samples.h:64-78 | the j-th row of a file's segment is the j-th read of that file |
| Loader.ReadSegment | src/pslib/v1_0/load_samples.h:52-81 | the loop over one file reads its rows into the window and stops early exactly when the cursor passes end |
| Loader.LoadSamples | src/pslib/v1_0/load_samples.h:37-84 | `load_samples` fails (the constructor's std::length_error) exactly when the window is not Reservable, and otherwise fills a fresh buffer equal to the row stream filtered by the window |
| Loader.DefaultWindowReservable | src/pslib/v1_0/load_samples.h:38-44 | the default window (0 to length()) and every window whose end is not before its begin pass the reservation |
| Loader.WindowBounds | src/pslib/v1_0/load_samples.h:55-62 | row k is kept exactly when it lies between the first row at or after begin and the last row at or before end |
| Loader.WindowStop | src/pslib/v1_0/load_samples.h:55-62 | the window's end lies between its start and the stream length |
| Loader.SelectIsWindow | src/pslib/v1_0/load_samples.h:55-62 | the kept rows are one contiguous slice of the stream |
| Loader.LoadWindow | src/pslib/v1_0/load_samples.h:37-84 | the load keeps exactly the rows k with begin ≤ k·interval ≤ end, in order |
| Loader.FlatLength | src/pslib/v1_0/load_samples.h:64-78 | n rows flatten to n·p values and n·(p+1) events |
| Loader.FlatValuesAt | src/pslib/v1_0/load_samples.h:64-71 | value j of row i lands at position p·i + j |
| Loader.FlatEventsAt | src/pslib/v1_0/load_samples.h:72-78 | event j of row i lands at position (p+1)·i + j |
| Loader.FlatBuffer | src/pslib/v1_0/load_samples.h:64-78 | a buffer filled from rows has that many rows, and each row reads back as filled |
| Loader.LoadedRows | src/pslib/v1_0/load_samples.h:37-84 | a loaded buffer is well formed, and its row i is stream row (first kept + i) |
| Loader.TruncDivIsFirstRow | src/pslib/v1_0/samples_t.h:117-118 | begin / interval, rounded toward zero, is the first kept row exactly when begin is a multiple or lies within one interval below zero |
| Loader.TimeFormula | src/pslib/v1_0/samples_t.h:115-122 | at(i).time is the real time of the i-th kept row exactly under that same condition |
| Saver.Check | src/pslib/v1_0/save_samples.h:41-51 | saving fails when begin > 0, fails otherwise when end ≠ length(), and goes ahead in every other case |
| Saver.StartRowExamples | src/pslib/v1_0/save_samples.h:60 | offsets 501, 1 and 0 start at rows 500, 0 and 0 |
| Saver.SegmentRowInBounds | src/pslib/v1_0/save_samples.h:59-61 | every row a PSD file asks for is a row of the buffer |
| Saver.RowRecord | src/pslib/v1_0/save_samples.h:61-71 | the record written for a row has p values and p+1 events |
| Saver.SegmentRecords | src/pslib/v1_0/save_samples.h:59-72 | a PSD file receives exactly data_count records |
| Saver.WriteRow | src/pslib/v1_0/save_samples.h:61-71 | a row is written as its values, then its events, and counts 16 bytes per value and 2 per event |
| Saver.SegmentRecordAt | src/pslib/v1_0/save_samples.h:59-72 | record i of a file is buffer row StartRow + i |
| Saver.WriteSegment | src/pslib/v1_0/save_samples.h:58-72 | the loop writes the file's records and counts data_count whole records of bytes |
| Saver.WriteFile | src/pslib/v1_0/save_samples.h:53-80 | a PSD file is written under its name with its records and padding |
| Saver.SaveSamples | src/pslib/v1_0/save_samples.h:38-82 | `save_samples` reports Check's error, or else leaves the disk as SaveSpec describes |
| Saver.SegmentRecordsShaped | src/pslib/v1_0/save_samples.h:59-72 | every record written for a PSD file is a row of p values and p+1 events |
| Saver.WrittenFileSize | src/pslib/v1_0/save_samples.h:76-80 | a written file is at least 1 GiB, holds all its bytes, is exactly their size when above 1 GiB, and has room for all its rows |
| Saver.WrittenRow | src/pslib/v1_0/save_samples.h:59-80 | reading row j of a written file gives buffer row StartRow + j |
| Saver.SaveFilesStep | src/pslib/v1_0/save_samples.h:53-81 | each pass of the outer loop writes one more file |
| Saver.SaveFilesLookup | src/pslib/v1_0/save_samples.h:53-81 | with distinct ids, every PSD's file holds what was written for it |
| Saver.SaveFilesElsewhere | src/pslib/v1_0/save_samples.h:53-81 | files with other names are left as they were |
| Validator.ValidatePsi | src/pslib/v1_0/validate_psi.h:42-172 | the checks run in the source's order and the first failing one is reported |
| Validator.CheckProbesPass | src/pslib/v1_0/validate_psi.h:101-131 | the probe loop passes exactly when every probe has id i+1, a positive port, a known kind and an unused port |
| Validator.CheckPsdsPass | src/pslib/v1_0/validate_psi.h:133-169 | the PSD loop passes exactly when every PSD has id i+1, non-negative fields and, after the first, offset = rows before + 1 |
| Validator.ValidateIsWellFormed | src/pslib/v1_0/validate_psi.h:48-171 | validation succeeds exactly when the descriptor is well formed, and it never returns false |
| Validator.ChecksumIgnored | src/pslib/v1_0/validate_psi.h:68-69 | the checksum does not affect validation |
| Validator.RowCountUnchecked | src/pslib/v1_0/validate_psi.h:133-171 | a descriptor whose PSD rows do not add up to sampling_count still passes |
| Validator.ProbeErrorIsFirst | src/pslib/v1_0/validate_psi.h:103-131 | a probe error names the first invalid probe, and all probes before it are valid |
| Validator.PsdErrorIsFirst | src/pslib/v1_0/validate_psi.h:133-169 | a PSD error names the first invalid PSD, all PSDs before it are valid, and an offset mismatch carries the row total before it |
| PsiWriter.HexDigitValue | src/pslib/v1_0/save_psi.h:58-61 | a nibble is written as a lower-case hex digit that reads back as the nibble |
| PsiWriter.ChecksumText | src/pslib/v1_0/save_psi.h:56-66 | the loop writes "0x" followed by the eight nibbles, least significant first |
| PsiWriter.ChecksumStep | src/pslib/v1_0/save_psi.h:60-63 | one pass writes the low nibble and shifts the rest down |
| PsiWriter.NibbleAt | src/pslib/v1_0/save_psi.h:59-63 | digit k is the nibble of the checksum shifted right by 4k bits |
| PsiWriter.ChecksumTextShape | src/pslib/v1_0/save_psi.h:56-66 | the text is 10 characters long, starts with "0x", and its digit k is nibble k |
| PsiWriter.NibblesRoundTrip | src/pslib/v1_0/save_psi.h:59-63 | reading the digits back, least significant first, gives the value |
| PsiWriter.ShiftedOut | src/pslib/v1_0/save_psi.h:59-63 | after n shifts, a value below 16^n is zero |
| PsiWriter.ChecksumDigitsComplete | src/pslib/v1_0/save_psi.h:59-63 | eight digits carry the whole 32-bit checksum |
| PsiWriter.ReadChecksum | src/pslib/v1_0/load_psi.h:58-67 | reading succeeds only on decimal digits after "0x", with an optional '+' or '-' in front, and always gives a value below 2^32 |
| PsiWriter.MinusOneWraps | src/pslib/v1_0/load_psi.h:60-62 | a leading '-' negates modulo 2^32: "0x-1" reads as 4294967295 |
| PsiWriter.ReadLeadingDigit | src/pslib/v1_0/load_psi.h:58-67 | a digit followed by n zeros reads as the digit times 10^n |
| PsiWriter.NonDigitRejected | src/pslib/v1_0/load_psi.h:60-67 | a character after "0x" that is neither a digit nor a leading sign makes the read fail |
| PsiWriter.ChecksumMisread | src/pslib/v1_0/save_psi.h:56-66 | a checksum c ≤ 9 is written and read back as c·10^7, which is c only for 0 |
| PsiWriter.ChecksumLetterRejected | src/pslib/v1_0/load_psi.h:58-67 | a checksum from 10 to 15 is written with a letter, and load_psi rejects it |
| PsiWriter.LeadingNibble | src/pslib/v1_0/save_psi.h:59-63 | a value below 16 is written as its digit followed by zeros |
| PsiWriter.HexDigitsMsb | src/pslib/v1_0/save_psi.h:56-66 | the intended text has n hex digits |
| PsiWriter.IntendedChecksumText | src/pslib/v1_0/save_psi.h:56-66 | the intended text is "0x" and eight digits |
| PsiWriter.HexDigitsMsbRoundTrip | src/pslib/v1_0/save_psi.h:56-66 | digits written most significant first read back as the value |
| PsiWriter.IntendedChecksumRoundTrip | src/pslib/v1_0/save_psi.h:56-66 | with hex digits, most significant first, read back as hex, every checksum survives |
| PsiWriter.RateInKilohertz | src/pslib/v1_0/save_psi.h:67-68 | the rate is written in kHz, rounded down |
| PsiWriter.RateFromKilohertz | src/pslib/v1_0/load_psi.h:70-73 | reading multiplies by 1000, so the result is a whole number of kHz |
| PsiWriter.RateRoundTrip | src/pslib/v1_0/save_psi.h:67-68 | writing and reading the rate loses rate mod 1000, and it survives exactly when it is a whole number of kHz |
| PsiWriter.CalibrationAttributes | src/pslib/v1_0/save_psi.h:79-90 | each calibration attribute is written exactly when its bound is not NaN, with that bound, and at most four are written |
| PsiWriter.Attribute | src/pslib/v1_0/save_psi.h:79-80 | one attribute is written exactly when its bound is present |
| RoundTrip.StorableFacts | src/pslib/v1_0/validate_psi.h:72-99 | a descriptor that passes the validator has a positive interval and at least one probe |
| RoundTrip.SegmentsContiguous | src/pslib/v1_0/validate_psi.h:161-168 | with the first offset at most 1, PSD i starts at the number of rows in the PSDs before it |
| RoundTrip.CoveredIsWritable | src/pslib/v1_0/save_samples.h:59-61 | when the PSD rows add up to the buffer's size, every row `save_samples` asks for exists |
| RoundTrip.BufferRows | src/pslib/v1_0/samples_t.h:110-122 | the buffer's rows, one per index below size() |
| RoundTrip.RowRecordSlices | src/pslib/v1_0/sample_t.h:53-56 | row k's values and events are the slices at p·k and (p+1)·k |
| RoundTrip.FlatValuesOfSlices | src/pslib/v1_0/load_samples.h:64-71 | appending the values of rows laid out in slices rebuilds the value vector |
| RoundTrip.FlatEventsOfSlices | src/pslib/v1_0/load_samples.h:72-78 | appending the events of rows laid out in slices rebuilds the event vector |
| RoundTrip.FlatBufferRows | src/pslib/v1_0/load_samples.h:64-78 | reading a buffer's rows back in order rebuilds both its vectors |
| RoundTrip.WrittenSegmentRows | src/pslib/v1_0/save_samples.h:59-72 | reading a written PSD file gives back the buffer's rows from StartRow on |
| RoundTrip.SavedSegmentFound | src/pslib/v1_0/save_samples.h:53-55 | the reader finds each PSD's file where the writer put it |
| RoundTrip.CoveredLayout | src/pslib/v1_0/validate_psi.h:161-168 | in a covered buffer every PSD file is placed at its row total |
| RoundTrip.SegmentReadsBack | src/pslib/v1_0/load_samples.h:52-81 | each saved PSD file reads back as its slice of the buffer's rows |
| RoundTrip.SavedFilesFit | src/pslib/v1_0/save_samples.h:76-80 | every saved file is well formed for the reader |
| RoundTrip.StreamOfMatchingSegments | src/pslib/v1_0/load_samples.h:47-82 | when every file reads back as its slice, the stream is the prefix of the rows up to the row total |
| RoundTrip.AllSegmentsMatch | src/pslib/v1_0/load_samples.h:47-82 | after saving, every PSD file reads back as its slice |
| RoundTrip.SavedStream | src/pslib/v1_0/load_samples.h:47-82 | the stream read from the saved files is the buffer's rows |
| RoundTrip.ReloadedAgrees | src/pslib/v1_0/psi_t.h:60-78 | a descriptor equal to the saved one has the same rate and count, and reads the files that were written |
| RoundTrip.LoadedFromSaved | src/pslib/v1_0/load_samples.h:37-84 | loading the saved files gives the buffer's first sampling_count + 1 rows |
| RoundTrip.SaveLoadRoundTrip | test/pslib/v1_0/test.save_and_load_samples_3GiB.cpp:124-135 | a validated full-length buffer with at most sampling_count + 1 rows and a rate of at most 10^9 Hz loads back equal to itself. This assumes the reloaded descriptor is Equal to the saved one and `names` gives each PSD the writer's file name |
| RoundTrip.SaveLoadSameRows | test/pslib/v1_0/test.save_and_load_samples_iterator.cpp:116-126 | iterating the reloaded buffer yields the same rows as iterating the original |
| RoundTrip.RoundTripNeedsRowBound | src/pslib/v1_0/load_samples.h:60-62 | with more than sampling_count + 1 rows the loaded buffer is not equal, so the row bound is needed |

## Left out

- The XML descriptor file (boost::property_tree), `save_psi` beyond the checksum, the rate and the calibration attributes, and `load_psi` beyond the checksum and rate reads. The validator's inputs from the XML (the version strings and the DataStream count) are parameters.
- The file name the reader opens, `psd_filename(psi, psd)`, is a parameter `names` of the loader, because psd_filename.h is not part of this model; the round trip (`RoundTrip.SaveLoadRoundTrip`) assumes `names` gives each PSD the writer's file name.
- File I/O is a map from names to files. A file is its records plus a byte size beyond them that reads as zeros. Failure to open or create a file, text-mode streams and sparse files are not modelled.
- The reader requires files whose records have p values and p+1 events (`Loader.FilesFit`). A file of another layout would be reinterpreted byte by byte, and that is not modelled.
- End of file: a stream only turns bad on the read that runs past the end. So the row at index CompleteRows is still processed (a zero row when kept, skipped otherwise), and the file ends after it. The distinction between eofbit and failbit is not modelled.
- SampleBuffers.Samples.constructor: does not model `reserve` failing for a window too large for memory. That is a std::length_error or std::bad_alloc when (end − begin) / interval rows exceed what a vector can hold. The failure for a negative row count is modelled by `Reservable`. `Reservable` also treats every negative count as a failure. It ignores the case where a huge negative count times the probe count wraps in 64 bits back into a small size.
- Integer widths: int64 and uint64 overflow and the `size_t` casts in `at()` are not modelled. Times, counts and offsets are unbounded integers. A negative begin makes `size_t(idx_offset)` wrap in the source, and the model keeps the signed value.
- A sampling rate above 10^9 Hz gives an interval of 0. That is a division by zero in the `samples_t` constructor and in `at()`, so the constructor, loading and row times require a positive interval (`Psis.HasInterval`).
- Floating point: probe bounds are `real` or `None` (NaN), and probe bound comparisons are on reals.
- PsiWriter.ReadChecksum: assumes the classic locale. The thousands separators that boost::lexical_cast accepts under other locales are not modelled.
- SampleRows.Equal: compares data streams by their bits, which is stronger than the double comparison of data_stream_t, where NaN equals everything and +0 equals −0.
- SampleBuffers.Equal: compares the value vectors by their bits, for the same reason.
- SampleBuffers.SampleIterator.Deref: has no contract of its own beyond `At`, whose contract it inherits. `operator->` is the same function.
- SampleBuffers.SampleIterator.Equals: is the plain comparison of index and buffer identity, stated by its body only.
- RoundTrip.SaveLoadRoundTrip: needs at most sampling_count + 1 rows, because load keeps rows up to and including length(). RoundTrip.RoundTripNeedsRowBound shows that the bound is needed.
- The test programs' `main` functions, which only build a descriptor, call the library and compare, are represented by the lemmas citing them.

## Findings

| source | as written | input that shows it | evidently intended | confidence | as-written member | corrected member |
|---|---|---|---|---|---|---|
| src/pslib/v1_0/save_psi.h:56-66 | the checksum is written as "0x" and its nibbles least significant first, and load_psi.h:58-67 reads the text after "0x" as a decimal number | checksum 1 is written "0x10000000" and read back as 10000000; checksum 10 is written "0xa0000000" and the read throws | hex digits most significant first, read back as hex, so every checksum survives | high, not executed | PsiWriter.ChecksumMisread | PsiWriter.IntendedChecksumRoundTrip |
