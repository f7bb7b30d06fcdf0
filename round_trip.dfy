/** What the reader, the writer and the validator promise together: files
    written by save_samples load back as the buffer that was saved. */
module RoundTrip {
  import opened Wrappers
  import opened PsdFiles
  import Psis
  import Psds
  import SampleRows
  import DataStreams
  import Events
  import SampleBuffers
  import Loader
  import Saver
  import Validator
  import Arith

  /** Metadata that validate_psi accepts, with a first segment starting at
      the first row and a rate for which the interval is positive. */
  predicate Storable(psi: Psis.Psi, psiVersion: string, psdVersion: string, dataStreamCount: int)
  {
    && Validator.ValidateSpec(psi, psiVersion, psdVersion, dataStreamCount) == Success(true)
    && psi.samplingRate <= Psis.NanosPerSecond
    && (|psi.psds| > 0 ==> psi.psds[0].offset <= 1)
  }

  lemma StorableFacts(psi: Psis.Psi, psiVersion: string, psdVersion: string, dataStreamCount: int)
    requires Storable(psi, psiVersion, psdVersion, dataStreamCount)
    ensures Validator.WellFormed(psi, psiVersion, psdVersion, dataStreamCount)
    ensures Psis.HasInterval(psi) && |psi.probes| > 0
  {
    Validator.ValidateIsWellFormed(psi, psiVersion, psdVersion, dataStreamCount);
    Psis.IntervalRange(psi);
  }

  /** With validated offsets, segment i starts right after the rows of the
      segments before it: the segments cover the buffer's rows without gap
      or overlap. */
  lemma SegmentsContiguous(psi: Psis.Psi, psiVersion: string, psdVersion: string, dataStreamCount: int, i: nat)
    requires Validator.WellFormed(psi, psiVersion, psdVersion, dataStreamCount)
    requires |psi.psds| > 0 ==> psi.psds[0].offset <= 1
    requires i < |psi.psds|
    ensures Saver.StartRow(psi.psds[i]) == Psds.TotalRows(psi.psds[..i])
  {
    assert Validator.PsdValid(psi.psds, i);
    if i > 0 {
      forall k | 0 <= k < i
        ensures psi.psds[..i][k].dataCount >= 0
      {
        assert Validator.PsdValid(psi.psds, k);
      }
      Psds.TotalRowsNonNegative(psi.psds[..i]);
    } else {
      assert psi.psds[..0] == [];
    }
  }

  /** The rows before segment i and the rows of segment i stay within the
      rows of all segments. */
  lemma SegmentWithinTotal(psds: seq<Psds.Psd>, i: nat)
    requires i < |psds|
    requires forall k :: 0 <= k < |psds| ==> psds[k].dataCount >= 0
    ensures Psds.TotalRows(psds[..i]) + psds[i].dataCount <= Psds.TotalRows(psds)
  {
    assert psds[..i + 1][..i] == psds[..i];
    assert psds == psds[..i + 1] + psds[i + 1..];
    Psds.TotalRowsAppend(psds[..i + 1], psds[i + 1..]);
    Psds.TotalRowsNonNegative(psds[i + 1..]);
  }

  /** A well-formed buffer whose rows the segments exactly cover can be
      written. */
  lemma CoveredIsWritable(b: SampleBuffers.Buffer, psiVersion: string, psdVersion: string, dataStreamCount: int)
    requires Storable(b.psi, psiVersion, psdVersion, dataStreamCount)
    requires SampleBuffers.WellFormed(b)
    requires Psds.TotalRows(b.psi.psds) == SampleBuffers.Size(b)
    ensures Saver.Writable(b)
  {
    StorableFacts(b.psi, psiVersion, psdVersion, dataStreamCount);
    var psds := b.psi.psds;
    var p := |b.psi.probes|;
    forall i | 0 <= i < |psds|
      ensures Saver.SegmentInBounds(b, psds[i])
    {
      SegmentsContiguous(b.psi, psiVersion, psdVersion, dataStreamCount, i);
      forall k | 0 <= k < |psds|
        ensures psds[k].dataCount >= 0
      {
        assert Validator.PsdValid(psds, k);
      }
      assert Validator.PsdValid(psds, i);
      SegmentWithinTotal(psds, i);
      var top := Saver.StartRow(psds[i]) + psds[i].dataCount;
      Arith.MulMonotone(top, SampleBuffers.Size(b), p);
      Arith.MulMonotone(top, SampleBuffers.Size(b), p + 1);
    }
  }

  /** The rows of a buffer as records, in order. */
  function BufferRows(b: SampleBuffers.Buffer): (rows: seq<Record>)
    requires SampleBuffers.Viewable(b)
    ensures |rows| == SampleBuffers.Size(b)
  {
    seq(SampleBuffers.Size(b), k requires 0 <= k < SampleBuffers.Size(b) =>
      SampleBuffers.ViewableRow(b, k);
      Saver.RowRecord(b, k))
  }

  /** Row k's record is the k-th slice of the flat sequences. */
  lemma RowRecordSlices(b: SampleBuffers.Buffer, k: nat)
    requires SampleBuffers.Viewable(b) && k < SampleBuffers.Size(b)
    ensures
      var p := |b.psi.probes|;
      && p * k + p <= |b.values| && (p + 1) * k + (p + 1) <= |b.events|
      && BufferRows(b)[k].values == b.values[p * k .. p * k + p]
      && BufferRows(b)[k].events == b.events[(p + 1) * k .. (p + 1) * k + (p + 1)]
  {
    var p := |b.psi.probes|;
    SampleBuffers.ViewableRow(b, k);
    var row := SampleBuffers.At(b, k);
    assert BufferRows(b)[k] == Record(row.values, row.events);
    var lo, elo := p * k, (p + 1) * k;
    assert (k + 1) * p == lo + p && (k + 1) * (p + 1) == elo + (p + 1);
    assert row.values == b.values[lo .. lo + p];
    assert row.events == b.events[elo .. elo + (p + 1)];
  }

  /** Where the k-th block of width w starts: k * w, counted up block by
      block so that the flattening proofs stay linear. */
  function Offset(w: nat, k: nat): nat
  {
    if k == 0 then 0 else Offset(w, k - 1) + w
  }

  lemma {:induction false} OffsetIsProduct(w: nat, k: nat)
    ensures Offset(w, k) == w * k
  {
    if k > 0 {
      OffsetIsProduct(w, k - 1);
      Arith.MulPred(w, k);
    }
  }

  /** Row k carries the k-th block of p values. */
  predicate ValuesSlice(row: Record, values: seq<DataStreams.DataStream>, p: nat, k: nat)
  {
    Offset(p, k) + p <= |values| && row.values == values[Offset(p, k) .. Offset(p, k) + p]
  }

  /** Row k carries the k-th block of p+1 events. */
  predicate EventsSlice(row: Record, events: seq<Events.Event>, p: nat, k: nat)
  {
    Offset(p + 1, k) + (p + 1) <= |events| && row.events == events[Offset(p + 1, k) .. Offset(p + 1, k) + (p + 1)]
  }

  /** Records that are consecutive slices of a flat value sequence flatten
      back to its start. */
  lemma {:induction false} FlatValuesOfSlices(rows: seq<Record>, values: seq<DataStreams.DataStream>, p: nat, n: nat)
    requires n <= |rows|
    requires forall k :: 0 <= k < n ==> ValuesSlice(rows[k], values, p, k)
    ensures Offset(p, n) <= |values|
    ensures Loader.FlatValues(rows[..n]) == values[..Offset(p, n)]
  {
    if n == 0 {
      assert rows[..0] == [];
    } else {
      var k := n - 1;
      FlatValuesOfSlices(rows, values, p, k);
      assert ValuesSlice(rows[k], values, p, k);
      var lo := Offset(p, k);
      assert Offset(p, n) == lo + p;
      assert rows[..n] == rows[..k] + [rows[k]];
      Loader.FlatAppend(rows[..k], rows[k]);
      assert values[..lo + p] == values[..lo] + values[lo .. lo + p];
    }
  }

  /** The same for the events, p+1 per record. */
  lemma {:induction false} FlatEventsOfSlices(rows: seq<Record>, events: seq<Events.Event>, p: nat, n: nat)
    requires n <= |rows|
    requires forall k :: 0 <= k < n ==> EventsSlice(rows[k], events, p, k)
    ensures Offset(p + 1, n) <= |events|
    ensures Loader.FlatEvents(rows[..n]) == events[..Offset(p + 1, n)]
  {
    if n == 0 {
      assert rows[..0] == [];
    } else {
      var k := n - 1;
      FlatEventsOfSlices(rows, events, p, k);
      assert EventsSlice(rows[k], events, p, k);
      var lo := Offset(p + 1, k);
      assert Offset(p + 1, n) == lo + (p + 1);
      assert rows[..n] == rows[..k] + [rows[k]];
      Loader.FlatAppend(rows[..k], rows[k]);
      assert events[..lo + (p + 1)] == events[..lo] + events[lo .. lo + (p + 1)];
    }
  }

  lemma RowSlices(b: SampleBuffers.Buffer, k: nat)
    requires SampleBuffers.Viewable(b) && k < SampleBuffers.Size(b)
    ensures ValuesSlice(BufferRows(b)[k], b.values, |b.psi.probes|, k)
    ensures EventsSlice(BufferRows(b)[k], b.events, |b.psi.probes|, k)
  {
    RowRecordSlices(b, k);
    OffsetIsProduct(|b.psi.probes|, k);
    OffsetIsProduct(|b.psi.probes| + 1, k);
  }

  /** Flattening all rows of a well-formed buffer gives back its flat
      sequences. */
  lemma FlatBufferRows(b: SampleBuffers.Buffer)
    requires SampleBuffers.WellFormed(b) && SampleBuffers.Viewable(b)
    ensures Loader.FlatValues(BufferRows(b)) == b.values
    ensures Loader.FlatEvents(BufferRows(b)) == b.events
  {
    var p := |b.psi.probes|;
    var rows := BufferRows(b);
    var n := |rows|;
    forall k | 0 <= k < n
      ensures ValuesSlice(rows[k], b.values, p, k) && EventsSlice(rows[k], b.events, p, k)
    {
      RowSlices(b, k);
    }
    FlatValuesOfSlices(rows, b.values, p, n);
    FlatEventsOfSlices(rows, b.events, p, n);
    assert rows[..n] == rows;
    OffsetIsProduct(p, n);
    OffsetIsProduct(p + 1, n);
    assert n == SampleBuffers.Size(b);
    Arith.MulComm(p, n);
    Arith.MulComm(p + 1, n);
  }

  /** A buffer the save can write and the load can read back whole: its
      metadata is storable and its segments cover exactly its rows. */
  predicate Covered(b: SampleBuffers.Buffer, psiVersion: string, psdVersion: string, dataStreamCount: int)
  {
    && Storable(b.psi, psiVersion, psdVersion, dataStreamCount)
    && SampleBuffers.WellFormed(b)
    && Psds.TotalRows(b.psi.psds) == SampleBuffers.Size(b)
  }

  /** The metadata read back lists the same segments and probes, and the
      reader opens each segment under the name the writer gave it. */
  predicate ReadsAsWritten(b: SampleBuffers.Buffer, reloaded: Psis.Psi, directory: string, baseName: string, names: Loader.Names)
  {
    && reloaded.psds == b.psi.psds
    && reloaded.probes == b.psi.probes
    && forall i :: 0 <= i < |b.psi.psds| ==>
         names(reloaded, b.psi.psds[i]) == WriterFilename(directory, baseName, b.psi.psds[i].id)
  }

  lemma CoveredFacts(b: SampleBuffers.Buffer, psiVersion: string, psdVersion: string, dataStreamCount: int)
    requires Covered(b, psiVersion, psdVersion, dataStreamCount)
    ensures Psis.HasInterval(b.psi) && |b.psi.probes| > 0
    ensures Saver.Writable(b) && SampleBuffers.Viewable(b)
    ensures forall k :: 0 <= k < |b.psi.psds| ==> b.psi.psds[k].dataCount >= 0
    ensures DistinctIds(b.psi.psds)
  {
    StorableFacts(b.psi, psiVersion, psdVersion, dataStreamCount);
    CoveredIsWritable(b, psiVersion, psdVersion, dataStreamCount);
    SampleBuffers.WellFormedViewable(b);
    var psds := b.psi.psds;
    forall k | 0 <= k < |psds|
      ensures psds[k].dataCount >= 0
    {
      assert Validator.PsdValid(psds, k);
    }
    forall k, m | 0 <= k < m < |psds|
      ensures psds[k].id != psds[m].id
    {
      assert Validator.PsdValid(psds, k) && Validator.PsdValid(psds, m);
    }
  }

  /** A segment's written file reads back as the buffer rows from its
      start row on. */
  lemma WrittenSegmentRows(b: SampleBuffers.Buffer, psd: Psds.Psd)
    requires Saver.SegmentInBounds(b, psd) && SampleBuffers.Viewable(b)
    requires Saver.StartRow(psd) + psd.dataCount <= SampleBuffers.Size(b)
    ensures Fits(Saver.WrittenFile(b, psd), |b.psi.probes|)
    ensures Loader.SegmentRows(Some(Saver.WrittenFile(b, psd)), psd.dataCount, |b.psi.probes|)
            == BufferRows(b)[Saver.StartRow(psd) .. Saver.StartRow(psd) + psd.dataCount]
  {
    var p := |b.psi.probes|;
    var start := Saver.StartRow(psd);
    Saver.WrittenFileSize(b, psd);
    var f := Saver.WrittenFile(b, psd);
    var segment := Loader.SegmentRows(Some(f), psd.dataCount, p);
    assert |segment| == psd.dataCount;
    var rows := BufferRows(b);
    forall j | 0 <= j < psd.dataCount
      ensures segment[j] == rows[start + j]
    {
      Saver.WrittenRow(b, psd, j);
    }
  }

  /** Segment ids are pairwise distinct. */
  predicate DistinctIds(psds: seq<Psds.Psd>)
  {
    forall k, m :: 0 <= k < m < |psds| ==> psds[k].id != psds[m].id
  }

  /** After the save, the reader finds segment i's written file. */
  lemma SavedSegmentFound(
    b: SampleBuffers.Buffer, reloaded: Psis.Psi, directory: string, baseName: string, disk: Disk, names: Loader.Names, i: nat)
    requires Saver.Writable(b) && DistinctIds(b.psi.psds)
    requires ReadsAsWritten(b, reloaded, directory, baseName, names)
    requires i < |b.psi.psds|
    ensures
      var after := Saver.SaveFiles(b, b.psi.psds, directory, baseName, disk);
      var name := names(reloaded, b.psi.psds[i]);
      name in after && after[name] == Saver.WrittenFile(b, b.psi.psds[i])
  {
    Saver.SaveFilesLookup(b, b.psi.psds, directory, baseName, disk, i);
  }

  /** Where the segments sit in a covered buffer: each starts at the rows
      of the segments before it and ends inside the buffer. */
  predicate Layout(b: SampleBuffers.Buffer)
  {
    && Saver.Writable(b)
    && SampleBuffers.Viewable(b)
    && DistinctIds(b.psi.psds)
    && forall i :: 0 <= i < |b.psi.psds| ==> Placed(b, i)
  }

  predicate Placed(b: SampleBuffers.Buffer, i: nat)
    requires i < |b.psi.psds| && |b.psi.probes| > 0
  {
    && Saver.StartRow(b.psi.psds[i]) == Psds.TotalRows(b.psi.psds[..i])
    && Saver.StartRow(b.psi.psds[i]) + b.psi.psds[i].dataCount <= SampleBuffers.Size(b)
  }

  lemma CoveredLayout(b: SampleBuffers.Buffer, psiVersion: string, psdVersion: string, dataStreamCount: int)
    requires Covered(b, psiVersion, psdVersion, dataStreamCount)
    ensures Layout(b)
  {
    CoveredFacts(b, psiVersion, psdVersion, dataStreamCount);
    StorableFacts(b.psi, psiVersion, psdVersion, dataStreamCount);
    forall i | 0 <= i < |b.psi.psds|
      ensures Placed(b, i)
    {
      SegmentsContiguous(b.psi, psiVersion, psdVersion, dataStreamCount, i);
      SegmentWithinTotal(b.psi.psds, i);
    }
  }

  /** Segment i's file, as the reader finds it after the save, yields
      exactly the buffer rows the segment covers. */
  lemma SegmentReadsBack(
    b: SampleBuffers.Buffer, reloaded: Psis.Psi, directory: string, baseName: string, disk: Disk, names: Loader.Names, i: nat)
    requires Layout(b)
    requires ReadsAsWritten(b, reloaded, directory, baseName, names)
    requires i < |b.psi.psds|
    ensures 0 <= Psds.TotalRows(b.psi.psds[..i])
    ensures Psds.TotalRows(b.psi.psds[..i]) + b.psi.psds[i].dataCount <= SampleBuffers.Size(b)
    ensures
      var after := Saver.SaveFiles(b, b.psi.psds, directory, baseName, disk);
      var name := names(reloaded, b.psi.psds[i]);
      && name in after
      && Fits(after[name], |reloaded.probes|)
      && Loader.SegmentRows(Some(after[name]), b.psi.psds[i].dataCount, |reloaded.probes|)
         == BufferRows(b)[Psds.TotalRows(b.psi.psds[..i]) .. Psds.TotalRows(b.psi.psds[..i]) + b.psi.psds[i].dataCount]
  {
    assert Placed(b, i);
    SavedSegmentFound(b, reloaded, directory, baseName, disk, names, i);
    assert Saver.SegmentInBounds(b, b.psi.psds[i]);
    WrittenSegmentRows(b, b.psi.psds[i]);
  }

  /** Every file the reader opens after the save holds records of the
      buffer's width. */
  lemma SavedFilesFit(
    b: SampleBuffers.Buffer, reloaded: Psis.Psi, directory: string, baseName: string, disk: Disk, names: Loader.Names)
    requires Layout(b)
    requires ReadsAsWritten(b, reloaded, directory, baseName, names)
    ensures Loader.FilesFit(reloaded, reloaded.psds, Saver.SaveFiles(b, b.psi.psds, directory, baseName, disk), names)
  {
    forall i | 0 <= i < |reloaded.psds|
      ensures
        var after := Saver.SaveFiles(b, b.psi.psds, directory, baseName, disk);
        names(reloaded, reloaded.psds[i]) in after ==> Fits(after[names(reloaded, reloaded.psds[i])], |reloaded.probes|)
    {
      SegmentReadsBack(b, reloaded, directory, baseName, disk, names, i);
    }
  }

  /** Segment i's file is on the disk and yields the rows `rows` holds
      from the rows of the segments before it on. */
  predicate SegmentMatches(psi: Psis.Psi, disk: Disk, names: Loader.Names, rows: seq<Record>, i: nat)
    requires i < |psi.psds|
  {
    var name := names(psi, psi.psds[i]);
    var start := Psds.TotalRows(psi.psds[..i]);
    var count := psi.psds[i].dataCount;
    && name in disk
    && Fits(disk[name], |psi.probes|)
    && 0 <= start && 0 <= count && start + count <= |rows|
    && Loader.SegmentRows(Some(disk[name]), count, |psi.probes|) == rows[start .. start + count]
  }

  /** When every segment yields its part of `rows`, the segments read one
      after another yield the start of `rows`. */
  lemma {:induction false} StreamOfMatchingSegments(psi: Psis.Psi, disk: Disk, names: Loader.Names, rows: seq<Record>, n: nat)
    requires Loader.FilesFit(psi, psi.psds, disk, names)
    requires forall i :: 0 <= i < |psi.psds| ==> SegmentMatches(psi, disk, names, rows, i)
    requires n <= |psi.psds|
    ensures Loader.FilesFit(psi, psi.psds[..n], disk, names)
    ensures 0 <= Psds.TotalRows(psi.psds[..n]) <= |rows|
    ensures Loader.StreamRows(psi, psi.psds[..n], disk, names) == rows[..Psds.TotalRows(psi.psds[..n])]
  {
    var psds := psi.psds;
    Loader.FilesFitSlice(psi, psds, disk, names, 0, n);
    assert psds[0..n] == psds[..n];
    if n == 0 {
      assert psds[..0] == [];
    } else {
      var i := n - 1;
      StreamOfMatchingSegments(psi, disk, names, rows, i);
      Loader.StreamStep(psi, disk, names, i);
      assert SegmentMatches(psi, disk, names, rows, i);
      assert psds[..n][..i] == psds[..i];
      var start := Psds.TotalRows(psds[..i]);
      var count := psds[i].dataCount;
      assert Psds.TotalRows(psds[..n]) == start + count;
      assert Loader.Lookup(disk, names(psi, psds[i])) == Some(disk[names(psi, psds[i])]);
      assert rows[..start + count] == rows[..start] + rows[start .. start + count];
    }
  }

  lemma AllSegmentsMatch(
    b: SampleBuffers.Buffer, reloaded: Psis.Psi, directory: string, baseName: string, disk: Disk, names: Loader.Names)
    requires Layout(b)
    requires ReadsAsWritten(b, reloaded, directory, baseName, names)
    ensures forall i :: 0 <= i < |reloaded.psds| ==>
      SegmentMatches(reloaded, Saver.SaveFiles(b, b.psi.psds, directory, baseName, disk), names, BufferRows(b), i)
  {
    forall i | 0 <= i < |reloaded.psds|
      ensures SegmentMatches(reloaded, Saver.SaveFiles(b, b.psi.psds, directory, baseName, disk), names, BufferRows(b), i)
    {
      SegmentReadsBack(b, reloaded, directory, baseName, disk, names, i);
    }
  }

  /** All the segments together read back as all the buffer's rows. */
  lemma SavedStream(
    b: SampleBuffers.Buffer, reloaded: Psis.Psi, directory: string, baseName: string, disk: Disk, names: Loader.Names)
    requires Layout(b) && Psds.TotalRows(b.psi.psds) == SampleBuffers.Size(b)
    requires ReadsAsWritten(b, reloaded, directory, baseName, names)
    ensures Loader.FilesFit(reloaded, reloaded.psds, Saver.SaveFiles(b, b.psi.psds, directory, baseName, disk), names)
    ensures Loader.StreamRows(reloaded, reloaded.psds, Saver.SaveFiles(b, b.psi.psds, directory, baseName, disk), names)
            == BufferRows(b)
  {
    var psds := b.psi.psds;
    var after := Saver.SaveFiles(b, psds, directory, baseName, disk);
    var rows := BufferRows(b);
    SavedFilesFit(b, reloaded, directory, baseName, disk, names);
    AllSegmentsMatch(b, reloaded, directory, baseName, disk, names);
    StreamOfMatchingSegments(reloaded, after, names, rows, |psds|);
    assert psds[..|psds|] == psds;
  }

  /** The metadata read back compares equal to the saved one, so it lists
      the same segments and probes. */
  lemma ReloadedAgrees(
    b: SampleBuffers.Buffer, reloaded: Psis.Psi, directory: string, baseName: string, names: Loader.Names)
    requires Psis.Equal(reloaded, b.psi)
    requires forall i :: 0 <= i < |b.psi.psds| ==>
      names(reloaded, b.psi.psds[i]) == WriterFilename(directory, baseName, b.psi.psds[i].id)
    ensures ReadsAsWritten(b, reloaded, directory, baseName, names)
    ensures reloaded.samplingRate == b.psi.samplingRate && reloaded.samplingCount == b.psi.samplingCount
  {
    assert reloaded.(filename := b.psi.filename) == b.psi;
  }

  /** The rows the load keeps from the saved files: with the window
      [0, length()], the first sampling_count + 1 of them. */
  lemma LoadedFromSaved(
    b: SampleBuffers.Buffer, reloaded: Psis.Psi, psiVersion: string, psdVersion: string, dataStreamCount: int,
    directory: string, baseName: string, disk: Disk, names: Loader.Names)
    requires Covered(b, psiVersion, psdVersion, dataStreamCount)
    requires b.beginTime == 0 && b.endTime == Psis.Length(b.psi)
    requires Psis.Equal(reloaded, b.psi)
    requires forall i :: 0 <= i < |b.psi.psds| ==>
      names(reloaded, b.psi.psds[i]) == WriterFilename(directory, baseName, b.psi.psds[i].id)
    ensures Psis.HasInterval(b.psi) && Psis.HasInterval(reloaded)
    ensures Saver.Check(b).None? && Saver.Writable(b) && SampleBuffers.Viewable(b)
    ensures Loader.FilesFit(reloaded, reloaded.psds, Saver.SaveSpec(b, directory, baseName, disk), names)
    ensures
      var rows := BufferRows(b);
      var kept := rows[..if |rows| <= b.psi.samplingCount + 1 then |rows| else b.psi.samplingCount + 1];
      Loader.LoadSpec(reloaded, 0, -1, Saver.SaveSpec(b, directory, baseName, disk), names)
      == SampleBuffers.Buffer(reloaded, 0, Psis.Length(b.psi), Loader.FlatValues(kept), Loader.FlatEvents(kept))
  {
    StorableFacts(b.psi, psiVersion, psdVersion, dataStreamCount);
    CoveredLayout(b, psiVersion, psdVersion, dataStreamCount);
    ReloadedAgrees(b, reloaded, directory, baseName, names);
    assert Psis.SamplingInterval(reloaded) == Psis.SamplingInterval(b.psi);
    assert Psis.Length(reloaded) == Psis.Length(b.psi);
    var after := Saver.SaveSpec(b, directory, baseName, disk);
    SavedStream(b, reloaded, directory, baseName, disk, names);
    var rows := BufferRows(b);
    var interval := Psis.SamplingInterval(b.psi);
    var last := Loader.EffectiveEnd(reloaded, -1);
    assert last == Psis.Length(b.psi);
    Loader.SelectIsWindow(rows, 0, last, interval);
    Psis.LengthIsWholeIntervals(b.psi, 0);
    assert Loader.RowLimit(last, interval) == b.psi.samplingCount + 1;
  }

  /** Load after save is the identity: when the metadata passes the
      validator, the first segment starts at the first row, the segments
      cover exactly the buffer's rows, the buffer spans [0, length()] and
      the reader finds each segment under the name the writer gave it, then
      load_samples(load_psi(...)) == samples for the files save_samples
      writes.  `reloaded` is the metadata read back, which compares equal
      to the buffer's. */
  lemma SaveLoadRoundTrip(
    b: SampleBuffers.Buffer, reloaded: Psis.Psi, psiVersion: string, psdVersion: string, dataStreamCount: int,
    directory: string, baseName: string, disk: Disk, names: Loader.Names)
    requires Storable(b.psi, psiVersion, psdVersion, dataStreamCount)
    requires SampleBuffers.WellFormed(b)
    requires Psds.TotalRows(b.psi.psds) == SampleBuffers.Size(b) <= b.psi.samplingCount + 1
    requires b.beginTime == 0 && b.endTime == Psis.Length(b.psi)
    requires Psis.Equal(reloaded, b.psi)
    requires forall i :: 0 <= i < |b.psi.psds| ==>
      names(reloaded, b.psi.psds[i]) == WriterFilename(directory, baseName, b.psi.psds[i].id)
    ensures Psis.HasInterval(b.psi) && Psis.HasInterval(reloaded)
    ensures Saver.Check(b).None? && Saver.Writable(b)
    ensures Loader.FilesFit(reloaded, reloaded.psds, Saver.SaveSpec(b, directory, baseName, disk), names)
    ensures SampleBuffers.Equal(Loader.LoadSpec(reloaded, 0, -1, Saver.SaveSpec(b, directory, baseName, disk), names), b)
  {
    LoadedFromSaved(b, reloaded, psiVersion, psdVersion, dataStreamCount, directory, baseName, disk, names);
    var rows := BufferRows(b);
    assert rows[..|rows|] == rows;
    FlatBufferRows(b);
    assert reloaded.(filename := b.psi.filename) == b.psi;
  }

  /** The iteration of the loaded buffer yields the saved buffer's rows. */
  lemma SaveLoadSameRows(
    b: SampleBuffers.Buffer, reloaded: Psis.Psi, psiVersion: string, psdVersion: string, dataStreamCount: int,
    directory: string, baseName: string, disk: Disk, names: Loader.Names)
    requires Storable(b.psi, psiVersion, psdVersion, dataStreamCount)
    requires SampleBuffers.WellFormed(b)
    requires Psds.TotalRows(b.psi.psds) == SampleBuffers.Size(b) <= b.psi.samplingCount + 1
    requires b.beginTime == 0 && b.endTime == Psis.Length(b.psi)
    requires Psis.Equal(reloaded, b.psi)
    requires forall i :: 0 <= i < |b.psi.psds| ==>
      names(reloaded, b.psi.psds[i]) == WriterFilename(directory, baseName, b.psi.psds[i].id)
    ensures Psis.HasInterval(b.psi) && Saver.Check(b).None? && Saver.Writable(b)
    ensures Loader.FilesFit(reloaded, reloaded.psds, Saver.SaveSpec(b, directory, baseName, disk), names)
    ensures
      var loaded := Loader.LoadSpec(reloaded, 0, -1, Saver.SaveSpec(b, directory, baseName, disk), names);
      SampleBuffers.Viewable(loaded) && SampleBuffers.Viewable(b)
      && SampleBuffers.Rows(loaded) == SampleBuffers.Rows(b)
  {
    SaveLoadRoundTrip(b, reloaded, psiVersion, psdVersion, dataStreamCount, directory, baseName, disk, names);
    StorableFacts(b.psi, psiVersion, psdVersion, dataStreamCount);
    var loaded := Loader.LoadSpec(reloaded, 0, -1, Saver.SaveSpec(b, directory, baseName, disk), names);
    SampleBuffers.WellFormedViewable(b);
    SampleBuffers.EqualBuffersSameRows(loaded, b);
  }

  /** The bound on the row count is needed: the window [0, length()] holds
      sampling_count + 1 rows, and a buffer with more rows does not load
      back whole. */
  lemma RoundTripNeedsRowBound(
    b: SampleBuffers.Buffer, reloaded: Psis.Psi, psiVersion: string, psdVersion: string, dataStreamCount: int,
    directory: string, baseName: string, disk: Disk, names: Loader.Names)
    requires Storable(b.psi, psiVersion, psdVersion, dataStreamCount)
    requires SampleBuffers.WellFormed(b)
    requires Psds.TotalRows(b.psi.psds) == SampleBuffers.Size(b) > b.psi.samplingCount + 1
    requires b.beginTime == 0 && b.endTime == Psis.Length(b.psi)
    requires Psis.Equal(reloaded, b.psi)
    requires forall i :: 0 <= i < |b.psi.psds| ==>
      names(reloaded, b.psi.psds[i]) == WriterFilename(directory, baseName, b.psi.psds[i].id)
    ensures Psis.HasInterval(b.psi) && Psis.HasInterval(reloaded)
    ensures Saver.Check(b).None? && Saver.Writable(b)
    ensures Loader.FilesFit(reloaded, reloaded.psds, Saver.SaveSpec(b, directory, baseName, disk), names)
    ensures !SampleBuffers.Equal(Loader.LoadSpec(reloaded, 0, -1, Saver.SaveSpec(b, directory, baseName, disk), names), b)
  {
    LoadedFromSaved(b, reloaded, psiVersion, psdVersion, dataStreamCount, directory, baseName, disk, names);
    var p := |b.psi.probes|;
    var rows := BufferRows(b);
    var kept := rows[..b.psi.samplingCount + 1];
    assert Loader.AllShaped(kept, p);
    Loader.FlatLength(kept, p);
    Arith.MulStrictMonotone(|kept|, |rows|, p);
    Arith.MulComm(|rows|, p);
  }
}
