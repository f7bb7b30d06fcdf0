/** save_samples: writes a buffer that covers a whole measurement back into
    its segment files, one fixed-size record per row, padding every file to
    at least 1 GiB.  (src/pslib/v1_0/save_samples.h) */
module Saver {
  import opened Wrappers
  import opened PsdFiles
  import Psis
  import Psds
  import SampleRows
  import SampleBuffers
  import Arith

  /** The two runtime_errors thrown before any file is written. */
  datatype SaveError = BeginsAfterOrigin | EndMismatch

  /** The checks, in order: begin_time must not be after 0 (a negative one
      passes), and end_time must be the measurement's length. */
  function Check(b: SampleBuffers.Buffer): (r: Option<SaveError>)
    requires b.beginTime <= 0 ==> b.psi.samplingRate > 0
    ensures r == Some(BeginsAfterOrigin) <==> b.beginTime > 0
    ensures r == Some(EndMismatch) <==> b.beginTime <= 0 && b.endTime != Psis.Length(b.psi)
    ensures r.None? <==> b.beginTime <= 0 && b.endTime == Psis.Length(b.psi)
  {
    if b.beginTime > 0 then Some(BeginsAfterOrigin)
    else if b.endTime != Psis.Length(b.psi) then Some(EndMismatch)
    else None
  }

  /** The buffer row a segment starts at: its offset is 1-based, and 0
      also means the first row. */
  function StartRow(psd: Psds.Psd): nat
  {
    if psd.offset > 0 then psd.offset - 1 else 0
  }

  lemma StartRowExamples()
    ensures StartRow(Psds.Psd(2, 501, 1000, 0)) == 500
    ensures StartRow(Psds.Psd(1, 1, 500, 0)) == 0
    ensures StartRow(Psds.Psd(1, 0, 500, 0)) == 0
  {
  }

  /** The rows a segment names lie inside the buffer, so that at() can view
      them (at() checks nothing, and a negative data_count would become a
      huge size_t). */
  predicate SegmentInBounds(b: SampleBuffers.Buffer, psd: Psds.Psd)
  {
    && psd.dataCount >= 0
    && (psd.dataCount > 0 ==> Psis.HasInterval(b.psi))
    && (StartRow(psd) + psd.dataCount) * |b.psi.probes| <= |b.values|
    && (StartRow(psd) + psd.dataCount) * (|b.psi.probes| + 1) <= |b.events|
  }

  predicate AllInBounds(b: SampleBuffers.Buffer, psds: seq<Psds.Psd>)
  {
    forall i :: 0 <= i < |psds| ==> SegmentInBounds(b, psds[i])
  }

  /** Every segment of the buffer's metadata can be written. */
  predicate Writable(b: SampleBuffers.Buffer)
  {
    AllInBounds(b, b.psi.psds)
  }

  lemma SegmentRowInBounds(b: SampleBuffers.Buffer, psd: Psds.Psd, i: nat)
    requires SegmentInBounds(b, psd) && i < psd.dataCount
    ensures Psis.HasInterval(b.psi)
    ensures SampleRows.RowInBounds(|b.psi.probes|, b.values, b.events, StartRow(psd) + i)
  {
    Arith.MulMonotone(StartRow(psd) + i + 1, StartRow(psd) + psd.dataCount, |b.psi.probes|);
    Arith.MulMonotone(StartRow(psd) + i + 1, StartRow(psd) + psd.dataCount, |b.psi.probes| + 1);
  }

  /** The record written for buffer row idx: at(idx)'s values, then its
      events. */
  function RowRecord(b: SampleBuffers.Buffer, idx: nat): (r: Record)
    requires Psis.HasInterval(b.psi)
    requires SampleRows.RowInBounds(|b.psi.probes|, b.values, b.events, idx)
    ensures Shaped(r, |b.psi.probes|)
  {
    var s := SampleBuffers.At(b, idx);
    Record(s.values, s.events)
  }

  /** The records of one segment: data_count rows from its start row. */
  function SegmentRecords(b: SampleBuffers.Buffer, psd: Psds.Psd): (records: seq<Record>)
    requires SegmentInBounds(b, psd)
    ensures |records| == psd.dataCount
  {
    seq(psd.dataCount, i requires 0 <= i < psd.dataCount =>
      SegmentRowInBounds(b, psd, i);
      RowRecord(b, StartRow(psd) + i))
  }

  /** The file a segment ends up as: its records, padded to 1 GiB when
      fewer bytes were written. */
  function WrittenFile(b: SampleBuffers.Buffer, psd: Psds.Psd): PsdFile
    requires SegmentInBounds(b, psd)
  {
    var written := psd.dataCount * RecordBytes(|b.psi.probes|);
    PsdFile(SegmentRecords(b, psd), if written < GiB then GiB else written)
  }

  /** The disk after the segments `psds` have been written, in order; a later
      segment with the same file name replaces an earlier one. */
  function SaveFiles(b: SampleBuffers.Buffer, psds: seq<Psds.Psd>, directory: string, baseName: string, disk: Disk): Disk
    requires AllInBounds(b, psds)
  {
    if |psds| == 0 then disk
    else
      var last := psds[|psds| - 1];
      SaveFiles(b, psds[..|psds| - 1], directory, baseName, disk)[WriterFilename(directory, baseName, last.id) := WrittenFile(b, last)]
  }

  /** What save_samples leaves on the disk. */
  function SaveSpec(b: SampleBuffers.Buffer, directory: string, baseName: string, disk: Disk): Disk
    requires b.beginTime <= 0 ==> b.psi.samplingRate > 0
    requires Check(b).None? ==> Writable(b)
  {
    if Check(b).Some? then disk else SaveFiles(b, b.psi.psds, directory, baseName, disk)
  }

  /** The writes of one row: each value, then each event, counting bytes. */
  method WriteRow(row: SampleRows.Sample) returns (record: Record, bytes: nat)
    ensures record == Record(row.values, row.events)
    ensures bytes == DataStreamBytes * |row.values| + EventBytes * |row.events|
  {
    record, bytes := Record([], []), 0;
    for k := 0 to |row.values|
      invariant record == Record(row.values[..k], [])
      invariant bytes == DataStreamBytes * k
    {
      record := record.(values := record.values + [row.values[k]]);
      bytes := bytes + DataStreamBytes;
    }
    assert row.values[..|row.values|] == row.values;
    for k := 0 to |row.events|
      invariant record == Record(row.values, row.events[..k])
      invariant bytes == DataStreamBytes * |row.values| + EventBytes * k
    {
      record := record.(events := record.events + [row.events[k]]);
      bytes := bytes + EventBytes;
    }
    assert row.events[..|row.events|] == row.events;
  }

  lemma SegmentRecordAt(b: SampleBuffers.Buffer, psd: Psds.Psd, i: nat)
    requires SegmentInBounds(b, psd) && i < psd.dataCount
    ensures Psis.HasInterval(b.psi)
    ensures SampleRows.RowInBounds(|b.psi.probes|, b.values, b.events, StartRow(psd) + i)
    ensures SegmentRecords(b, psd)[i] == RowRecord(b, StartRow(psd) + i)
  {
    SegmentRowInBounds(b, psd, i);
  }

  /** The rows of one segment: returns its records and the bytes written. */
  method WriteSegment(samples: SampleBuffers.Samples, psd: Psds.Psd) returns (records: seq<Record>, written: nat)
    requires SegmentInBounds(samples.Value(), psd)
    ensures records == SegmentRecords(samples.Value(), psd)
    ensures written == psd.dataCount * RecordBytes(|samples.psi.probes|)
  {
    var b := samples.Value();
    var p := |samples.psi.probes|;
    records, written := [], 0;
    var i := 0;
    while i < psd.dataCount
      invariant 0 <= i <= psd.dataCount
      invariant records == SegmentRecords(b, psd)[..i]
      invariant written == RecordBytes(p) * i
    {
      var index := i + StartRow(psd);
      SegmentRecordAt(b, psd, i);
      var row := SampleBuffers.At(b, index);
      var record, bytes := WriteRow(row);
      assert SegmentRecords(b, psd)[..i + 1] == records + [record];
      records := records + [record];
      written := written + bytes;
      Arith.MulPred(RecordBytes(p), i + 1);
      i := i + 1;
    }
    assert records == SegmentRecords(b, psd);
    Arith.MulComm(RecordBytes(p), psd.dataCount);
  }

  /** One segment's file: its name and the records written, padded to
      1 GiB when fewer bytes were written. */
  method WriteFile(samples: SampleBuffers.Samples, psd: Psds.Psd, directory: string, baseName: string)
    returns (name: string, file: PsdFile)
    requires SegmentInBounds(samples.Value(), psd)
    ensures name == WriterFilename(directory, baseName, psd.id)
    ensures file == WrittenFile(samples.Value(), psd)
  {
    name := WriterFilename(directory, baseName, psd.id);
    var records, written := WriteSegment(samples, psd);
    var size := if written < GiB then GiB else written;
    file := PsdFile(records, size);
  }

  /** save_samples(samples, directory, base_name) applied to `disk`; an
      exception is returned as `error`, with the disk untouched. */
  method SaveSamples(samples: SampleBuffers.Samples, directory: string, baseName: string, disk: Disk)
    returns (after: Disk, error: Option<SaveError>)
    requires samples.beginTime <= 0 ==> samples.psi.samplingRate > 0
    requires Check(samples.Value()).None? ==> Writable(samples.Value())
    ensures error == Check(samples.Value())
    ensures after == SaveSpec(samples.Value(), directory, baseName, disk)
  {
    var b := samples.Value();
    if b.beginTime > 0 {
      return disk, Some(BeginsAfterOrigin);
    }
    if b.endTime != Psis.Length(b.psi) {
      return disk, Some(EndMismatch);
    }
    error := None;
    var psds := b.psi.psds;
    after := disk;
    var s := 0;
    while s < |psds|
      invariant 0 <= s <= |psds|
      invariant after == SaveFiles(b, psds[..s], directory, baseName, disk)
    {
      assert SegmentInBounds(b, psds[s]);
      var name, file := WriteFile(samples, psds[s], directory, baseName);
      SaveFilesStep(b, psds, directory, baseName, disk, s);
      after := after[name := file];
      s := s + 1;
    }
    assert psds[..s] == psds;
  }

  /** Every record written for a segment is a row of p values and p+1
      events. */
  lemma SegmentRecordsShaped(b: SampleBuffers.Buffer, psd: Psds.Psd)
    requires SegmentInBounds(b, psd)
    ensures forall j :: 0 <= j < psd.dataCount ==> Shaped(SegmentRecords(b, psd)[j], |b.psi.probes|)
  {
    forall j | 0 <= j < psd.dataCount
      ensures Shaped(SegmentRecords(b, psd)[j], |b.psi.probes|)
    {
      SegmentRowInBounds(b, psd, j);
      assert SegmentRecords(b, psd)[j] == RowRecord(b, StartRow(psd) + j);
    }
  }

  /** A written file holds its segment's rows in order, padded with zeros to
      at least 1 GiB: exactly 1 GiB when less was written, and otherwise
      exactly the bytes written. */
  lemma WrittenFileSize(b: SampleBuffers.Buffer, psd: Psds.Psd)
    requires SegmentInBounds(b, psd)
    ensures
      var f := WrittenFile(b, psd);
      var p := |b.psi.probes|;
      && Fits(f, p)
      && f.size >= GiB
      && f.size >= psd.dataCount * RecordBytes(p)
      && (f.size > GiB ==> f.size == psd.dataCount * RecordBytes(p))
      && psd.dataCount <= CompleteRows(f, p)
  {
    SegmentRecordsShaped(b, psd);
    WrittenRowsComplete(WrittenFile(b, psd), |b.psi.probes|);
  }

  /** The padding leaves the written records unchanged: row j of a written
      file reads back as the buffer row it was written from. */
  lemma WrittenRow(b: SampleBuffers.Buffer, psd: Psds.Psd, j: nat)
    requires SegmentInBounds(b, psd) && j < psd.dataCount
    ensures Psis.HasInterval(b.psi)
    ensures SampleRows.RowInBounds(|b.psi.probes|, b.values, b.events, StartRow(psd) + j)
    ensures Fits(WrittenFile(b, psd), |b.psi.probes|)
    ensures RecordAt(WrittenFile(b, psd), |b.psi.probes|, j) == RowRecord(b, StartRow(psd) + j)
  {
    SegmentRowInBounds(b, psd, j);
    WrittenFileSize(b, psd);
  }

  /** Writing one more segment updates one more file. */
  lemma SaveFilesStep(b: SampleBuffers.Buffer, psds: seq<Psds.Psd>, directory: string, baseName: string, disk: Disk, s: nat)
    requires AllInBounds(b, psds)
    requires s < |psds|
    ensures AllInBounds(b, psds[..s]) && AllInBounds(b, psds[..s + 1])
    ensures SaveFiles(b, psds[..s + 1], directory, baseName, disk)
            == SaveFiles(b, psds[..s], directory, baseName, disk)[WriterFilename(directory, baseName, psds[s].id) := WrittenFile(b, psds[s])]
  {
    assert psds[..s + 1][..s] == psds[..s];
    assert forall k :: 0 <= k < s + 1 ==> psds[..s + 1][k] == psds[k];
  }

  /** With distinct segment ids, every segment's file holds that segment's
      rows after the save, whatever came after it. */
  lemma {:induction false} SaveFilesLookup(b: SampleBuffers.Buffer, psds: seq<Psds.Psd>, directory: string, baseName: string, disk: Disk, i: nat)
    requires AllInBounds(b, psds)
    requires forall k, m :: 0 <= k < m < |psds| ==> psds[k].id != psds[m].id
    requires i < |psds|
    ensures WriterFilename(directory, baseName, psds[i].id) in SaveFiles(b, psds, directory, baseName, disk)
    ensures SaveFiles(b, psds, directory, baseName, disk)[WriterFilename(directory, baseName, psds[i].id)] == WrittenFile(b, psds[i])
  {
    var k := |psds| - 1;
    if i < k {
      SaveFilesLookup(b, psds[..k], directory, baseName, disk, i);
      if WriterFilename(directory, baseName, psds[i].id) == WriterFilename(directory, baseName, psds[k].id) {
        WriterFilenameInjective(directory, baseName, psds[i].id, psds[k].id);
      }
    }
  }

  /** Files the save does not write are left as they were. */
  lemma {:induction false} SaveFilesElsewhere(b: SampleBuffers.Buffer, psds: seq<Psds.Psd>, directory: string, baseName: string, disk: Disk, name: string)
    requires AllInBounds(b, psds)
    requires forall k :: 0 <= k < |psds| ==> name != WriterFilename(directory, baseName, psds[k].id)
    ensures name in SaveFiles(b, psds, directory, baseName, disk) <==> name in disk
    ensures name in disk ==> SaveFiles(b, psds, directory, baseName, disk)[name] == disk[name]
  {
    if |psds| > 0 {
      SaveFilesElsewhere(b, psds[..|psds| - 1], directory, baseName, disk, name);
    }
  }
}
