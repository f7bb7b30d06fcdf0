/** load_samples: reads the segment files of a measurement in list order
    with one running time cursor, skipping the rows before the window,
    keeping the rows inside it and stopping at the first row after it.
    (src/pslib/v1_0/load_samples.h) */
module Loader {
  import opened Wrappers
  import opened PsdFiles
  import Psis
  import Psds
  import SampleBuffers
  import Arith

  /** psd_filename(psi, psd): the name under which the reader looks for a
      segment's file.  Its definition is not part of this model. */
  type Names = (Psis.Psi, Psds.Psd) -> string

  /** Opening a file: present on the disk or not. */
  function Lookup(disk: Disk, name: string): Option<PsdFile>
  {
    if name in disk then Some(disk[name]) else None
  }

  /** Every file the reader opens holds records of p probes. */
  predicate FilesFit(psi: Psis.Psi, psds: seq<Psds.Psd>, disk: Disk, names: Names)
  {
    forall i :: 0 <= i < |psds| ==>
      names(psi, psds[i]) in disk ==> Fits(disk[names(psi, psds[i])], |psi.probes|)
  }

  lemma FilesFitSlice(psi: Psis.Psi, psds: seq<Psds.Psd>, disk: Disk, names: Names, lo: nat, hi: nat)
    requires FilesFit(psi, psds, disk, names) && lo <= hi <= |psds|
    ensures FilesFit(psi, psds[lo..hi], disk, names)
  {
    forall i | 0 <= i < hi - lo
      ensures names(psi, psds[lo..hi][i]) in disk ==> Fits(disk[names(psi, psds[lo..hi][i])], |psi.probes|)
    {
      assert psds[lo..hi][i] == psds[lo + i];
    }
  }

  /** How many rows one segment yields.  No file: none.  Otherwise
      data_count rows while the file has that many complete records;
      when it has fewer (or data_count is negative, which the countdown
      never brings to zero) the read of the first missing record still
      yields a row, and the stream then fails. */
  function SegmentLength(file: Option<PsdFile>, dataCount: int, p: nat): nat
  {
    if file.None? then 0
    else
      var complete := CompleteRows(file.value, p);
      if 0 <= dataCount <= complete then dataCount else complete + 1
  }

  /** The rows one segment yields, in file order. */
  function SegmentRows(file: Option<PsdFile>, dataCount: int, p: nat): (rows: seq<Record>)
    requires file.Some? ==> Fits(file.value, p)
    ensures |rows| == SegmentLength(file, dataCount, p)
    ensures forall j :: 0 <= j < |rows| ==> Shaped(rows[j], p)
  {
    if file.None? then []
    else
      var n := SegmentLength(file, dataCount, p);
      seq(n, j requires 0 <= j < n => RecordAt(file.value, p, j))
  }

  /** Every row the cursor passes over, segment after segment. */
  function StreamRows(psi: Psis.Psi, psds: seq<Psds.Psd>, disk: Disk, names: Names): (rows: seq<Record>)
    requires FilesFit(psi, psds, disk, names)
    ensures forall j :: 0 <= j < |rows| ==> Shaped(rows[j], |psi.probes|)
    decreases |psds|
  {
    if |psds| == 0 then []
    else
      var last := psds[|psds| - 1];
      FilesFitSlice(psi, psds, disk, names, 0, |psds| - 1);
      StreamRows(psi, psds[..|psds| - 1], disk, names)
        + SegmentRows(Lookup(disk, names(psi, last)), last.dataCount, |psi.probes|)
  }

  /** The stream of a non-empty list is the stream without its last segment
      followed by that segment's rows. */
  lemma StreamUnfold(psi: Psis.Psi, psds: seq<Psds.Psd>, disk: Disk, names: Names)
    requires FilesFit(psi, psds, disk, names) && |psds| > 0
    ensures FilesFit(psi, psds[..|psds| - 1], disk, names)
    ensures
      var last := psds[|psds| - 1];
      StreamRows(psi, psds, disk, names)
        == StreamRows(psi, psds[..|psds| - 1], disk, names)
           + SegmentRows(Lookup(disk, names(psi, last)), last.dataCount, |psi.probes|)
  {
    FilesFitSlice(psi, psds, disk, names, 0, |psds| - 1);
  }

  lemma {:induction false} StreamRowsAppend(psi: Psis.Psi, a: seq<Psds.Psd>, b: seq<Psds.Psd>, disk: Disk, names: Names)
    requires FilesFit(psi, a + b, disk, names)
    ensures FilesFit(psi, a, disk, names) && FilesFit(psi, b, disk, names)
    ensures StreamRows(psi, a + b, disk, names) == StreamRows(psi, a, disk, names) + StreamRows(psi, b, disk, names)
    decreases |b|
  {
    FilesFitSlice(psi, a + b, disk, names, 0, |a|);
    FilesFitSlice(psi, a + b, disk, names, |a|, |a + b|);
    assert (a + b)[..|a|] == a;
    assert (a + b)[|a|..] == b;
    if |b| > 0 {
      var init := b[..|b| - 1];
      assert (a + b)[..|a + b| - 1] == a + init;
      assert (a + b)[|a + b| - 1] == b[|b| - 1];
      StreamUnfold(psi, a + b, disk, names);
      StreamUnfold(psi, b, disk, names);
      StreamRowsAppend(psi, a, init, disk, names);
      var last := b[|b| - 1];
      AppendAssoc(StreamRows(psi, a, disk, names), StreamRows(psi, init, disk, names),
                  SegmentRows(Lookup(disk, names(psi, last)), last.dataCount, |psi.probes|));
    } else {
      assert a + b == a;
    }
  }

  lemma AppendAssoc<T>(x: seq<T>, y: seq<T>, z: seq<T>)
    ensures (x + y) + z == x + (y + z)
  {
  }

  /** The row with global index k lies in the window: the cursor k*interval
      is neither before begin nor after end (both ends included). */
  predicate InWindow(k: nat, begin: int, end: int, interval: nat)
  {
    begin <= k * interval <= end
  }

  /** The rows kept: those whose global index lies in the window, in order. */
  function Select(rows: seq<Record>, begin: int, end: int, interval: nat): (kept: seq<Record>)
    ensures |kept| <= |rows|
  {
    if |rows| == 0 then []
    else
      var k := |rows| - 1;
      Select(rows[..k], begin, end, interval) + (if InWindow(k, begin, end, interval) then [rows[k]] else [])
  }

  /** The values appended for a sequence of rows: each row's p values in
      turn. */
  function FlatValues(rows: seq<Record>): seq<DataStreams.DataStream>
  {
    if |rows| == 0 then [] else FlatValues(rows[..|rows| - 1]) + rows[|rows| - 1].values
  }

  /** The events appended for a sequence of rows: each row's p+1 events. */
  function FlatEvents(rows: seq<Record>): seq<Events.Event>
  {
    if |rows| == 0 then [] else FlatEvents(rows[..|rows| - 1]) + rows[|rows| - 1].events
  }

  /** The buffer after the rows `rows` have been processed. */
  function Loaded(psi: Psis.Psi, begin: int, end: int, rows: seq<Record>): SampleBuffers.Buffer
    requires Psis.HasInterval(psi)
  {
    var kept := Select(rows, begin, end, Psis.SamplingInterval(psi));
    SampleBuffers.Buffer(psi, begin, end, FlatValues(kept), FlatEvents(kept))
  }

  /** An end of -1 or less stands for the whole measurement. */
  function EffectiveEnd(psi: Psis.Psi, end: int): int
    requires psi.samplingRate > 0
  {
    if end <= -1 then Psis.Length(psi) else end
  }

  /** What load_samples(psi, begin, end) returns when its samples_t
      constructor does not throw. */
  function LoadSpec(psi: Psis.Psi, begin: int, end: int, disk: Disk, names: Names): SampleBuffers.Buffer
    requires Psis.HasInterval(psi)
    requires FilesFit(psi, psi.psds, disk, names)
  {
    Loaded(psi, begin, EffectiveEnd(psi, end), StreamRows(psi, psi.psds, disk, names))
  }

  /** The default window, from 0 to length(), never makes the constructor
      throw; nor does any window whose end is not before its begin. */
  lemma DefaultWindowReservable(psi: Psis.Psi, begin: int, end: int)
    requires Psis.HasInterval(psi)
    ensures SampleBuffers.Reservable(psi, 0, EffectiveEnd(psi, -1))
    ensures begin <= EffectiveEnd(psi, end) ==> SampleBuffers.Reservable(psi, begin, EffectiveEnd(psi, end))
  {
  }

  /** Once the cursor is past the end, no later row is kept. */
  lemma {:induction false} SelectStopsAfterEnd(a: seq<Record>, b: seq<Record>, begin: int, end: int, interval: nat)
    requires interval > 0 && |a| * interval > end
    ensures Select(a + b, begin, end, interval) == Select(a, begin, end, interval)
    decreases |b|
  {
    if |b| == 0 {
      assert a + b == a;
    } else {
      var k := |a + b| - 1;
      assert (a + b)[..k] == a + b[..|b| - 1];
      SelectStopsAfterEnd(a, b[..|b| - 1], begin, end, interval);
      Arith.MulMonotone(|a|, k, interval);
    }
  }

  /** The segments before s, then the first pos rows of segment s, are the
      start of the whole stream. */
  lemma StreamPrefix(psi: Psis.Psi, disk: Disk, names: Names, s: nat, pos: nat)
    requires FilesFit(psi, psi.psds, disk, names) && s < |psi.psds|
    requires pos <= SegmentLength(Lookup(disk, names(psi, psi.psds[s])), psi.psds[s].dataCount, |psi.probes|)
    ensures FilesFit(psi, psi.psds[..s], disk, names)
    ensures
      var segment := SegmentRows(Lookup(disk, names(psi, psi.psds[s])), psi.psds[s].dataCount, |psi.probes|);
      StreamRows(psi, psi.psds[..s], disk, names) + segment[..pos] <= StreamRows(psi, psi.psds, disk, names)
  {
    var psds := psi.psds;
    FilesFitSlice(psi, psds, disk, names, 0, s);
    FilesFitSlice(psi, psds, disk, names, 0, s + 1);
    var segment := SegmentRows(Lookup(disk, names(psi, psds[s])), psds[s].dataCount, |psi.probes|);
    assert psds[..s + 1][..s] == psds[..s];
    assert StreamRows(psi, psds[..s + 1], disk, names) == StreamRows(psi, psds[..s], disk, names) + segment;
    assert psds == psds[..s + 1] + psds[s + 1..];
    StreamRowsAppend(psi, psds[..s + 1], psds[s + 1..], disk, names);
    assert segment == segment[..pos] + segment[pos..];
  }

  /** The stream up to segment s+1 is the stream up to s followed by the
      rows of segment s. */
  lemma StreamStep(psi: Psis.Psi, disk: Disk, names: Names, s: nat)
    requires FilesFit(psi, psi.psds, disk, names) && s < |psi.psds|
    ensures FilesFit(psi, psi.psds[..s], disk, names) && FilesFit(psi, psi.psds[..s + 1], disk, names)
    ensures StreamRows(psi, psi.psds[..s + 1], disk, names)
            == StreamRows(psi, psi.psds[..s], disk, names)
               + SegmentRows(Lookup(disk, names(psi, psi.psds[s])), psi.psds[s].dataCount, |psi.probes|)
  {
    FilesFitSlice(psi, psi.psds, disk, names, 0, s);
    FilesFitSlice(psi, psi.psds, disk, names, 0, s + 1);
    assert psi.psds[..s + 1][..s] == psi.psds[..s];
  }

  /** The early return: when the row after the first `taken` rows of segment
      s is past the end, what has been kept so far is the whole result. */
  lemma StoppedAfterEnd(psi: Psis.Psi, begin: int, last: int, disk: Disk, names: Names, s: nat, taken: nat)
    requires Psis.HasInterval(psi)
    requires FilesFit(psi, psi.psds, disk, names) && s < |psi.psds|
    requires taken <= SegmentLength(Lookup(disk, names(psi, psi.psds[s])), psi.psds[s].dataCount, |psi.probes|)
    requires FilesFit(psi, psi.psds[..s], disk, names)
    requires
      (|StreamRows(psi, psi.psds[..s], disk, names)| + taken) * Psis.SamplingInterval(psi) > last
    ensures
      var segment := SegmentRows(Lookup(disk, names(psi, psi.psds[s])), psi.psds[s].dataCount, |psi.probes|);
      Loaded(psi, begin, last, StreamRows(psi, psi.psds[..s], disk, names) + segment[..taken])
        == Loaded(psi, begin, last, StreamRows(psi, psi.psds, disk, names))
  {
    var segment := SegmentRows(Lookup(disk, names(psi, psi.psds[s])), psi.psds[s].dataCount, |psi.probes|);
    StreamPrefix(psi, disk, names, s, taken);
    var all := StreamRows(psi, psi.psds, disk, names);
    var done := StreamRows(psi, psi.psds[..s], disk, names) + segment[..taken];
    assert all == done + all[|done|..];
    SelectStopsAfterEnd(done, all[|done|..], begin, last, Psis.SamplingInterval(psi));
  }

  /** The segment's rows up to pos+1 extend those up to pos by one. */
  lemma ExtendProcessed(start: seq<Record>, segment: seq<Record>, pos: nat)
    requires pos < |segment|
    ensures start + segment[..pos + 1] == (start + segment[..pos]) + [segment[pos]]
  {
    assert segment[..pos + 1] == segment[..pos] + [segment[pos]];
  }

  /** Processing one more row: it is appended exactly when it lies in the
      window. */
  lemma LoadedStep(psi: Psis.Psi, begin: int, end: int, rows: seq<Record>, record: Record)
    requires Psis.HasInterval(psi)
    ensures
      var before := Loaded(psi, begin, end, rows);
      Loaded(psi, begin, end, rows + [record])
        == if InWindow(|rows|, begin, end, Psis.SamplingInterval(psi))
           then before.(values := before.values + record.values, events := before.events + record.events)
           else before
  {
    var interval := Psis.SamplingInterval(psi);
    var kept := Select(rows, begin, end, interval);
    assert (rows + [record])[..|rows|] == rows;
    if InWindow(|rows|, begin, end, interval) {
      assert Select(rows + [record], begin, end, interval) == kept + [record];
      FlatAppend(kept, record);
    } else {
      assert Select(rows + [record], begin, end, interval) == kept;
    }
  }

  lemma FlatAppend(rows: seq<Record>, record: Record)
    ensures FlatValues(rows + [record]) == FlatValues(rows) + record.values
    ensures FlatEvents(rows + [record]) == FlatEvents(rows) + record.events
  {
    assert (rows + [record])[..|rows|] == rows;
  }

  /** The two push_back loops of a kept row: its p values, then its p+1
      events. */
  method AppendRow(samples: SampleBuffers.Samples, record: Record)
    modifies samples
    ensures samples.Value() == old(samples.Value()).(values := old(samples.values) + record.values, events := old(samples.events) + record.events)
  {
    var values0, events0 := samples.values, samples.events;
    for i := 0 to |record.values|
      invariant samples.Value() == old(samples.Value()).(values := values0 + record.values[..i])
    {
      samples.values := samples.values + [record.values[i]];
    }
    assert record.values[..|record.values|] == record.values;
    for i := 0 to |record.events|
      invariant samples.Value() == old(samples.Value()).(values := values0 + record.values, events := events0 + record.events[..i])
    {
      samples.events := samples.events + [record.events[i]];
    }
    assert record.events[..|record.events|] == record.events;
  }

  /** The countdown and the stream state together allow one more row
      exactly while the segment has rows left. */
  lemma SegmentGuard(file: Option<PsdFile>, dataCount: int, p: nat, pos: nat)
    requires pos <= SegmentLength(file, dataCount, p)
    ensures (file.Some? && pos <= CompleteRows(file.value, p) && dataCount - pos != 0)
            <==> pos < SegmentLength(file, dataCount, p)
  {
  }

  lemma SegmentRowAt(file: Option<PsdFile>, dataCount: int, p: nat, j: nat)
    requires file.Some? && Fits(file.value, p)
    requires j < SegmentLength(file, dataCount, p)
    ensures SegmentRows(file, dataCount, p)[j] == RecordAt(file.value, p, j)
  {
  }

  /** The body of the loop over the segments: reads the rows of one file
      while the stream is good and the countdown has not reached zero.
      `taken` is the number of rows processed; `finished` reports the early
      return of load_samples at the first row after the window. */
  method ReadSegment(samples: SampleBuffers.Samples, psi: Psis.Psi, begin: int, last: int,
                     file: Option<PsdFile>, dataCount: int, ghost start: seq<Record>, current: int)
    returns (next: int, finished: bool, ghost taken: nat)
    requires Psis.HasInterval(psi)
    requires file.Some? ==> Fits(file.value, |psi.probes|)
    requires samples.Value() == Loaded(psi, begin, last, start)
    requires current == |start| * Psis.SamplingInterval(psi)
    modifies samples
    ensures taken <= SegmentLength(file, dataCount, |psi.probes|)
    ensures !finished ==> taken == SegmentLength(file, dataCount, |psi.probes|)
    ensures finished ==> (|start| + taken) * Psis.SamplingInterval(psi) > last
    ensures next == (|start| + taken) * Psis.SamplingInterval(psi)
    ensures samples.Value() == Loaded(psi, begin, last, start + SegmentRows(file, dataCount, |psi.probes|)[..taken])
  {
    var interval := Psis.SamplingInterval(psi);
    var p := |psi.probes|;
    ghost var segment := SegmentRows(file, dataCount, p);
    ghost var n := SegmentLength(file, dataCount, p);
    ghost var processed := start;
    var good := file.Some?;
    var pos := 0;
    var count := dataCount;
    next, finished := current, false;
    while good && count != 0
      invariant 0 <= pos <= n
      invariant count == dataCount - pos
      invariant good <==> (file.Some? && pos <= CompleteRows(file.value, p))
      invariant processed == start + segment[..pos]
      invariant next == |processed| * interval
      invariant samples.Value() == Loaded(psi, begin, last, processed)
      decreases n - pos
    {
      SegmentGuard(file, dataCount, p, pos);
      count := count - 1;
      var record := RecordAt(file.value, p, pos);
      SegmentRowAt(file, dataCount, p, pos);
      if next < begin {
        // ignore(): the record is skipped
      } else if next > last {
        finished, taken := true, pos;
        return;
      } else {
        AppendRow(samples, record);
      }
      LoadedStep(psi, begin, last, processed, record);
      ExtendProcessed(start, segment, pos);
      Arith.MulSucc(|processed|, interval);
      processed := processed + [record];
      next := next + interval;
      pos := pos + 1;
      good := pos <= CompleteRows(file.value, p);
    }
    SegmentGuard(file, dataCount, p, pos);
    taken := pos;
  }

  /** load_samples(psi, begin, end) over the files on `disk`.  None is the
      std::length_error the samples_t constructor throws for a window whose
      end lies one interval or more before its begin. */
  method LoadSamples(psi: Psis.Psi, begin: int, end: int, disk: Disk, names: Names)
    returns (r: Option<SampleBuffers.Samples>)
    requires Psis.HasInterval(psi)
    requires FilesFit(psi, psi.psds, disk, names)
    ensures r.None? <==> !SampleBuffers.Reservable(psi, begin, EffectiveEnd(psi, end))
    ensures r.Some? ==> fresh(r.value) && r.value.Value() == LoadSpec(psi, begin, end, disk, names)
  {
    var last := EffectiveEnd(psi, end);
    if !SampleBuffers.Reservable(psi, begin, last) {
      return None;
    }
    var samples := new SampleBuffers.Samples(psi, begin, last);
    var current := 0;
    ghost var processed: seq<Record> := [];
    var s := 0;
    while s < |psi.psds|
      invariant 0 <= s <= |psi.psds|
      invariant FilesFit(psi, psi.psds[..s], disk, names)
      invariant processed == StreamRows(psi, psi.psds[..s], disk, names)
      invariant current == |processed| * Psis.SamplingInterval(psi)
      invariant samples.Value() == Loaded(psi, begin, last, processed)
      invariant fresh(samples)
    {
      var psd := psi.psds[s];
      var name := names(psi, psd);
      var file := Lookup(disk, name);
      var finished;
      ghost var taken;
      current, finished, taken := ReadSegment(samples, psi, begin, last, file, psd.dataCount, processed, current);
      if finished {
        StoppedAfterEnd(psi, begin, last, disk, names, s, taken);
        return Some(samples);
      }
      ghost var segment := SegmentRows(file, psd.dataCount, |psi.probes|);
      assert segment[..taken] == segment;
      ghost var extended := processed + segment[..taken];
      assert samples.Value() == Loaded(psi, begin, last, extended);
      assert current == |extended| * Psis.SamplingInterval(psi);
      StreamStep(psi, disk, names, s);
      assert extended == StreamRows(psi, psi.psds[..s + 1], disk, names);
      processed := extended;
      s := s + 1;
    }
    assert psi.psds[..s] == psi.psds;
    r := Some(samples);
  }

  /** The first global row whose cursor is not before begin. */
  function FirstRow(begin: int, interval: nat): nat
    requires interval > 0
  {
    if begin <= 0 then 0 else (begin + interval - 1) / interval
  }

  /** One past the last global row whose cursor is not after end. */
  function RowLimit(end: int, interval: nat): nat
    requires interval > 0
  {
    if end < 0 then 0 else end / interval + 1
  }

  /** The window as a range of global row indices. */
  lemma WindowBounds(k: nat, begin: int, end: int, interval: nat)
    requires interval > 0
    ensures InWindow(k, begin, end, interval) <==> FirstRow(begin, interval) <= k < RowLimit(end, interval)
  {
    Arith.MulMonotone(0, k, interval);
    if begin > 0 {
      Arith.CeilDivBound(k, begin, interval);
    }
    if end >= 0 {
      Arith.FloorDivBound(k, end, interval);
    }
  }

  /** The window clipped to a stream of n rows: [WindowStart, WindowStop). */
  function WindowStart(n: nat, begin: int, interval: nat): (lo: nat)
    requires interval > 0
    ensures lo <= n
  {
    if FirstRow(begin, interval) < n then FirstRow(begin, interval) else n
  }

  function WindowStop(n: nat, begin: int, end: int, interval: nat): (hi: nat)
    requires interval > 0
    ensures WindowStart(n, begin, interval) <= hi <= n
  {
    var lo := WindowStart(n, begin, interval);
    var limit := if RowLimit(end, interval) < n then RowLimit(end, interval) else n;
    if limit < lo then lo else limit
  }

  /** Selecting the rows in the window is taking one contiguous slice of
      the stream. */
  lemma {:induction false} SelectIsWindow(rows: seq<Record>, begin: int, end: int, interval: nat)
    requires interval > 0
    ensures Select(rows, begin, end, interval)
            == rows[WindowStart(|rows|, begin, interval) .. WindowStop(|rows|, begin, end, interval)]
  {
    if |rows| > 0 {
      var k := |rows| - 1;
      var init := rows[..k];
      SelectIsWindow(init, begin, end, interval);
      WindowBounds(k, begin, end, interval);
      var lo, hi := WindowStart(k, begin, interval), WindowStop(k, begin, end, interval);
      assert init[lo..hi] == rows[lo..hi];
      if InWindow(k, begin, end, interval) {
        assert rows[lo..hi + 1] == rows[lo..hi] + [rows[k]];
      }
    }
  }

  /** The rows kept by a load are exactly the global rows whose cursor lies
      in the window, in stream order. */
  lemma LoadWindow(psi: Psis.Psi, begin: int, end: int, disk: Disk, names: Names)
    requires Psis.HasInterval(psi)
    requires FilesFit(psi, psi.psds, disk, names)
    ensures
      var interval := Psis.SamplingInterval(psi);
      var last := EffectiveEnd(psi, end);
      var rows := StreamRows(psi, psi.psds, disk, names);
      var kept := Select(rows, begin, last, interval);
      var lo, hi := WindowStart(|rows|, begin, interval), WindowStop(|rows|, begin, last, interval);
      && |kept| == hi - lo
      && (forall i :: 0 <= i < |kept| ==> kept[i] == rows[lo + i])
      && (forall k: nat :: k < |rows| ==> (InWindow(k, begin, last, interval) <==> lo <= k < hi))
  {
    var interval := Psis.SamplingInterval(psi);
    var last := EffectiveEnd(psi, end);
    var rows := StreamRows(psi, psi.psds, disk, names);
    SelectIsWindow(rows, begin, last, interval);
    forall k: nat | k < |rows|
      ensures InWindow(k, begin, last, interval)
              <==> WindowStart(|rows|, begin, interval) <= k < WindowStop(|rows|, begin, last, interval)
    {
      WindowBounds(k, begin, last, interval);
    }
  }

  predicate AllShaped(rows: seq<Record>, p: nat)
  {
    forall r :: 0 <= r < |rows| ==> Shaped(rows[r], p)
  }

  /** Flattening rows of p probes gives p values and p+1 events per row. */
  lemma {:induction false} FlatLength(rows: seq<Record>, p: nat)
    requires AllShaped(rows, p)
    ensures |FlatValues(rows)| == |rows| * p
    ensures |FlatEvents(rows)| == |rows| * (p + 1)
  {
    if |rows| > 0 {
      var k := |rows| - 1;
      FlatLength(rows[..k], p);
      assert Shaped(rows[k], p);
      assert |FlatValues(rows)| == k * p + p == (k + 1) * p;
      assert |FlatEvents(rows)| == k * (p + 1) + (p + 1) == (k + 1) * (p + 1);
    }
  }

  /** Row i of the flattened values is the i-th row's values. */
  lemma {:induction false} FlatValuesAt(rows: seq<Record>, p: nat, i: nat, j: nat)
    requires AllShaped(rows, p)
    requires i < |rows| && j < p
    ensures p * i + j < |FlatValues(rows)|
    ensures Shaped(rows[i], p) && FlatValues(rows)[p * i + j] == rows[i].values[j]
  {
    var k := |rows| - 1;
    var init := rows[..k];
    assert FlatValues(rows) == FlatValues(init) + rows[k].values;
    assert Shaped(rows[i], p);
    if i == k {
      FlatLength(init, p);
      Arith.MulComm(k, p);
    } else {
      FlatValuesAt(init, p, i, j);
    }
  }

  /** Row i of the flattened events is the i-th row's events. */
  lemma {:induction false} FlatEventsAt(rows: seq<Record>, p: nat, i: nat, j: nat)
    requires AllShaped(rows, p)
    requires i < |rows| && j <= p
    ensures (p + 1) * i + j < |FlatEvents(rows)|
    ensures Shaped(rows[i], p) && FlatEvents(rows)[(p + 1) * i + j] == rows[i].events[j]
  {
    var k := |rows| - 1;
    var init := rows[..k];
    assert FlatEvents(rows) == FlatEvents(init) + rows[k].events;
    assert Shaped(rows[i], p);
    if i == k {
      FlatLength(init, p);
      Arith.MulComm(k, p + 1);
    } else {
      FlatEventsAt(init, p, i, j);
    }
  }

  /** A buffer whose flat sequences are the flattening of shaped rows
      holds those rows, whole, and shows row i of them at index i. */
  lemma FlatBuffer(b: SampleBuffers.Buffer, kept: seq<Record>)
    requires Psis.HasInterval(b.psi) && |b.psi.probes| > 0
    requires AllShaped(kept, |b.psi.probes|)
    requires b.values == FlatValues(kept) && b.events == FlatEvents(kept)
    ensures SampleBuffers.WellFormed(b) && SampleBuffers.Viewable(b)
    ensures SampleBuffers.Size(b) == |kept|
    ensures forall i :: 0 <= i < |kept| ==>
      && SampleBuffers.RowOf(b, i).values == kept[i].values
      && SampleBuffers.RowOf(b, i).events == kept[i].events
  {
    var p := |b.psi.probes|;
    FlatLength(kept, p);
    Arith.MulDivCancel(|kept|, p);
    forall i | 0 <= i < |kept|
      ensures SampleBuffers.RowOf(b, i).values == kept[i].values
      ensures SampleBuffers.RowOf(b, i).events == kept[i].events
    {
      FlatBufferRow(b, kept, i);
    }
  }

  lemma FlatBufferRow(b: SampleBuffers.Buffer, kept: seq<Record>, i: nat)
    requires Psis.HasInterval(b.psi) && |b.psi.probes| > 0
    requires AllShaped(kept, |b.psi.probes|)
    requires b.values == FlatValues(kept) && b.events == FlatEvents(kept)
    requires SampleBuffers.Viewable(b) && SampleBuffers.Size(b) == |kept| && i < |kept|
    ensures SampleBuffers.RowOf(b, i).values == kept[i].values
    ensures SampleBuffers.RowOf(b, i).events == kept[i].events
  {
    var p := |b.psi.probes|;
    var row := SampleBuffers.RowOf(b, i);
    assert Shaped(kept[i], p);
    forall j | 0 <= j < p
      ensures row.values[j] == kept[i].values[j]
    {
      FlatValuesAt(kept, p, i, j);
    }
    forall j | 0 <= j <= p
      ensures row.events[j] == kept[i].events[j]
    {
      FlatEventsAt(kept, p, i, j);
    }
  }

  /** The buffer a load returns holds whole rows, and its row i is global
      row WindowStart + i of the stream: the window, seen through at(). */
  lemma LoadedRows(psi: Psis.Psi, begin: int, end: int, disk: Disk, names: Names)
    requires Psis.HasInterval(psi) && |psi.probes| > 0
    requires FilesFit(psi, psi.psds, disk, names)
    ensures
      var b := LoadSpec(psi, begin, end, disk, names);
      var interval := Psis.SamplingInterval(psi);
      var rows := StreamRows(psi, psi.psds, disk, names);
      var lo := WindowStart(|rows|, begin, interval);
      var hi := WindowStop(|rows|, begin, EffectiveEnd(psi, end), interval);
      && SampleBuffers.WellFormed(b) && SampleBuffers.Viewable(b)
      && SampleBuffers.Size(b) == hi - lo
      && (hi > lo ==> lo == FirstRow(begin, interval))
      && forall i :: 0 <= i < hi - lo ==>
           && SampleBuffers.RowOf(b, i).values == rows[lo + i].values
           && SampleBuffers.RowOf(b, i).events == rows[lo + i].events
  {
    var b := LoadSpec(psi, begin, end, disk, names);
    var interval := Psis.SamplingInterval(psi);
    var last := EffectiveEnd(psi, end);
    var rows := StreamRows(psi, psi.psds, disk, names);
    var kept := Select(rows, begin, last, interval);
    var lo, hi := WindowStart(|rows|, begin, interval), WindowStop(|rows|, begin, last, interval);
    LoadWindow(psi, begin, end, disk, names);
    assert AllShaped(kept, |psi.probes|);
    FlatBuffer(b, kept);
  }

  /** begin_time truncated toward zero is the first row in the window
      exactly when begin is a multiple of the interval, or negative by less
      than one interval. */
  lemma TruncDivIsFirstRow(begin: int, interval: nat)
    requires interval > 0
    ensures (SampleBuffers.TruncDiv(begin, interval) == FirstRow(begin, interval))
            <==> (if begin >= 0 then begin % interval == 0 else begin + interval > 0)
  {
    var q := SampleBuffers.TruncDiv(begin, interval);
    if begin > 0 {
      var first := FirstRow(begin, interval);
      assert begin == q * interval + begin % interval;
      Arith.CeilDivBound(q, begin, interval);
      if begin % interval == 0 {
        Arith.CeilDivBound(q - 1, begin, interval);
        Arith.MulStrictMonotone(q - 1, q, interval);
      }
    } else if begin < 0 {
      Arith.FloorDivBound(1, -begin, interval);
    }
  }

  /** at(i).time is the cursor of the row it shows, FirstRow + i intervals,
      exactly when begin is a multiple of the interval, or negative by less
      than one interval: otherwise truncating begin toward zero shifts every
      reported time by one or more intervals. */
  lemma TimeFormula(b: SampleBuffers.Buffer, i: nat)
    requires Psis.HasInterval(b.psi)
    ensures
      var interval := Psis.SamplingInterval(b.psi);
      (SampleBuffers.RowTime(b, i) == (FirstRow(b.beginTime, interval) + i) * interval)
      <==> (if b.beginTime >= 0 then b.beginTime % interval == 0 else b.beginTime + interval > 0)
  {
    var interval := Psis.SamplingInterval(b.psi);
    var q := SampleBuffers.TruncDiv(b.beginTime, interval);
    var first := FirstRow(b.beginTime, interval);
    Arith.MulCancel(i + q, first + i, interval);
    TruncDivIsFirstRow(b.beginTime, interval);
  }
}
