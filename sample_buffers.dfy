/** samples_t: a time window of a measurement held in memory as two flat
    sequences — p values per row and p+1 events per row — together with the
    metadata and the window [begin_time, end_time] it was made for; and its
    forward iterator.  (src/pslib/v1_0/samples_t.h) */
module SampleBuffers {
  import opened DataStreams
  import opened Events
  import opened SampleRows
  import Psis
  import Arith

  /** The value of a samples_t: what operator== compares. */
  datatype Buffer = Buffer(
    psi: Psis.Psi,
    beginTime: int,
    endTime: int,
    values: seq<DataStream>,
    events: seq<Event>)

  /** size(): the number of whole rows of values. */
  function Size(b: Buffer): nat
    requires |b.psi.probes| > 0
  {
    |b.values| / |b.psi.probes|
  }

  /** size() counts the whole rows: the values hold that many rows and
      less than one more. */
  lemma SizeIsWholeRows(b: Buffer)
    requires |b.psi.probes| > 0
    ensures Size(b) * |b.psi.probes| <= |b.values| < (Size(b) + 1) * |b.psi.probes|
  {
  }

  /** Whole rows only, with p+1 events for every row of p values: what the
      loader builds and the writer expects. */
  predicate WellFormed(b: Buffer)
  {
    && |b.psi.probes| > 0
    && |b.values| == Size(b) * |b.psi.probes|
    && |b.events| == Size(b) * (|b.psi.probes| + 1)
  }

  /** Every row below size() can be viewed with at(). */
  predicate Viewable(b: Buffer)
  {
    && Psis.HasInterval(b.psi)
    && |b.psi.probes| > 0
    && Size(b) * (|b.psi.probes| + 1) <= |b.events|
  }

  /** Division of int64 values as C++ does it: truncated toward zero. */
  function TruncDiv(a: int, d: int): (q: int)
    requires d > 0
    ensures a >= 0 ==> q * d <= a < (q + 1) * d
    ensures a < 0 ==> (q - 1) * d < a <= q * d <= 0
  {
    if a >= 0 then a / d else -((-a) / d)
  }

  /** Whether the constructor's capacity reservation succeeds.  It asks for
      (end - begin) / interval rows, truncated toward zero and cast to
      size_t; a negative count becomes a size_t near 2^64 and
      vector::reserve throws std::length_error.  That happens exactly when
      end lies one interval or more before begin. */
  function Reservable(psi: Psis.Psi, begin: int, end: int): (ok: bool)
    requires Psis.HasInterval(psi)
    ensures ok <==> begin - end < Psis.SamplingInterval(psi)
  {
    TruncDiv(end - begin, Psis.SamplingInterval(psi)) >= 0
  }

  /** The time at(idx) reports: idx intervals after begin_time truncated to a
      whole number of intervals. */
  function RowTime(b: Buffer, idx: nat): int
    requires Psis.HasInterval(b.psi)
  {
    var interval := Psis.SamplingInterval(b.psi);
    (idx + TruncDiv(b.beginTime, interval)) * interval
  }

  /** Rows are one interval apart, and row 0 is begin_time rounded toward
      zero to a whole number of intervals: down for a non-negative begin_time,
      up for a negative one, unchanged when it already is a multiple. */
  lemma RowTimeFormula(b: Buffer, idx: nat)
    requires Psis.HasInterval(b.psi)
    ensures RowTime(b, idx) == RowTime(b, 0) + idx * Psis.SamplingInterval(b.psi)
    ensures b.beginTime >= 0 ==> RowTime(b, 0) <= b.beginTime < RowTime(b, 0) + Psis.SamplingInterval(b.psi)
    ensures b.beginTime < 0 ==> b.beginTime <= RowTime(b, 0) <= 0
    ensures b.beginTime % Psis.SamplingInterval(b.psi) == 0 ==> RowTime(b, 0) == b.beginTime
  {
    var interval := Psis.SamplingInterval(b.psi);
    var q := TruncDiv(b.beginTime, interval);
    assert RowTime(b, idx) == idx * interval + q * interval;
    if b.beginTime % interval == 0 {
      var m := b.beginTime / interval;
      assert b.beginTime == m * interval;
      if b.beginTime >= 0 {
        Arith.MulDivCancel(m, interval);
      } else {
        Arith.MulDivCancel(-m, interval);
        assert -b.beginTime == (-m) * interval;
      }
    }
  }

  /** at(idx): the view of row idx; idx < size() is not checked. */
  function At(b: Buffer, idx: nat): (s: Sample)
    requires Psis.HasInterval(b.psi)
    requires RowInBounds(|b.psi.probes|, b.values, b.events, idx)
    ensures s.time == RowTime(b, idx)
    ensures |s.values| == |b.psi.probes|
    ensures forall j :: 0 <= j < |s.values| ==> s.values[j] == b.values[|b.psi.probes| * idx + j]
    ensures |s.events| == |b.psi.probes| + 1
    ensures forall j :: 0 <= j < |s.events| ==> s.events[j] == b.events[(|b.psi.probes| + 1) * idx + j]
  {
    MakeSample(b.psi, b.values, b.events, idx, RowTime(b, idx))
  }

  /** A row below size() of a viewable buffer lies inside the flat sequences. */
  lemma ViewableRow(b: Buffer, idx: nat)
    requires Viewable(b) && idx < Size(b)
    ensures RowInBounds(|b.psi.probes|, b.values, b.events, idx)
  {
    SizeIsWholeRows(b);
    Arith.MulMonotone(idx + 1, Size(b), |b.psi.probes|);
    Arith.MulMonotone(idx + 1, Size(b), |b.psi.probes| + 1);
  }

  function RowOf(b: Buffer, idx: nat): Sample
    requires Viewable(b) && idx < Size(b)
  {
    ViewableRow(b, idx);
    At(b, idx)
  }

  /** What an iteration from begin() to end() yields: at(0) .. at(size()-1). */
  function Rows(b: Buffer): seq<Sample>
    requires Viewable(b)
  {
    seq(Size(b), i requires 0 <= i < Size(b) => RowOf(b, i))
  }

  /** A well-formed buffer with a usable interval can be iterated. */
  lemma WellFormedViewable(b: Buffer)
    requires WellFormed(b) && Psis.HasInterval(b.psi)
    ensures Viewable(b)
  {
  }

  /** operator==: metadata (psi_t ==, which ignores the file name), window
      and both flat sequences; so two buffers are equal exactly when they
      agree on everything except the metadata's file name. */
  function Equal(a: Buffer, b: Buffer): (r: bool)
    ensures r <==> a.(psi := a.psi.(filename := b.psi.filename)) == b
  {
    if !Psis.Equal(a.psi, b.psi) then false
    else if a.beginTime != b.beginTime then false
    else if a.endTime != b.endTime then false
    else if a.values != b.values then false
    else if a.events != b.events then false
    else true
  }

  /** operator!=: the negation of operator==. */
  function NotEqual(a: Buffer, b: Buffer): (r: bool)
    ensures r <==> a.(psi := a.psi.(filename := b.psi.filename)) != b
  {
    !Equal(a, b)
  }

  /** Equal buffers yield the same rows when iterated. */
  lemma EqualBuffersSameRows(a: Buffer, b: Buffer)
    requires Equal(a, b) && Viewable(a)
    ensures Viewable(b) && Rows(a) == Rows(b)
  {
    assert a.psi.probes == b.psi.probes && a.psi.samplingRate == b.psi.samplingRate;
    assert Size(a) == Size(b);
    forall i | 0 <= i < Size(a)
      ensures RowOf(a, i) == RowOf(b, i)
    {
      assert RowTime(a, i) == RowTime(b, i);
    }
  }

  /** A samples_t object.  Its fields are public in the source: the loader
      and the tests grow values and events with push_back from outside. */
  class Samples {
    var psi: Psis.Psi
    var beginTime: int
    var endTime: int
    var values: seq<DataStream>
    var events: seq<Event>

    /** Stores the metadata and the window; both sequences start empty.  The
        capacity reservation divides by the interval, and throws unless
        the window is Reservable. */
    constructor (p: Psis.Psi, begin: int, end: int)
      requires Psis.HasInterval(p) && Reservable(p, begin, end)
      ensures psi == p && beginTime == begin && endTime == end
      ensures values == [] && events == []
    {
      psi, beginTime, endTime := p, begin, end;
      values, events := [], [];
    }

    function Value(): Buffer
      reads this
    {
      Buffer(psi, beginTime, endTime, values, events)
    }

    /** begin(): an iterator at index 0 over this buffer. */
    method Begin() returns (it: SampleIterator)
      ensures fresh(it) && it.index == 0 && it.container == this
    {
      it := new SampleIterator(0, this);
    }

    /** end(): an iterator at index size() over this buffer. */
    method End() returns (it: SampleIterator)
      requires |psi.probes| > 0
      ensures fresh(it) && it.index == Size(Value()) && it.container == this
    {
      it := new SampleIterator(Size(Value()), this);
    }
  }

  /** sample_iterator: an index into one buffer. */
  class SampleIterator {
    var index: nat
    const container: Samples

    constructor (idx: nat, samples: Samples)
      ensures index == idx && container == samples
    {
      index, container := idx, samples;
    }

    /** The prefix operator++: advances by one and returns a copy of the
        iterator as it was before (the reverse of the usual convention). */
    method PreIncrement() returns (before: SampleIterator)
      modifies this
      ensures index == old(index) + 1
      ensures fresh(before) && before.index == old(index) && before.container == container
    {
      before := new SampleIterator(index, container);
      index := index + 1;
    }

    /** The postfix operator++: advances by one and returns a copy of the
        advanced iterator (again the reverse of the usual convention). */
    method PostIncrement() returns (after: SampleIterator)
      modifies this
      ensures index == old(index) + 1
      ensures fresh(after) && after.index == index && after.container == container
    {
      index := index + 1;
      after := new SampleIterator(index, container);
    }

    /** operator*: the row the iterator points at. */
    function Deref(): Sample
      reads this, container
      requires Psis.HasInterval(container.psi)
      requires RowInBounds(|container.psi.probes|, container.values, container.events, index)
    {
      At(container.Value(), index)
    }

    /** operator==: same index into the same buffer object. */
    predicate Equals(other: SampleIterator)
      reads this, other
    {
      index == other.index && container == other.container
    }
  }

  /** A range-for over a buffer: from begin() until the iterator equals
      end(), dereferencing and advancing with the prefix operator++.  It
      yields exactly at(0), ..., at(size()-1), in order. */
  method CollectRows(samples: Samples) returns (rows: seq<Sample>)
    requires Viewable(samples.Value())
    ensures rows == Rows(samples.Value())
  {
    var it := samples.Begin();
    var last := samples.End();
    rows := [];
    while !it.Equals(last)
      invariant it != last && it.container == samples && last.container == samples
      invariant last.index == Size(samples.Value())
      invariant it.index <= last.index
      invariant rows == Rows(samples.Value())[..it.index]
      decreases last.index - it.index
    {
      ViewableRow(samples.Value(), it.index);
      rows := rows + [it.Deref()];
      var _ := it.PreIncrement();
    }
  }
}
