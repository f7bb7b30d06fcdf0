/** sample_t: the view of one row of a buffer — its time, the p values of
    the row and its p+1 events (one per probe, then the global one).  The
    source builds it from raw pointers into the buffer's flat vectors; here
    it is the two slices.  (src/pslib/v1_0/sample_t.h) */
module SampleRows {
  import opened DataStreams
  import opened Events
  import Psis
  import Arith

  datatype Sample = Sample(time: int, values: seq<DataStream>, events: seq<Event>)

  /** Both slices of row idx lie inside the flat sequences: the source does
      not check this, so every caller must guarantee it. */
  predicate RowInBounds(p: nat, values: seq<DataStream>, events: seq<Event>, idx: nat)
  {
    (idx + 1) * p <= |values| && (idx + 1) * (p + 1) <= |events|
  }

  /** The private constructor: row idx of the flat sequences, at time t, where
      p is the number of probes of psi. */
  function MakeSample(psi: Psis.Psi, values: seq<DataStream>, events: seq<Event>, idx: nat, t: int): (s: Sample)
    requires RowInBounds(|psi.probes|, values, events, idx)
    ensures s.time == t
    ensures |s.values| == |psi.probes|
    ensures forall j :: 0 <= j < |s.values| ==> s.values[j] == values[|psi.probes| * idx + j]
    ensures |s.events| == |psi.probes| + 1
    ensures forall j :: 0 <= j < |s.events| ==> s.events[j] == events[(|psi.probes| + 1) * idx + j]
  {
    Sample(t, RowValues(|psi.probes|, values, idx), RowEvents(|psi.probes|, events, idx))
  }

  /** The p values of row idx. */
  function RowValues(p: nat, values: seq<DataStream>, idx: nat): (v: seq<DataStream>)
    requires (idx + 1) * p <= |values|
    ensures |v| == p
    ensures forall j :: 0 <= j < p ==> v[j] == values[p * idx + j]
  {
    Arith.RowEnds(p, idx);
    var lo := p * idx;
    values[lo .. lo + p]
  }

  /** The p+1 events of row idx. */
  function RowEvents(p: nat, events: seq<Event>, idx: nat): (e: seq<Event>)
    requires (idx + 1) * (p + 1) <= |events|
    ensures |e| == p + 1
    ensures forall j :: 0 <= j <= p ==> e[j] == events[(p + 1) * idx + j]
  {
    Arith.RowEnds(p, idx);
    var lo := (p + 1) * idx;
    events[lo .. lo + (p + 1)]
  }

  /** operator==: equal times, then the value slices (same size, equal
      elementwise), then the event slices; that is, equal rows. */
  function Equal(a: Sample, b: Sample): (r: bool)
    ensures r <==> a == b
  {
    if a.time != b.time then false
    else if |a.values| != |b.values| then false
    else if exists i :: 0 <= i < |a.values| && a.values[i] != b.values[i] then false
    else if |a.events| != |b.events| then false
    else if exists i :: 0 <= i < |a.events| && Events.NotEqual(a.events[i], b.events[i]) then false
    else true
  }

  /** operator!=: the negation of operator==. */
  function NotEqual(a: Sample, b: Sample): (r: bool)
    ensures r <==> a != b
  {
    !Equal(a, b)
  }
}
