/** psi_t: the metadata of one measurement — sampling rate and count, the
    ordered probes and the ordered segment descriptors — and the timing
    derived from it.  (src/pslib/v1_0/psi_t.h) */
module Psis {
  import Probes
  import Psds
  import Arith

  newtype uint32 = x: int | 0 <= x < 0x1_0000_0000

  datatype Psi = Psi(
    filename: string,
    checksum: uint32,
    samplingRate: nat,     // in Hz
    samplingCount: nat,
    probes: seq<Probes.Probe>,
    psds: seq<Psds.Psd>)

  const NanosPerSecond: nat := 1000 * 1000 * 1000

  /** sampling_interval(): one second divided by the rate, truncated.  The
      result is the largest whole number of nanoseconds that fits rate
      times into a second. */
  function SamplingInterval(psi: Psi): (r: nat)
    requires psi.samplingRate > 0
    ensures r * psi.samplingRate <= NanosPerSecond < (r + 1) * psi.samplingRate
  {
    NanosPerSecond / psi.samplingRate
  }

  /** length(): the duration of sampling_count intervals. */
  function Length(psi: Psi): nat
    requires psi.samplingRate > 0
  {
    SamplingInterval(psi) * psi.samplingCount
  }

  /** The length is a whole number of intervals, sampling_count of them, and
      every row time k * interval with k <= sampling_count lies within it. */
  lemma LengthIsWholeIntervals(psi: Psi, k: nat)
    requires HasInterval(psi)
    ensures Length(psi) / SamplingInterval(psi) == psi.samplingCount
    ensures Length(psi) % SamplingInterval(psi) == 0
    ensures k * SamplingInterval(psi) <= Length(psi) <==> k <= psi.samplingCount
  {
    var i := SamplingInterval(psi);
    Arith.MulDivCancel(psi.samplingCount, i);
    Arith.FloorDivBound(k, Length(psi), i);
  }

  /** The storage engine divides by the interval, so it needs a positive
      one: 0 < rate <= 10^9. */
  predicate HasInterval(psi: Psi)
  {
    psi.samplingRate > 0 && SamplingInterval(psi) > 0
  }

  /** Every rate the validator accepts up to 1 GHz yields an interval between
      1 ns and 1 ms. */
  lemma IntervalRange(psi: Psi)
    requires 1000 <= psi.samplingRate <= NanosPerSecond
    ensures 1 <= SamplingInterval(psi) <= 1000 * 1000
    ensures HasInterval(psi)
  {
    var r := SamplingInterval(psi);
    Arith.MulMonotone(1000, psi.samplingRate, r);
    Arith.MulMonotone(psi.samplingRate, NanosPerSecond, r + 1);
  }

  /** The 1000 Hz, 1500-sample measurement of the tests: 1 ms per sample,
      1.5 s in all. */
  lemma TestTiming(psi: Psi)
    requires psi.samplingRate == 1000 && psi.samplingCount == 1500
    ensures SamplingInterval(psi) == 1000 * 1000
    ensures Length(psi) == 1500 * 1000 * 1000
  {
  }

  /** operator== on the probe vector: same size, elementwise probe_t ==. */
  predicate ProbesEqual(a: seq<Probes.Probe>, b: seq<Probes.Probe>)
  {
    |a| == |b| && forall i :: 0 <= i < |a| ==> Probes.Equal(a[i], b[i])
  }

  /** operator== on the psd vector: same size, elementwise psd_t ==. */
  predicate PsdsEqual(a: seq<Psds.Psd>, b: seq<Psds.Psd>)
  {
    |a| == |b| && forall i :: 0 <= i < |a| ==> Psds.Equal(a[i], b[i])
  }

  /** operator==: checksum, rate, count, probes and psds in that order; the
      file name is not compared, so two metadata values are equal exactly
      when they agree on everything except the file name. */
  function Equal(a: Psi, b: Psi): (r: bool)
    ensures r <==> a.(filename := b.filename) == b
  {
    if a.checksum != b.checksum then false
    else if a.samplingRate != b.samplingRate then false
    else if a.samplingCount != b.samplingCount then false
    else if !ProbesEqual(a.probes, b.probes) then false
    else if !PsdsEqual(a.psds, b.psds) then false
    else true
  }

  /** operator!=: the negation of operator==. */
  function NotEqual(a: Psi, b: Psi): (r: bool)
    ensures r <==> a.(filename := b.filename) != b
  {
    !Equal(a, b)
  }
}
