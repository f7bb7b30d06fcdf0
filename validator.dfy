/** validate_psi: the checks a measurement's metadata must pass, in the
    order they are made; the first failing one is reported.  The two
    version strings and the declared DataStream count come from the XML
    file and are inputs here.  (src/pslib/v1_0/validate_psi.h) */
module Validator {
  import opened Wrappers
  import Psis
  import Probes
  import Psds

  /** One case per runtime_error; positions are 0-based list indices. */
  datatype ValidationError =
    | WrongPsiVersion(psiVersion: string)
    | WrongPsdVersion(psdVersion: string)
    | InvalidSamplingRate
    | SamplingRateTooLow
    | InvalidSamplingCount
    | DataStreamCountMismatch(declared: int, present: nat)
    | InvalidProbeId(probe: nat)
    | InvalidProbePort(probe: nat)
    | UnknownProbeKind(probe: nat)
    | PortInUse(probe: nat)
    | InvalidPsdId(psd: nat)
    | InvalidPsdOffset(psd: nat)
    | InvalidPsdDataCount(psd: nat)
    | InvalidPsdEventCount(psd: nat)
    | OffsetMismatch(psd: nat, rowsBefore: int)

  const SupportedVersion: string := "1.0"

  /** The first failing probe check from position i on. */
  function CheckProbes(probes: seq<Probes.Probe>, i: nat): Option<ValidationError>
    requires i <= |probes|
    decreases |probes| - i
  {
    if i == |probes| then None
    else
      var probe := probes[i];
      if probe.id <= 0 || probe.id != i + 1 then Some(InvalidProbeId(i))
      else if probe.port <= 0 then Some(InvalidProbePort(i))
      else if probe.kind != Probes.Acm && probe.kind != Probes.Std then Some(UnknownProbeKind(i))
      else if exists k :: 0 <= k < i && probes[k].port == probe.port then Some(PortInUse(i))
      else CheckProbes(probes, i + 1)
  }

  /** The first failing segment check from position i on; `rowsBefore` is
      the sum of the data counts before i. */
  function CheckPsds(psds: seq<Psds.Psd>, i: nat, rowsBefore: int): Option<ValidationError>
    requires i <= |psds|
    decreases |psds| - i
  {
    if i == |psds| then None
    else
      var psd := psds[i];
      if psd.id <= 0 || psd.id != i + 1 then Some(InvalidPsdId(i))
      else if psd.offset < 0 then Some(InvalidPsdOffset(i))
      else if psd.dataCount < 0 then Some(InvalidPsdDataCount(i))
      else if psd.eventCount < 0 then Some(InvalidPsdEventCount(i))
      else if i > 0 && psd.offset != rowsBefore + 1 then Some(OffsetMismatch(i, rowsBefore))
      else CheckPsds(psds, i + 1, rowsBefore + psd.dataCount)
  }

  /** The outcome of validate_psi: true, or the first failing check. */
  function ValidateSpec(psi: Psis.Psi, psiVersion: string, psdVersion: string, dataStreamCount: int): Result<bool, ValidationError>
  {
    if psiVersion != SupportedVersion then Failure(WrongPsiVersion(psiVersion))
    else if psdVersion != SupportedVersion then Failure(WrongPsdVersion(psdVersion))
    else if psi.samplingRate <= 0 then Failure(InvalidSamplingRate)
    else if psi.samplingRate < 1000 then Failure(SamplingRateTooLow)
    else if psi.samplingCount <= 0 then Failure(InvalidSamplingCount)
    else if dataStreamCount <= 0 || dataStreamCount != |psi.probes| then
      Failure(DataStreamCountMismatch(dataStreamCount, |psi.probes|))
    else if CheckProbes(psi.probes, 0).Some? then Failure(CheckProbes(psi.probes, 0).value)
    else if CheckPsds(psi.psds, 0, 0).Some? then Failure(CheckPsds(psi.psds, 0, 0).value)
    else Success(true)
  }

  /** validate_psi, with the values read from the XML passed in. */
  method ValidatePsi(psi: Psis.Psi, psiVersion: string, psdVersion: string, dataStreamCount: int)
    returns (r: Result<bool, ValidationError>)
    ensures r == ValidateSpec(psi, psiVersion, psdVersion, dataStreamCount)
  {
    if psiVersion != SupportedVersion {
      return Failure(WrongPsiVersion(psiVersion));
    }
    if psdVersion != SupportedVersion {
      return Failure(WrongPsdVersion(psdVersion));
    }
    if psi.samplingRate <= 0 {
      return Failure(InvalidSamplingRate);
    }
    if psi.samplingRate < 1000 {
      return Failure(SamplingRateTooLow);
    }
    if psi.samplingCount <= 0 {
      return Failure(InvalidSamplingCount);
    }
    if dataStreamCount <= 0 || dataStreamCount != |psi.probes| {
      return Failure(DataStreamCountMismatch(dataStreamCount, |psi.probes|));
    }

    var ports: seq<int> := [];
    var i := 0;
    while i < |psi.probes|
      invariant 0 <= i <= |psi.probes|
      invariant |ports| == i && forall k :: 0 <= k < i ==> ports[k] == psi.probes[k].port
      invariant CheckProbes(psi.probes, 0) == CheckProbes(psi.probes, i)
    {
      var probe := psi.probes[i];
      if probe.id <= 0 || probe.id != i + 1 {
        return Failure(InvalidProbeId(i));
      }
      if probe.port <= 0 {
        return Failure(InvalidProbePort(i));
      }
      if probe.kind != Probes.Acm && probe.kind != Probes.Std {
        return Failure(UnknownProbeKind(i));
      }
      if probe.port in ports {
        return Failure(PortInUse(i));
      }
      ports := ports + [probe.port];
      i := i + 1;
    }

    var dataCount := 0;
    i := 0;
    while i < |psi.psds|
      invariant 0 <= i <= |psi.psds|
      invariant CheckPsds(psi.psds, 0, 0) == CheckPsds(psi.psds, i, dataCount)
    {
      var psd := psi.psds[i];
      if psd.id <= 0 || psd.id != i + 1 {
        return Failure(InvalidPsdId(i));
      }
      if psd.offset < 0 {
        return Failure(InvalidPsdOffset(i));
      }
      if psd.dataCount < 0 {
        return Failure(InvalidPsdDataCount(i));
      }
      if psd.eventCount < 0 {
        return Failure(InvalidPsdEventCount(i));
      }
      if i > 0 && psd.offset != dataCount + 1 {
        return Failure(OffsetMismatch(i, dataCount));
      }
      dataCount := dataCount + psd.dataCount;
      i := i + 1;
    }
    return Success(true);
  }

  /** The rules for the probe at position i, stated on their own. */
  predicate ProbeValid(probes: seq<Probes.Probe>, i: nat)
    requires i < |probes|
  {
    && probes[i].id == i + 1
    && probes[i].port > 0
    && (probes[i].kind == Probes.Acm || probes[i].kind == Probes.Std)
    && forall k :: 0 <= k < i ==> probes[k].port != probes[i].port
  }

  /** The rules for the segment at position i: its id is its 1-based
      position, its counts are not negative, and every segment after the
      first starts right after the rows of the segments before it. */
  predicate PsdValid(psds: seq<Psds.Psd>, i: nat)
    requires i < |psds|
  {
    && psds[i].id == i + 1
    && psds[i].offset >= 0
    && psds[i].dataCount >= 0
    && psds[i].eventCount >= 0
    && (i > 0 ==> psds[i].offset == Psds.TotalRows(psds[..i]) + 1)
  }

  /** Metadata that validate_psi accepts, stated declaratively. */
  predicate WellFormed(psi: Psis.Psi, psiVersion: string, psdVersion: string, dataStreamCount: int)
  {
    && psiVersion == SupportedVersion
    && psdVersion == SupportedVersion
    && psi.samplingRate >= 1000
    && psi.samplingCount > 0
    && dataStreamCount == |psi.probes| > 0
    && (forall i :: 0 <= i < |psi.probes| ==> ProbeValid(psi.probes, i))
    && (forall i :: 0 <= i < |psi.psds| ==> PsdValid(psi.psds, i))
  }

  lemma {:induction false} CheckProbesPass(probes: seq<Probes.Probe>, i: nat)
    requires i <= |probes|
    ensures CheckProbes(probes, i).None? <==> forall k :: i <= k < |probes| ==> ProbeValid(probes, k)
    decreases |probes| - i
  {
    if i < |probes| {
      CheckProbesPass(probes, i + 1);
      assert (forall k :: i <= k < |probes| ==> ProbeValid(probes, k))
             <==> ProbeValid(probes, i) && (forall k :: i + 1 <= k < |probes| ==> ProbeValid(probes, k));
    }
  }

  lemma {:induction false} CheckPsdsPass(psds: seq<Psds.Psd>, i: nat, rowsBefore: int)
    requires i <= |psds| && rowsBefore == Psds.TotalRows(psds[..i])
    ensures CheckPsds(psds, i, rowsBefore).None? <==> forall k :: i <= k < |psds| ==> PsdValid(psds, k)
    decreases |psds| - i
  {
    if i < |psds| {
      assert psds[..i + 1][..i] == psds[..i];
      CheckPsdsPass(psds, i + 1, rowsBefore + psds[i].dataCount);
      assert (forall k :: i <= k < |psds| ==> PsdValid(psds, k))
             <==> PsdValid(psds, i) && (forall k :: i + 1 <= k < |psds| ==> PsdValid(psds, k));
    }
  }

  /** validate_psi returns true exactly for well-formed metadata, and it
      never returns false: every rejection is a failure. */
  lemma ValidateIsWellFormed(psi: Psis.Psi, psiVersion: string, psdVersion: string, dataStreamCount: int)
    ensures ValidateSpec(psi, psiVersion, psdVersion, dataStreamCount).Success?
            <==> WellFormed(psi, psiVersion, psdVersion, dataStreamCount)
    ensures ValidateSpec(psi, psiVersion, psdVersion, dataStreamCount) != Success(false)
  {
    CheckProbesPass(psi.probes, 0);
    assert psi.psds[..0] == [];
    CheckPsdsPass(psi.psds, 0, 0);
  }

  /** The checksum is not verified: changing it never changes the outcome. */
  lemma ChecksumIgnored(psi: Psis.Psi, checksum: Psis.uint32, psiVersion: string, psdVersion: string, dataStreamCount: int)
    ensures ValidateSpec(psi.(checksum := checksum), psiVersion, psdVersion, dataStreamCount)
            == ValidateSpec(psi, psiVersion, psdVersion, dataStreamCount)
  {
  }

  /** The sum of the data counts is not compared with the sampling count:
      metadata whose segments hold 10 rows passes with a count of 1500. */
  lemma RowCountUnchecked()
    ensures
      var psi := Psis.Psi("m.psi", 0, 1000, 1500,
        [Probes.Probe(1, 1, Probes.Std, None, None, None, None)],
        [Psds.Psd(1, 1, 10, 0)]);
      ValidateSpec(psi, "1.0", "1.0", 1) == Success(true) && Psds.TotalRows(psi.psds) != psi.samplingCount
  {
    var psi := Psis.Psi("m.psi", 0, 1000, 1500,
      [Probes.Probe(1, 1, Probes.Std, None, None, None, None)],
      [Psds.Psd(1, 1, 10, 0)]);
    assert psi.psds[..0] == [];
    assert CheckProbes(psi.probes, 1) == None;
  }

  /** A reported probe error names the first probe that breaks a rule. */
  lemma {:induction false} ProbeErrorIsFirst(probes: seq<Probes.Probe>, i: nat)
    requires i <= |probes| && CheckProbes(probes, i).Some?
    ensures
      var e := CheckProbes(probes, i).value;
      e.InvalidProbeId? || e.InvalidProbePort? || e.UnknownProbeKind? || e.PortInUse?
    ensures
      var k := CheckProbes(probes, i).value.probe;
      && i <= k < |probes| && !ProbeValid(probes, k)
      && forall m :: i <= m < k ==> ProbeValid(probes, m)
    decreases |probes| - i
  {
    if ProbeValid(probes, i) {
      ProbeErrorIsFirst(probes, i + 1);
    }
  }

  /** A reported segment error names the first segment that breaks a rule;
      an offset mismatch carries the rows of the segments before it. */
  lemma {:induction false} PsdErrorIsFirst(psds: seq<Psds.Psd>, i: nat, rowsBefore: int)
    requires i <= |psds| && rowsBefore == Psds.TotalRows(psds[..i])
    requires CheckPsds(psds, i, rowsBefore).Some?
    ensures
      var e := CheckPsds(psds, i, rowsBefore).value;
      e.InvalidPsdId? || e.InvalidPsdOffset? || e.InvalidPsdDataCount? || e.InvalidPsdEventCount? || e.OffsetMismatch?
    ensures
      var e := CheckPsds(psds, i, rowsBefore).value;
      && i <= e.psd < |psds| && !PsdValid(psds, e.psd)
      && (forall m :: i <= m < e.psd ==> PsdValid(psds, m))
      && (e.OffsetMismatch? ==> e.rowsBefore == Psds.TotalRows(psds[..e.psd]))
    decreases |psds| - i
  {
    if PsdValid(psds, i) {
      assert psds[..i + 1][..i] == psds[..i];
      Psds.TotalRowsAppend(psds[..i], [psds[i]]);
      assert psds[..i] + [psds[i]] == psds[..i + 1];
      PsdErrorIsFirst(psds, i + 1, rowsBefore + psds[i].dataCount);
    }
  }
}
