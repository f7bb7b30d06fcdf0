/** probe_t: static description of one measurement channel.  A calibration
    bound stored as NaN in the source means "absent" and is an Option here.
    (src/pslib/v1_0/probe_t.h) */
module Probes {
  import opened Wrappers

  /** PROBE_KIND: the validator accepts STD and ACM; any other code is kept
      as Other. */
  datatype ProbeKind = Std | Acm | Other(code: int)

  datatype Probe = Probe(
    id: int,
    port: int,
    kind: ProbeKind,
    currentMin: Option<real>,
    currentMax: Option<real>,
    voltageMin: Option<real>,
    voltageMax: Option<real>)

  /** The test the source applies to a bound that is present on the left:
      it is greater or less than the right-hand bound. */
  predicate BoundDiffers(a: Option<real>, b: Option<real>)
    requires a.Some? == b.Some?
  {
    a.Some? && (a.value > b.value || a.value < b.value)
  }

  /** operator==: id, port and kind, then presence of each of the four
      bounds, then the values of the present ones, in the source's order. */
  function Equal(a: Probe, b: Probe): (r: bool)
    ensures r <==> a == b
  {
    if a.id != b.id then false
    else if a.port != b.port then false
    else if a.kind != b.kind then false
    else if a.currentMin.None? != b.currentMin.None? then false
    else if a.currentMax.None? != b.currentMax.None? then false
    else if a.voltageMin.None? != b.voltageMin.None? then false
    else if a.voltageMax.None? != b.voltageMax.None? then false
    else if BoundDiffers(a.currentMin, b.currentMin) then false
    else if BoundDiffers(a.currentMax, b.currentMax) then false
    else if BoundDiffers(a.voltageMin, b.voltageMin) then false
    else if BoundDiffers(a.voltageMax, b.voltageMax) then false
    else true
  }

  /** operator!=: the negation of operator==. */
  function NotEqual(a: Probe, b: Probe): (r: bool)
    ensures r <==> a != b
  {
    !Equal(a, b)
  }

  /** Probes without calibration bounds compare equal as soon as id, port
      and kind agree (how a probe loaded with NaN bounds matches the saved
      one). */
  lemma AbsentBoundsEqual(a: Probe, b: Probe)
    requires a.currentMin.None? && a.currentMax.None? && a.voltageMin.None? && a.voltageMax.None?
    requires b.currentMin.None? && b.currentMax.None? && b.voltageMin.None? && b.voltageMax.None?
    ensures Equal(a, b) <==> a.id == b.id && a.port == b.port && a.kind == b.kind
  {
  }

  /** A bound present on one side and absent on the other makes the probes
      unequal, whatever the other fields hold. */
  lemma PresenceMismatchUnequal(a: Probe, b: Probe)
    requires a.currentMin.Some? != b.currentMin.Some? || a.currentMax.Some? != b.currentMax.Some?
          || a.voltageMin.Some? != b.voltageMin.Some? || a.voltageMax.Some? != b.voltageMax.Some?
    ensures !Equal(a, b)
  {
  }
}
