/** psd_t: the descriptor of one .psd segment file.  offset is recorded as a
    1-based row number (0 for the first file), data_count is the number of
    rows in the file.  (src/pslib/v1_0/psd_t.h) */
module Psds {
  datatype Psd = Psd(id: int, offset: int, dataCount: int, eventCount: int)

  /** operator==: the four fields compared in order. */
  function Equal(a: Psd, b: Psd): (r: bool)
    ensures r <==> a == b
  {
    if a.id != b.id then false
    else if a.offset != b.offset then false
    else if a.dataCount != b.dataCount then false
    else if a.eventCount != b.eventCount then false
    else true
  }

  /** operator!=: the negation of operator==. */
  function NotEqual(a: Psd, b: Psd): (r: bool)
    ensures r <==> a != b
  {
    !Equal(a, b)
  }

  /** Equality is reflexive and symmetric, and changing any one field of an
      otherwise equal descriptor makes it unequal. */
  lemma EqualIsFieldwise(a: Psd, id: int, offset: int, dataCount: int, eventCount: int)
    ensures Equal(a, a)
    ensures forall b :: Equal(a, b) == Equal(b, a)
    ensures id != a.id ==> !Equal(a, a.(id := id))
    ensures offset != a.offset ==> !Equal(a, a.(offset := offset))
    ensures dataCount != a.dataCount ==> !Equal(a, a.(dataCount := dataCount))
    ensures eventCount != a.eventCount ==> !Equal(a, a.(eventCount := eventCount))
  {
  }

  /** The number of rows held by the segments psds, in list order (the
      running data_count sum of the validator). */
  function TotalRows(psds: seq<Psd>): int
  {
    if psds == [] then 0 else TotalRows(psds[..|psds| - 1]) + psds[|psds| - 1].dataCount
  }

  /** Rows are never negative when no data_count is. */
  lemma {:induction false} TotalRowsNonNegative(psds: seq<Psd>)
    requires forall i :: 0 <= i < |psds| ==> psds[i].dataCount >= 0
    ensures TotalRows(psds) >= 0
  {
    if psds != [] {
      TotalRowsNonNegative(psds[..|psds| - 1]);
    }
  }

  lemma {:induction false} TotalRowsAppend(a: seq<Psd>, b: seq<Psd>)
    ensures TotalRows(a + b) == TotalRows(a) + TotalRows(b)
  {
    if b != [] {
      assert (a + b)[..|a + b| - 1] == a + b[..|b| - 1];
      TotalRowsAppend(a, b[..|b| - 1]);
    } else {
      assert a + b == a;
    }
  }
}
