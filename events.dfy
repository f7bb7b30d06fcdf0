/** event_t: one 16-bit event word.  The most significant bit says whether
    the event occurred, the low 15 bits carry its value.
    (src/pslib/v1_0/event_t.h) */
module Events {
  datatype Event = Event(data: bv16)

  /** The bit masks of occured() and value(), on the raw 16-bit word. */
  function OccurredBit(word: bv16): (r: bool)
    ensures r <==> word >= 0x8000
  {
    (0x8000 & word) > 0
  }

  function ValueBits(word: bv16): bv16
  {
    0x7FFF & word
  }

  /** The two masks split a word without loss: the value part is below the
      flag bit, and adding the flag bit back when it was set gives the word. */
  lemma MaskSplit(word: bv16)
    ensures ValueBits(word) < 0x8000
    ensures word >= 0x8000 ==> word == ValueBits(word) + 0x8000
    ensures word < 0x8000 ==> word == ValueBits(word)
  {
    ValueBelowFlag(word);
    FlagSetSplit(word);
    FlagClearSplit(word);
  }

  lemma ValueBelowFlag(word: bv16)
    ensures ValueBits(word) < 0x8000
  {
  }

  lemma FlagSetSplit(word: bv16)
    ensures word >= 0x8000 ==> word == ValueBits(word) + 0x8000
  {
  }

  lemma FlagClearSplit(word: bv16)
    ensures word < 0x8000 ==> word == ValueBits(word)
  {
  }

  /** occured(): the most significant bit of the word is set. */
  function Occurred(e: Event): bool
  {
    OccurredBit(e.data)
  }

  /** value(): the word with its most significant bit cleared. */
  function Value(e: Event): bv16
  {
    ValueBits(e.data)
  }

  /** The word that carries a given flag and value: the inverse of the two
      accessors, so together they decompose a word without loss. */
  function Compose(occurred: bool, value: bv16): (e: Event)
    requires value < 0x8000
    ensures Occurred(e) == occurred && Value(e) == value
  {
    Event(if occurred then value | 0x8000 else value)
  }

  /** A zeroed word (what a failed read leaves behind) has not occurred and
      carries value 0. */
  lemma ZeroWord()
    ensures !Occurred(Event(0)) && Value(Event(0)) == 0
  {
  }

  /** operator==: raw equality of the 16-bit words. */
  function Equal(a: Event, b: Event): (r: bool)
    ensures r <==> a == b
  {
    a.data == b.data
  }

  /** operator!=: the negation of operator==. */
  function NotEqual(a: Event, b: Event): (r: bool)
    ensures r <==> a != b
  {
    !Equal(a, b)
  }
}
