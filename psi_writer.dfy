/** The parts of save_psi that compute values: the checksum text, the rate
    written in kHz and the calibration attributes written for a probe.  The
    XML tree itself is not modelled.  (src/pslib/v1_0/save_psi.h) */
module PsiWriter {
  import opened Wrappers
  import Psis
  import Probes
  import PsdFiles

  /** The digits std::hex writes, in lower case. */
  const HexDigits: string := "0123456789abcdef"

  /** A value below 16 as a hexadecimal digit. */
  function HexDigit(d: nat): char
    requires d < 16
  {
    HexDigits[d]
  }

  /** The value of a lower-case hexadecimal digit. */
  function HexValue(c: char): nat
  {
    if '0' <= c <= '9' then c as nat - 48
    else if 'a' <= c <= 'f' then c as nat - 97 + 10
    else 0
  }

  /** The digit of d is a lower-case hexadecimal digit, and reading it
      gives d back. */
  lemma HexDigitValue(d: nat)
    requires d < 16
    ensures '0' <= HexDigit(d) <= '9' || 'a' <= HexDigit(d) <= 'f'
    ensures HexValue(HexDigit(d)) == d
  {
  }

  /** n nibbles of c, least significant first: the digit of c & 0xF, then of
      the rest shifted right by four bits. */
  function HexNibbles(c: nat, n: nat): (s: string)
    ensures |s| == n
  {
    if n == 0 then [] else [HexDigit(c % 16)] + HexNibbles(c / 16, n - 1)
  }

  /** The value shifted right by 4k bits. */
  function Shift(c: nat, k: nat): nat
  {
    if k == 0 then c else Shift(c / 16, k - 1)
  }

  function Pow16(n: nat): (r: nat)
    ensures r >= 1
  {
    if n == 0 then 1 else 16 * Pow16(n - 1)
  }

  /** The loop of save_psi that writes the checksum: "0x", then eight times
      the digit of cksum & 0xF followed by cksum >>= 4. */
  method ChecksumText(checksum: Psis.uint32) returns (text: string)
    ensures text == "0x" + HexNibbles(checksum as nat, 8)
  {
    ghost var full := "0x" + HexNibbles(checksum as nat, 8);
    text := "0x";
    var cksum: nat := checksum as nat;
    for i := 0 to 8
      invariant text + HexNibbles(cksum, 8 - i) == full
    {
      var digit := HexDigit(cksum % 16);
      ChecksumStep(text, cksum, 8 - i);
      text := text + [digit];
      cksum := cksum / 16;
    }
    assert HexNibbles(cksum, 0) == [];
    assert text + [] == text;
  }

  /** One turn of the loop moves the digit of the low nibble from the
      nibbles still to write to the text written. */
  lemma ChecksumStep(text: string, c: nat, m: nat)
    requires m > 0
    ensures text + HexNibbles(c, m) == (text + [HexDigit(c % 16)]) + HexNibbles(c / 16, m - 1)
  {
    var rest := HexNibbles(c / 16, m - 1);
    assert HexNibbles(c, m) == [HexDigit(c % 16)] + rest;
    assert text + ([HexDigit(c % 16)] + rest) == (text + [HexDigit(c % 16)]) + rest;
  }

  /** Character k of the nibbles is the digit of (c >> 4k) & 0xF. */
  lemma {:induction false} NibbleAt(c: nat, n: nat, k: nat)
    requires k < n
    ensures HexNibbles(c, n)[k] == HexDigit(Shift(c, k) % 16)
  {
    var s := HexNibbles(c, n);
    assert s == [HexDigit(c % 16)] + HexNibbles(c / 16, n - 1);
    if k > 0 {
      NibbleAt(c / 16, n - 1, k - 1);
      assert s[k] == HexNibbles(c / 16, n - 1)[k - 1];
      assert Shift(c, k) == Shift(c / 16, k - 1);
    } else {
      assert Shift(c, 0) == c;
      assert s[0] == HexDigit(c % 16);
    }
  }

  /** The checksum text is "0x" and eight lower-case hexadecimal digits,
      the k-th being nibble k of the checksum. */
  lemma ChecksumTextShape(checksum: Psis.uint32)
    ensures
      var c := checksum as nat;
      var text := "0x" + HexNibbles(c, 8);
      && |text| == 10 && text[..2] == "0x" && text[2..] == HexNibbles(c, 8)
      && forall k :: 0 <= k < 8 ==> HexNibbles(c, 8)[k] == HexDigit(Shift(c, k) % 16)
  {
    var c := checksum as nat;
    var text := "0x" + HexNibbles(c, 8);
    assert text[2..] == HexNibbles(c, 8);
    forall k | 0 <= k < 8
      ensures HexNibbles(c, 8)[k] == HexDigit(Shift(c, k) % 16)
    {
      NibbleAt(c, 8, k);
    }
  }

  /** Reading the digits back, least significant first. */
  function DecodeNibbles(s: string): nat
  {
    if |s| == 0 then 0 else HexValue(s[0]) + 16 * DecodeNibbles(s[1..])
  }

  /** A value of fewer than 4n bits is written out completely by n nibbles. */
  lemma {:induction false} NibblesRoundTrip(c: nat, n: nat)
    requires c < Pow16(n)
    ensures DecodeNibbles(HexNibbles(c, n)) == c
  {
    if n > 0 {
      NibblesRoundTrip(c / 16, n - 1);
      HexDigitValue(c % 16);
      assert HexNibbles(c, n)[1..] == HexNibbles(c / 16, n - 1);
    }
  }

  /** Shifting a value of fewer than 4n bits n times leaves nothing. */
  lemma {:induction false} ShiftedOut(c: nat, n: nat)
    requires c < Pow16(n)
    ensures Shift(c, n) == 0
  {
    if n > 0 {
      ShiftedOut(c / 16, n - 1);
    }
  }

  lemma Pow16Eight()
    ensures Pow16(8) == 0x1_0000_0000
  {
    assert Pow16(2) == 256;
    assert Pow16(4) == 65536;
    assert Pow16(6) == 16777216;
  }

  /** All 32 bits of the checksum are written exactly once: the eight
      digits decode to the checksum, and nothing is left after the eighth
      shift. */
  lemma ChecksumDigitsComplete(checksum: Psis.uint32)
    ensures DecodeNibbles(HexNibbles(checksum as nat, 8)) == checksum as nat
    ensures Shift(checksum as nat, 8) == 0
  {
    Pow16Eight();
    NibblesRoundTrip(checksum as nat, 8);
    ShiftedOut(checksum as nat, 8);
  }

  predicate IsSign(c: char)
  {
    c == '+' || c == '-'
  }

  /** How load_psi reads the checksum back: lexical_cast<uint32_t> of the
      text after "0x", that is, a decimal number with an optional '+' or '-'
      in front; a '-' negates the magnitude modulo 2^32.  An empty number,
      any other character or a magnitude beyond 32 bits is a
      bad_lexical_cast, which load_psi turns into an error (None). */
  function ReadChecksum(text: string): (r: Option<nat>)
    requires |text| >= 2
    ensures r.Some? ==> r.value < 0x1_0000_0000
    ensures r.Some? ==> |text| > 2 && ('0' <= text[2] <= '9' || IsSign(text[2]))
    ensures r.Some? ==> forall i :: 3 <= i < |text| ==> '0' <= text[i] <= '9'
  {
    var signed := |text| > 2 && IsSign(text[2]);
    var digits := if signed then text[3..] else text[2..];
    if |digits| == 0 || exists i :: 0 <= i < |digits| && !('0' <= digits[i] <= '9') then None
    else if PsdFiles.DecimalValue(digits) >= 0x1_0000_0000 then None
    else if signed && text[2] == '-' then Some((0x1_0000_0000 - PsdFiles.DecimalValue(digits)) % 0x1_0000_0000)
    else Some(PsdFiles.DecimalValue(digits))
  }

  /** A '-' in front wraps around: "-1" reads as the largest uint32_t. */
  lemma MinusOneWraps()
    ensures ReadChecksum("0x-1") == Some(0xFFFF_FFFF)
  {
    var text := "0x-1";
    assert IsSign(text[2]) && text[2] == '-';
    assert text[3..] == "1";
    assert PsdFiles.DecimalValue("1") == 1 by {
      assert "1"[..0] == [];
    }
  }

  /** The checksum text does not survive load_psi.  A checksum c below 10
      is written as its digit followed by seven zeros and read back as
      c * 10^7, which is c only for 0 (the checksum of the tests). */
  lemma ChecksumMisread(c: nat)
    requires c <= 9
    ensures ReadChecksum("0x" + HexNibbles(c, 8)) == Some(c * 10000000)
    ensures ReadChecksum("0x" + HexNibbles(c, 8)) == Some(c) <==> c == 0
  {
    var text := "0x" + HexNibbles(c, 8);
    LeadingNibble(c, 8);
    HexDigitDecimal(c);
    assert text[2..] == [HexDigit(c)] + Zeros(7);
    assert Pow10(7) == 10000000;
    ReadLeadingDigit(text, HexDigit(c), 7);
  }

  /** "0x", a decimal digit and n zeros read back as the digit times 10^n. */
  lemma ReadLeadingDigit(text: string, x: char, n: nat)
    requires |text| >= 2 && text[2..] == [x] + Zeros(n)
    requires '0' <= x <= '9' && (x as nat - 48) * Pow10(n) < 0x1_0000_0000
    ensures ReadChecksum(text) == Some((x as nat - 48) * Pow10(n))
  {
    DigitThenZeros(x, n);
  }

  /** A checksum from 10 to 15 is written with a letter, which the decimal
      read rejects: load_psi fails on it. */
  lemma ChecksumLetterRejected(c: nat)
    requires 10 <= c < 16
    ensures ReadChecksum("0x" + HexNibbles(c, 8)) == None
  {
    var text := "0x" + HexNibbles(c, 8);
    LeadingNibble(c, 8);
    HexDigitValue(c);
    assert text[2] == HexDigit(c);
    NonDigitRejected(text, 2);
  }

  /** A character other than a decimal digit after "0x" fails the read,
      except a sign in first place. */
  lemma NonDigitRejected(text: string, i: nat)
    requires 2 <= i < |text| && !('0' <= text[i] <= '9')
    requires i == 2 ==> !IsSign(text[2])
    ensures ReadChecksum(text) == None
  {
  }

  function Zeros(n: nat): (s: string)
    ensures |s| == n
  {
    seq(n, _ => '0')
  }

  function Pow10(n: nat): nat
  {
    if n == 0 then 1 else 10 * Pow10(n - 1)
  }

  /** A value below 16 is written as its digit followed by zeros. */
  lemma LeadingNibble(c: nat, n: nat)
    requires c < 16 && n >= 1
    ensures HexNibbles(c, n) == [HexDigit(c)] + Zeros(n - 1)
  {
    assert c / 16 == 0 && c % 16 == c;
    ZeroNibbles(n - 1);
  }

  lemma {:induction false} ZeroNibbles(n: nat)
    ensures HexNibbles(0, n) == Zeros(n)
  {
    if n > 0 {
      ZeroNibbles(n - 1);
      assert HexNibbles(0, n) == [HexDigit(0)] + Zeros(n - 1);
    }
  }

  /** The digit of a value below 10 is its decimal digit. */
  lemma HexDigitDecimal(d: nat)
    requires d < 10
    ensures HexDigit(d) as nat == 48 + d
  {
    HexDigitValue(d);
  }

  /** A decimal digit followed by n zeros reads as the digit times 10^n. */
  lemma {:induction false} DigitThenZeros(x: char, n: nat)
    requires '0' <= x <= '9'
    ensures forall i :: 0 <= i < n + 1 ==> '0' <= ([x] + Zeros(n))[i] <= '9'
    ensures PsdFiles.DecimalValue([x] + Zeros(n)) == (x as nat - 48) * Pow10(n)
  {
    var s := [x] + Zeros(n);
    if n > 0 {
      DigitThenZeros(x, n - 1);
      assert s[..|s| - 1] == [x] + Zeros(n - 1);
      assert s[|s| - 1] == '0';
    }
  }

  /** The n hexadecimal digits of c, most significant first: the order in
      which a "0x" literal is read. */
  function HexDigitsMsb(c: nat, n: nat): (s: string)
    ensures |s| == n
    ensures forall i :: 0 <= i < |s| ==> '0' <= s[i] <= '9' || 'a' <= s[i] <= 'f'
  {
    if n == 0 then []
    else
      HexDigitValue(c % 16);
      HexDigitsMsb(c / 16, n - 1) + [HexDigit(c % 16)]
  }

  /** The value of hexadecimal digits, most significant first. */
  function HexValueMsb(s: string): nat
  {
    if |s| == 0 then 0 else 16 * HexValueMsb(s[..|s| - 1]) + HexValue(s[|s| - 1])
  }

  /** The checksum text as evidently intended: "0x" and the eight digits,
      most significant first. */
  function IntendedChecksumText(checksum: Psis.uint32): (text: string)
    ensures |text| == 10 && text[..2] == "0x"
  {
    "0x" + HexDigitsMsb(checksum as nat, 8)
  }

  /** The matching read: the digits after "0x" as a hexadecimal number. */
  function ReadHexChecksum(text: string): (r: Option<nat>)
    requires |text| >= 2
    ensures r.Some? ==> |text| > 2
  {
    var digits := text[2..];
    if |digits| == 0 || exists i :: 0 <= i < |digits| && !('0' <= digits[i] <= '9' || 'a' <= digits[i] <= 'f') then None
    else Some(HexValueMsb(digits))
  }

  lemma {:induction false} HexDigitsMsbRoundTrip(c: nat, n: nat)
    requires c < Pow16(n)
    ensures HexValueMsb(HexDigitsMsb(c, n)) == c
  {
    if n > 0 {
      var s := HexDigitsMsb(c, n);
      HexDigitsMsbRoundTrip(c / 16, n - 1);
      HexDigitValue(c % 16);
      assert s[..|s| - 1] == HexDigitsMsb(c / 16, n - 1);
    }
  }

  /** Every 32-bit checksum survives the intended write and read. */
  lemma IntendedChecksumRoundTrip(checksum: Psis.uint32)
    ensures ReadHexChecksum(IntendedChecksumText(checksum)) == Some(checksum as nat)
  {
    var text := IntendedChecksumText(checksum);
    assert text[2..] == HexDigitsMsb(checksum as nat, 8);
    Pow16Eight();
    HexDigitsMsbRoundTrip(checksum as nat, 8);
  }

  /** The rate is written in kHz: sampling_rate / 1000, truncated. */
  function RateInKilohertz(rate: nat): (k: nat)
    ensures k * 1000 <= rate < (k + 1) * 1000
  {
    rate / 1000
  }

  /** load_psi multiplies the written value by 1000. */
  function RateFromKilohertz(k: nat): (rate: nat)
    ensures rate % 1000 == 0
  {
    k * 1000
  }

  /** The rate survives the XML exactly when it is a multiple of 1000 Hz;
      otherwise it comes back rounded down to one. */
  lemma RateRoundTrip(rate: nat)
    ensures RateFromKilohertz(RateInKilohertz(rate)) == rate <==> rate % 1000 == 0
    ensures RateFromKilohertz(RateInKilohertz(rate)) == rate - rate % 1000
  {
  }

  /** The calibration attributes written for a probe: only the bounds that
      are present, in the order voltageMin, voltageMax, currentMin,
      currentMax. */
  function CalibrationAttributes(probe: Probes.Probe): (attrs: seq<(string, real)>)
    ensures |attrs| <= 4
    ensures forall v :: ("voltageMin", v) in attrs <==> probe.voltageMin == Some(v)
    ensures forall v :: ("voltageMax", v) in attrs <==> probe.voltageMax == Some(v)
    ensures forall v :: ("currentMin", v) in attrs <==> probe.currentMin == Some(v)
    ensures forall v :: ("currentMax", v) in attrs <==> probe.currentMax == Some(v)
  {
    Attribute("voltageMin", probe.voltageMin) + Attribute("voltageMax", probe.voltageMax)
    + Attribute("currentMin", probe.currentMin) + Attribute("currentMax", probe.currentMax)
  }

  /** The attribute written for one bound: none when it is absent. */
  function Attribute(name: string, bound: Option<real>): (a: seq<(string, real)>)
    ensures |a| <= 1
    ensures forall n, v :: (n, v) in a <==> n == name && bound == Some(v)
  {
    if bound.Some? then [(name, bound.value)] else []
  }
}
