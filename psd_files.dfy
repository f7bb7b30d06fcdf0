/** The .psd segment files as the reader and the writer see them: a file is
    the sequence of fixed-size records written into it plus its length in
    bytes; bytes past the written records are zero (resize_file pads with
    zeros).  The disk maps file names to files.  Also std::to_string for
    the segment ids, which the writer uses to name its files. */
module PsdFiles {
  import opened DataStreams
  import opened Events
  import Arith

  /** One row as stored: p data streams, then p+1 events. */
  datatype Record = Record(values: seq<DataStream>, events: seq<Event>)

  /** sizeof(data_stream_t) (two doubles) and sizeof(event_t). */
  const DataStreamBytes: nat := 16
  const EventBytes: nat := 2

  /** The size in bytes of a record of p probes. */
  function RecordBytes(p: nat): nat
  {
    DataStreamBytes * p + EventBytes * (p + 1)
  }

  /** The writer pads every file to at least this many bytes. */
  const GiB: nat := 1024 * 1024 * 1024

  datatype PsdFile = PsdFile(records: seq<Record>, size: nat)

  type Disk = map<string, PsdFile>

  predicate Shaped(r: Record, p: nat)
  {
    |r.values| == p && |r.events| == p + 1
  }

  /** The file holds records of p probes, followed by zero bytes up to its
      size. */
  predicate Fits(f: PsdFile, p: nat)
  {
    && (forall j :: 0 <= j < |f.records| ==> Shaped(f.records[j], p))
    && |f.records| * RecordBytes(p) <= f.size
  }

  /** What a read of zero bytes, or of a short tail, leaves in a row: the
      value-initialised data streams and events. */
  function ZeroRecord(p: nat): (r: Record)
    ensures Shaped(r, p)
    ensures forall i :: 0 <= i < p ==> r.values[i] == Zero
    ensures forall i :: 0 <= i <= p ==> r.events[i] == Event(0)
  {
    Record(seq(p, _ => Zero), seq(p + 1, _ => Event(0)))
  }

  /** The number of whole records a file holds, padding included. */
  function CompleteRows(f: PsdFile, p: nat): (n: nat)
    ensures n * RecordBytes(p) <= f.size < (n + 1) * RecordBytes(p)
  {
    f.size / RecordBytes(p)
  }

  /** Every written record is a complete one. */
  lemma WrittenRowsComplete(f: PsdFile, p: nat)
    requires Fits(f, p)
    ensures |f.records| <= CompleteRows(f, p)
  {
    Arith.FloorDivBound(|f.records|, f.size, RecordBytes(p));
  }

  /** The j-th record read from the file: a written one, or zeros from the
      padding or past the end. */
  function RecordAt(f: PsdFile, p: nat, j: nat): (r: Record)
    requires Fits(f, p)
    ensures Shaped(r, p)
    ensures j < |f.records| ==> r == f.records[j]
    ensures j >= |f.records| ==> r == ZeroRecord(p)
  {
    if j < |f.records| then f.records[j] else ZeroRecord(p)
  }

  /** A decimal digit as its ASCII character. */
  function DigitChar(d: nat): (c: char)
    requires d < 10
    ensures '0' <= c <= '9'
  {
    (48 + d) as char
  }

  /** std::to_string of a non-negative integer: its decimal digits, most
      significant first, without leading zeros. */
  function NatToString(n: nat): (s: string)
    ensures 1 <= |s|
    ensures forall i :: 0 <= i < |s| ==> '0' <= s[i] <= '9'
    ensures n < 10 <==> |s| == 1
  {
    if n < 10 then [DigitChar(n)] else NatToString(n / 10) + [DigitChar(n % 10)]
  }

  /** Decoding the decimal text gives the number back. */
  function DecimalValue(s: string): nat
    requires forall i :: 0 <= i < |s| ==> '0' <= s[i] <= '9'
  {
    if |s| == 0 then 0 else 10 * DecimalValue(s[..|s| - 1]) + (s[|s| - 1] as nat - 48)
  }

  lemma {:induction false} NatToStringRoundTrip(n: nat)
    ensures DecimalValue(NatToString(n)) == n
  {
    var s := NatToString(n);
    if n >= 10 {
      NatToStringRoundTrip(n / 10);
      assert s[..|s| - 1] == NatToString(n / 10);
    }
  }

  /** std::to_string of an int64: a '-' exactly for a negative number,
      then decimal digits (IntToStringDigits). */
  function IntToString(n: int): (s: string)
    ensures |s| >= 1 && (s[0] == '-' <==> n < 0)
  {
    if n >= 0 then NatToString(n) else "-" + NatToString(-n)
  }

  /** The digits after the optional sign read back as the magnitude. */
  lemma IntToStringDigits(n: int)
    ensures
      var s := IntToString(n);
      var digits := if n < 0 then s[1..] else s;
      && |digits| >= 1
      && (forall i :: 0 <= i < |digits| ==> '0' <= digits[i] <= '9')
      && DecimalValue(digits) == (if n < 0 then -n else n)
  {
    var magnitude: nat := if n < 0 then -n else n;
    NatToStringRoundTrip(magnitude);
    if n < 0 {
      assert IntToString(n)[1..] == NatToString(magnitude);
    }
  }

  lemma NatToStringInjective(a: nat, b: nat)
    requires NatToString(a) == NatToString(b)
    ensures a == b
  {
    NatToStringRoundTrip(a);
    NatToStringRoundTrip(b);
  }

  /** Different integers have different decimal texts. */
  lemma IntToStringInjective(a: int, b: int)
    requires IntToString(a) == IntToString(b)
    ensures a == b
  {
    var s := IntToString(a);
    IntToStringDigits(a);
    IntToStringDigits(b);
    if a < 0 {
      assert DecimalValue(s[1..]) == -a == -b;
    } else {
      assert DecimalValue(s) == a == b;
    }
  }

  /** The name save_samples gives the file of segment `id`. */
  function WriterFilename(directory: string, baseName: string, id: int): string
  {
    directory + "/" + baseName + "_" + IntToString(id) + ".psd"
  }

  lemma CancelAffixes(prefix: string, x: string, y: string, suffix: string)
    requires prefix + x + suffix == prefix + y + suffix
    ensures x == y
  {
    var l := prefix + x + suffix;
    assert |x| == |y|;
    assert x == l[|prefix|..|prefix| + |x|];
  }

  /** Distinct segment ids give distinct file names in one directory. */
  lemma WriterFilenameInjective(directory: string, baseName: string, a: int, b: int)
    requires WriterFilename(directory, baseName, a) == WriterFilename(directory, baseName, b)
    ensures a == b
  {
    var prefix := directory + "/" + baseName + "_";
    assert WriterFilename(directory, baseName, a) == prefix + IntToString(a) + ".psd";
    assert WriterFilename(directory, baseName, b) == prefix + IntToString(b) + ".psd";
    CancelAffixes(prefix, IntToString(a), IntToString(b), ".psd");
    IntToStringInjective(a, b);
  }

  lemma FilenameExample()
    ensures WriterFilename("data", "run", 12) == "data/run_12.psd"
  {
    assert NatToString(12) == NatToString(1) + [DigitChar(2)];
  }
}
