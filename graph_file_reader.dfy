/**
 * The record format: a record such as "AB10" names the parent (its first character), the child
 * (its second character) and the latency (the decimal number from the third character on).
 */
module GraphFileReader {
  import opened Wrappers
  import opened GraphTuples

  /** MalformedInputFormat is the format check's exception; NumberFormat is the number parser's. */
  datatype ReadError = MalformedInputFormat | NumberFormat

  /** The largest value of a Java int. */
  const MaxInt: int := 0x7fff_ffff

  predicate IsDigit(c: char)
  {
    '0' <= c <= '9'
  }

  predicate AllDigits(s: string)
  {
    forall i :: 0 <= i < |s| ==> IsDigit(s[i])
  }

  function DigitValue(c: char): (d: nat)
    requires IsDigit(c)
    ensures d < 10 && DigitChar(d) == c
  {
    (c - '0') as nat
  }

  function DigitChar(d: nat): (c: char)
    requires d < 10
    ensures IsDigit(c)
  {
    '0' + d as char
  }

  /** The value of a string of decimal digits, most significant first. */
  function DecimalValue(s: string): (n: nat)
    requires AllDigits(s)
  {
    if s == [] then 0 else DecimalValue(s[..|s| - 1]) * 10 + DigitValue(s[|s| - 1])
  }

  /** The decimal digits of n, most significant first, without leading zeros. */
  function DecimalString(n: nat): (s: string)
  {
    if n < 10 then [DigitChar(n)] else DecimalString(n / 10) + [DigitChar(n % 10)]
  }

  /** A digit string without a superfluous leading zero. */
  predicate Canonical(s: string)
  {
    |s| >= 1 && AllDigits(s) && (|s| == 1 || s[0] != '0')
  }

  /**
   * The number parser on a digit string that starts with a digit: the value when every character
   * is a digit and the value fits a Java int, NumberFormat otherwise.
   */
  function ParseLatency(s: string): (r: Result<int, ReadError>)
    ensures r.Success? <==> AllDigits(s) && DecimalValue(s) <= MaxInt
    ensures r.Success? ==> 0 <= r.value <= MaxInt && r.value == DecimalValue(s)
    ensures r.Failure? ==> r.error == NumberFormat
  {
    if AllDigits(s) && DecimalValue(s) <= MaxInt then Success(DecimalValue(s)) else Failure(NumberFormat)
  }

  /** A tuple that a record can denote: one-character names and a latency that fits a Java int. */
  predicate RecordTuple(t: GraphTuple)
  {
    |t.parentName| == 1 && |t.childName| == 1 && 0 <= t.latency <= MaxInt
  }

  /**
   * One record (None is Java's null). A record that is missing, shorter than three characters or
   * whose third character is not a digit is malformed; otherwise the tail must parse as a number.
   */
  function ParseRecord(record: Option<string>): (r: Result<GraphTuple, ReadError>)
    ensures r == Failure(MalformedInputFormat) <==>
              record.None? || |record.value| < 3 || !IsDigit(record.value[2])
    ensures r.Success? <==>
              && record.Some? && |record.value| >= 3
              && AllDigits(record.value[2..]) && DecimalValue(record.value[2..]) <= MaxInt
    ensures r.Success? ==>
              && RecordTuple(r.value)
              && record.Some?
              && record.value == r.value.parentName + r.value.childName + record.value[2..]
              && AllDigits(record.value[2..])
              && DecimalValue(record.value[2..]) == r.value.latency
  {
    if record.None? || |record.value| < 3 || !IsDigit(record.value[2]) then
      Failure(MalformedInputFormat)
    else
      var s := record.value;
      match ParseLatency(s[2..])
      case Failure(e) => Failure(e)
      case Success(latency) =>
        assert s == [s[0]] + [s[1]] + s[2..];
        Success(GraphTuple([s[0]], [s[1]], latency))
  }

  /** The record text of a tuple: the two names followed by the latency in decimal. */
  function FormatRecord(t: GraphTuple): (s: string)
    requires RecordTuple(t)
    ensures |s| >= 3 && Canonical(s[2..])
  {
    DecimalStringCanonical(t.latency);
    t.parentName + t.childName + DecimalString(t.latency)
  }

  lemma {:induction false} DecimalStringCanonical(n: nat)
    ensures Canonical(DecimalString(n))
    ensures n >= 1 ==> DecimalString(n)[0] != '0'
  {
    if n >= 10 {
      var p := DecimalString(n / 10);
      DecimalStringCanonical(n / 10);
      var s := DecimalString(n);
      assert s == p + [DigitChar(n % 10)];
      forall i | 0 <= i < |s|
        ensures IsDigit(s[i])
      {
        if i < |p| {
          assert s[i] == p[i];
        }
      }
    }
  }

  /** Reading back the digits of n gives n. */
  lemma {:induction false} DecimalRoundTrip(n: nat)
    ensures AllDigits(DecimalString(n)) && DecimalValue(DecimalString(n)) == n
  {
    DecimalStringCanonical(n);
    if n >= 10 {
      var s := DecimalString(n);
      DecimalRoundTrip(n / 10);
      assert s[..|s| - 1] == DecimalString(n / 10);
    }
  }

  /** A canonical digit string of two or more digits is worth at least 10. */
  lemma {:induction false} CanonicalAtLeast(s: string)
    requires Canonical(s)
    ensures |s| >= 2 ==> DecimalValue(s) >= 10
    ensures |s| >= 2 ==> Canonical(s[..|s| - 1])
  {
    if |s| >= 2 {
      var p := s[..|s| - 1];
      assert p[0] == s[0];
      if |p| >= 2 {
        CanonicalAtLeast(p);
      } else {
        assert p == [s[0]];
      }
    }
  }

  /** Writing the value of a canonical digit string gives the string back. */
  lemma {:induction false} DecimalCanonicalRoundTrip(s: string)
    requires Canonical(s)
    ensures DecimalString(DecimalValue(s)) == s
  {
    CanonicalAtLeast(s);
    var n := DecimalValue(s);
    if |s| >= 2 {
      var p := s[..|s| - 1];
      DecimalCanonicalRoundTrip(p);
      assert n / 10 == DecimalValue(p) && n % 10 == DigitValue(s[|s| - 1]);
      assert s == p + [s[|s| - 1]];
    } else {
      assert s == [s[0]];
    }
  }

  /** A leading zero does not change the value of a digit string. */
  lemma {:induction false} LeadingZero(s: string)
    requires AllDigits(s)
    ensures AllDigits(['0'] + s) && DecimalValue(['0'] + s) == DecimalValue(s)
  {
    var z := ['0'] + s;
    assert forall i :: 0 < i < |z| ==> z[i] == s[i - 1];
    if s != [] {
      var p := s[..|s| - 1];
      LeadingZero(p);
      assert z[..|z| - 1] == ['0'] + p;
    }
  }

  /** Formatting a tuple and parsing the record gives the tuple back. */
  lemma RecordRoundTrip(t: GraphTuple)
    requires RecordTuple(t)
    ensures ParseRecord(Some(FormatRecord(t))) == Success(t)
  {
    var s := FormatRecord(t);
    assert s[2..] == DecimalString(t.latency);
    DecimalRoundTrip(t.latency);
    assert [s[0]] == t.parentName && [s[1]] == t.childName;
  }

  /**
   * A record whose latency is written without leading zeros is exactly the formatted tuple it
   * parses to (so parsing is one-to-one on such records; "AB010" and "AB10" parse alike).
   */
  lemma RecordCanonical(s: string)
    requires ParseRecord(Some(s)).Success? && Canonical(s[2..])
    ensures FormatRecord(ParseRecord(Some(s)).value) == s
  {
    DecimalCanonicalRoundTrip(s[2..]);
  }

  /**
   * The parsing loop: one tuple per record, in order, or the error of the first record that
   * fails (no list at all then). The records stand for the file's contents split at ", ".
   */
  method GetGraphTuplesForFile(records: seq<Option<string>>) returns (r: Result<seq<GraphTuple>, ReadError>)
    ensures r.Success? <==> forall i :: 0 <= i < |records| ==> ParseRecord(records[i]).Success?
    ensures r.Success? ==>
              && |r.value| == |records|
              && forall i :: 0 <= i < |records| ==> r.value[i] == ParseRecord(records[i]).value
    ensures r.Failure? ==>
              exists i :: 0 <= i < |records|
                && (forall j :: 0 <= j < i ==> ParseRecord(records[j]).Success?)
                && ParseRecord(records[i]) == Failure(r.error)
  {
    var graphTuples: seq<GraphTuple> := [];
    for i := 0 to |records|
      invariant |graphTuples| == i
      invariant forall j :: 0 <= j < i ==> ParseRecord(records[j]).Success?
      invariant forall j :: 0 <= j < i ==> graphTuples[j] == ParseRecord(records[j]).value
    {
      match ParseRecord(records[i])
      case Failure(e) =>
        return Failure(e);
      case Success(t) =>
        graphTuples := graphTuples + [t];
    }
    return Success(graphTuples);
  }

  /** The record "AB10" is the edge A -> B with latency 10. */
  lemma ExampleTwoDigitLatency()
    ensures ParseRecord(Some("AB10")) == Success(GraphTuple("A", "B", 10))
  {
    assert "AB10"[2..] == DecimalString(10);
    DecimalRoundTrip(10);
  }

  /** The record "CA1200" is the edge C -> A with latency 1200. */
  lemma ExampleFourDigitLatency()
    ensures ParseRecord(Some("CA1200")) == Success(GraphTuple("C", "A", 1200))
  {
    assert "CA1200"[2..] == DecimalString(1200);
    DecimalRoundTrip(1200);
  }

  /** A three-character name pair pushes a letter into the latency position: "AAB1" is malformed. */
  lemma ExampleNameTooLong()
    ensures ParseRecord(Some("AAB1")) == Failure(MalformedInputFormat)
  {
  }

  /** A latency that is not all digits is a number format error, not a malformed record. */
  lemma ExampleLatencyNotANumber()
    ensures ParseRecord(Some("AB1x")) == Failure(NumberFormat)
  {
    assert !IsDigit("AB1x"[2..][1]);
  }

  /** Leading zeros in the latency are read past: "AB010" denotes the same edge as "AB10". */
  lemma ExampleLeadingZero()
    ensures ParseRecord(Some("AB010")) == ParseRecord(Some("AB10"))
  {
    assert "AB10"[2..] == DecimalString(10);
    DecimalRoundTrip(10);
    assert "AB010"[2..] == ['0'] + "AB10"[2..];
    LeadingZero("AB10"[2..]);
  }
}
