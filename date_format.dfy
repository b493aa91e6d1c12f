// PHP's date('Y-m-d-H-i-s'), the timestamp that names every backup of the
// product store. The clock itself is an input: a handler receives the
// broken-down local time at which it runs.

module DateFormat {
  import opened Support

  datatype DateTime = DateTime(year: nat, month: nat, day: nat, hour: nat, minute: nat, second: nat)
  {
    /** The ranges PHP's clock can produce (year is not bounded: 'Y' widens past 9999). */
    predicate Valid()
    {
      && 1 <= month <= 12
      && 1 <= day <= 31
      && hour < 24
      && minute < 60
      && second < 60
    }
  }

  /** One `-`-separated two-digit field of a stamp. */
  function Field(x: nat): string
  {
    "-" + ZeroPad(x, 2)
  }

  /** `date('Y-m-d-H-i-s')`: the year in at least four digits, every other field in two. */
  function FormatYmdHis(t: DateTime): string
  {
    ZeroPad(t.year, 4) + Field(t.month) + Field(t.day) + Field(t.hour) + Field(t.minute) + Field(t.second)
  }

  /** What a formatted stamp looks like: the year's digits followed by
      fifteen characters `-mm-dd-HH-ii-ss`. */
  predicate IsStampShape(s: string)
  {
    && |s| >= 19
    && AllDigits(s[..|s| - 15])
    && AllDigits(s[|s| - 14..|s| - 12])
    && AllDigits(s[|s| - 11..|s| - 9])
    && AllDigits(s[|s| - 8..|s| - 6])
    && AllDigits(s[|s| - 5..|s| - 3])
    && AllDigits(s[|s| - 2..])
  }

  /** Reads the fields of a stamp back, counting from its end. */
  function ParseYmdHis(s: string): DateTime
    requires IsStampShape(s)
  {
    var n := |s| - 15;
    DateTime(ParseDecimal(s[..n]), ParseDecimal(s[n + 1..n + 3]), ParseDecimal(s[n + 4..n + 6]),
             ParseDecimal(s[n + 7..n + 9]), ParseDecimal(s[n + 10..n + 12]), ParseDecimal(s[n + 13..]))
  }

  lemma TwoDigits(x: nat)
    requires x < 100
    ensures |ZeroPad(x, 2)| == 2
    ensures ParseDecimal(ZeroPad(x, 2)) == x
  {
    assert Pow10(2) == 100 by { assert Pow10(1) == 10; }
    ZeroPadExactWidth(x, 2);
    ParseZeroPad(x, 2);
  }

  /** Appending a field keeps what was there and puts the digits at known places. */
  lemma AppendField(p: string, x: nat)
    requires x < 100
    ensures |p + Field(x)| == |p| + 3
    ensures (p + Field(x))[..|p|] == p
    ensures (p + Field(x))[|p| + 1..|p| + 3] == ZeroPad(x, 2)
  {
    TwoDigits(x);
  }

  /** Where each field of a formatted stamp sits, counted from the end. */
  lemma StampSlices(t: DateTime)
    requires t.Valid()
    ensures var s := FormatYmdHis(t); var n := |ZeroPad(t.year, 4)|;
      && |s| == n + 15
      && s[..n] == ZeroPad(t.year, 4)
      && s[n + 1..n + 3] == ZeroPad(t.month, 2)
      && s[n + 4..n + 6] == ZeroPad(t.day, 2)
      && s[n + 7..n + 9] == ZeroPad(t.hour, 2)
      && s[n + 10..n + 12] == ZeroPad(t.minute, 2)
      && s[n + 13..] == ZeroPad(t.second, 2)
  {
    var p0 := ZeroPad(t.year, 4);
    var p1 := p0 + Field(t.month);
    var p2 := p1 + Field(t.day);
    var p3 := p2 + Field(t.hour);
    var p4 := p3 + Field(t.minute);
    var s := p4 + Field(t.second);
    var n := |p0|;
    AppendField(p0, t.month);
    AppendField(p1, t.day);
    AppendField(p2, t.hour);
    AppendField(p3, t.minute);
    AppendField(p4, t.second);
    assert s[..n + 12] == p4;
    assert s[..n + 9] == p3;
    assert s[..n + 6] == p2;
    assert s[..n + 3] == p1;
  }

  /** Formatting a valid time and reading it back gives the same time. */
  lemma ParseFormatRoundTrip(t: DateTime)
    requires t.Valid()
    ensures IsStampShape(FormatYmdHis(t))
    ensures ParseYmdHis(FormatYmdHis(t)) == t
  {
    StampSlices(t);
    TwoDigits(t.month);
    TwoDigits(t.day);
    TwoDigits(t.hour);
    TwoDigits(t.minute);
    TwoDigits(t.second);
    ParseZeroPad(t.year, 4);
  }

  /** Two valid times get the same stamp only when they are the same time. */
  lemma FormatInjective(t1: DateTime, t2: DateTime)
    requires t1.Valid() && t2.Valid()
    ensures FormatYmdHis(t1) == FormatYmdHis(t2) <==> t1 == t2
  {
    ParseFormatRoundTrip(t1);
    ParseFormatRoundTrip(t2);
  }

  /** Between the years 1000 and 9999 a stamp is exactly 19 characters long. */
  lemma StampLength(t: DateTime)
    requires t.Valid() && 1000 <= t.year <= 9999
    ensures |FormatYmdHis(t)| == 19
  {
    assert Pow10(4) == 10000 by { assert Pow10(2) == 100 by { assert Pow10(1) == 10; } }
    ZeroPadExactWidth(t.year, 4);
    TwoDigits(t.month);
    TwoDigits(t.day);
    TwoDigits(t.hour);
    TwoDigits(t.minute);
    TwoDigits(t.second);
  }
}
