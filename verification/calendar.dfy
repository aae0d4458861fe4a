/** ISO-8601 calendar values as java.time represents them: LocalDate (the
    date of birth) and LocalDateTime (admission, sync and audit timestamps),
    their toString spellings, and the strict ISO_LOCAL_DATE parser that
    LocalDate.parse applies. */
module Calendar {
  import opened Text
  import opened Wrappers

  /** The year range of java.time.Year. */
  const MinYear: int := -999_999_999
  const MaxYear: int := 999_999_999

  predicate IsLeap(y: int) {
    y % 4 == 0 && (y % 100 != 0 || y % 400 == 0)
  }

  function DaysInMonth(y: int, m: int): (n: int)
    requires 1 <= m <= 12
    ensures 28 <= n <= 31
  {
    if m == 2 then (if IsLeap(y) then 29 else 28)
    else if m == 4 || m == 6 || m == 9 || m == 11 then 30
    else 31
  }

  datatype Date = Date(year: int, month: int, day: int) {
    /** The values LocalDate.of accepts. */
    predicate Valid() {
      && MinYear <= year <= MaxYear
      && 1 <= month <= 12
      && 1 <= day <= DaysInMonth(year, month)
    }
  }

  datatype DateTime = DateTime(date: Date, hour: int, minute: int, second: int, nano: int) {
    predicate Valid() {
      && date.Valid()
      && 0 <= hour < 24 && 0 <= minute < 60 && 0 <= second < 60
      && 0 <= nano < 1_000_000_000
    }

    /** The fields in order of significance. */
    function Fields(): seq<int> {
      [date.year, date.month, date.day, hour, minute, second, nano]
    }
  }

  /** java.time.LocalDate and LocalDateTime: only valid values exist. */
  type LocalDate = d: Date | d.Valid() witness Date(1970, 1, 1)
  type LocalDateTime = t: DateTime | t.Valid() witness DateTime(Date(1970, 1, 1), 0, 0, 0, 0)

  predicate LexLessEq(a: seq<int>, b: seq<int>)
    requires |a| == |b|
  {
    |a| == 0 || a[0] < b[0] || (a[0] == b[0] && LexLessEq(a[1..], b[1..]))
  }

  /** a is not after b on the time line (Java's !a.isAfter(b)). */
  predicate NotAfter(a: DateTime, b: DateTime) {
    LexLessEq(a.Fields(), b.Fields())
  }

  function Abs(y: int): nat {
    if y < 0 then -y else y
  }

  /** LocalDate's year spelling: at least four digits, '-' for negative years,
      '+' for years beyond 9999. */
  function YearText(y: int): string
    requires MinYear <= y <= MaxYear
  {
    var sign := if y > 9999 then "+" else if y < 0 then "-" else "";
    sign + PadLeft(NatText(Abs(y)), 4)
  }

  function TwoDigits(n: nat): (s: string)
    requires n < 100
    ensures |s| == 2 && AllDigits(s) && DigitsValue(s) == n
  {
    NatTextLength(n, 2);
    PaddedTextValue(n, 2);
    PadLeft(NatText(n), 2)
  }

  /** LocalDate.toString: the year, then '-', two-digit month, '-', two-digit day. */
  function DateText(d: Date): string
    requires d.Valid()
  {
    YearText(d.year) + "-" + TwoDigits(d.month) + "-" + TwoDigits(d.day)
  }

  /** The fraction LocalTime.toString writes after the '.': the fewest of
      three, six or nine digits that spell the nanoseconds exactly. */
  function FractionText(nano: nat): (f: string)
    requires 0 < nano < 1_000_000_000
    ensures |f| in {3, 6, 9} && AllDigits(f)
    ensures DigitsValue(f) * Pow10(9 - |f|) == nano
    ensures |f| == 3 <==> nano % 1_000_000 == 0
    ensures |f| == 6 <==> nano % 1_000_000 != 0 && nano % 1000 == 0
  {
    assert Pow10(3) == 1000 && Pow10(6) == 1_000_000 && Pow10(9) == 1_000_000_000;
    if nano % 1_000_000 == 0 then
      NatTextLength(nano / 1_000_000, 3);
      PaddedTextValue(nano / 1_000_000, 3);
      PadLeft(NatText(nano / 1_000_000), 3)
    else if nano % 1000 == 0 then
      NatTextLength(nano / 1000, 6);
      PaddedTextValue(nano / 1000, 6);
      PadLeft(NatText(nano / 1000), 6)
    else
      NatTextLength(nano, 9);
      PaddedTextValue(nano, 9);
      PadLeft(NatText(nano), 9)
  }

  /** LocalTime.toString: two-digit hour ':' two-digit minute; then ':' and
      the two-digit second exactly when seconds or nanos are non-zero; then
      '.' and the fraction exactly when nanos are non-zero. */
  function TimeText(t: DateTime): (s: string)
    requires t.Valid()
    ensures |s| >= 5 && s[2] == ':'
    ensures AllDigits(s[..2]) && DigitsValue(s[..2]) == t.hour
    ensures AllDigits(s[3..5]) && DigitsValue(s[3..5]) == t.minute
    ensures |s| == 5 <==> t.second == 0 && t.nano == 0
    ensures |s| > 5 ==> |s| >= 8 && s[5] == ':' && AllDigits(s[6..8]) && DigitsValue(s[6..8]) == t.second
    ensures |s| > 8 <==> t.nano != 0
    ensures |s| > 8 ==> s[8] == '.' && s[9..] == FractionText(t.nano)
  {
    var hm := TwoDigits(t.hour) + ":" + TwoDigits(t.minute);
    assert hm[..2] == TwoDigits(t.hour) && hm[3..5] == TwoDigits(t.minute);
    if t.second == 0 && t.nano == 0 then hm
    else
      var hms := hm + ":" + TwoDigits(t.second);
      var sec := TwoDigits(t.second);
      assert hms[6..8] == sec by { assert hms[6] == sec[0] && hms[7] == sec[1]; }
      assert hms[..5] == hm;
      assert hms[..2] == hm[..2] && hms[3..5] == hm[3..5];
      if t.nano == 0 then hms
      else
        var s := hms + "." + FractionText(t.nano);
        assert s[..8] == hms;
        assert s[..2] == hms[..2] && s[3..5] == hms[3..5] && s[6..8] == hms[6..8];
        s
  }

  /** LocalDateTime.toString: the date, 'T', the time of day. */
  function DateTimeText(t: DateTime): (s: string)
    requires t.Valid()
    ensures |s| > |DateText(t.date)| && s[..|DateText(t.date)|] == DateText(t.date)
    ensures s[|DateText(t.date)|] == 'T'
    ensures s[|DateText(t.date)| + 1..] == TimeText(t)
    ensures t.second == 0 && t.nano == 0 ==> |s| == |DateText(t.date)| + 6
  {
    DateText(t.date) + "T" + TimeText(t)
  }

  /** The length of the run of decimal digits that s starts with. */
  function LeadingDigits(s: string): (k: nat)
    ensures k <= |s| && AllDigits(s[..k])
    ensures k < |s| ==> !IsDigit(s[k])
  {
    if |s| == 0 || !IsDigit(s[0]) then 0
    else
      var k := 1 + LeadingDigits(s[1..]);
      assert s[..k] == [s[0]] + s[1..][..k - 1];
      k
  }

  /** s split after its leading run of digits. */
  function SplitDigits(s: string): (r: (string, string))
    ensures AllDigits(r.0) && r.0 + r.1 == s
    ensures |r.1| > 0 ==> !IsDigit(r.1[0])
  {
    var k := LeadingDigits(s);
    assert s[..k] + s[k..] == s;
    (s[..k], s[k..])
  }

  /** The year field of ISO_LOCAL_DATE in strict mode: 4 to 10 digits;
      without a sign exactly 4, with '+' more than 4, with '-' any non-zero
      value. Yields the year and the text after it. */
  function ParseYear(s: string): Option<(int, string)>
  {
    if |s| > 0 && s[0] == '+' then PositiveYear(SplitDigits(s[1..]))
    else if |s| > 0 && s[0] == '-' then NegativeYear(SplitDigits(s[1..]))
    else BareYear(SplitDigits(s))
  }

  function PositiveYear(split: (string, string)): Option<(int, string)>
    requires AllDigits(split.0)
  {
    if 4 < |split.0| <= 10 then Some((DigitsValue(split.0) as int, split.1)) else None
  }

  function NegativeYear(split: (string, string)): Option<(int, string)>
    requires AllDigits(split.0)
  {
    if 4 <= |split.0| <= 10 && DigitsValue(split.0) != 0 then Some((-(DigitsValue(split.0) as int), split.1)) else None
  }

  function BareYear(split: (string, string)): Option<(int, string)>
    requires AllDigits(split.0)
  {
    if |split.0| == 4 then Some((DigitsValue(split.0) as int, split.1)) else None
  }

  /** The "-MM-dd" tail: exactly two unsigned digits each, nothing after. */
  function ParseMonthDay(rest: string): Option<(int, int)>
  {
    if |rest| != 6 || rest[0] != '-' || rest[3] != '-' || !AllDigits(rest[1..3]) || !AllDigits(rest[4..6]) then
      None
    else
      Some((DigitsValue(rest[1..3]), DigitsValue(rest[4..6])))
  }

  /** LocalDate.parse: ISO_LOCAL_DATE with strict resolution, so the date
      must also exist in the calendar. */
  function ParseDate(s: string): (r: Option<Date>)
    ensures r.Some? ==> r.value.Valid()
  {
    match ParseYear(s)
    case None => None
    case Some((year, rest)) =>
      match ParseMonthDay(rest)
      case None => None
      case Some((month, day)) =>
        var d := Date(year, month, day);
        if d.Valid() then Some(d) else None
  }

  lemma {:induction false} LeadingDigitsOfDigits(a: string, b: string)
    requires AllDigits(a) && |b| > 0 && !IsDigit(b[0])
    ensures LeadingDigits(a + b) == |a|
    decreases |a|
  {
    if |a| == 0 {
      assert a + b == b;
    } else {
      assert (a + b)[1..] == a[1..] + b;
      LeadingDigitsOfDigits(a[1..], b);
    }
  }

  lemma Pow10Values()
    ensures Pow10(2) == 100 && Pow10(4) == 10000 && Pow10(9) == 1_000_000_000
  {
    assert Pow10(1) == 10;
    assert Pow10(2) == 100;
    assert Pow10(3) == 1000;
    assert Pow10(4) == 10000;
    assert Pow10(5) == 100000;
    assert Pow10(6) == 1000000;
    assert Pow10(7) == 10000000;
    assert Pow10(8) == 100000000;
  }

  /** The digits of the year followed by the tail split back apart. */
  lemma SplitYearBody(digits: string, tail: string)
    requires AllDigits(digits) && |tail| > 0 && tail[0] == '-'
    ensures SplitDigits(digits + tail) == (digits, tail)
  {
    LeadingDigitsOfDigits(digits, tail);
    var s := digits + tail;
    assert s[..|digits|] == digits && s[|digits|..] == tail;
  }

  lemma YearDigitFacts(y: int)
    requires MinYear <= y <= MaxYear
    ensures 4 <= |PadLeft(NatText(Abs(y)), 4)| <= 10
    ensures |PadLeft(NatText(Abs(y)), 4)| > 4 <==> Abs(y) > 9999
    ensures AllDigits(PadLeft(NatText(Abs(y)), 4))
    ensures DigitsValue(PadLeft(NatText(Abs(y)), 4)) == Abs(y)
  {
    Pow10Values();
    NatTextLength(Abs(y), 9);
    NatTextLength(Abs(y), 4);
    PaddedTextValue(Abs(y), 4);
  }

  lemma ParsePlusYear(digits: string, tail: string)
    requires AllDigits(digits) && 4 < |digits| <= 10 && |tail| > 0 && tail[0] == '-'
    ensures ParseYear("+" + digits + tail) == Some((DigitsValue(digits) as int, tail))
  {
    assert "+" + digits + tail == "+" + (digits + tail);
    SignedYearPlus(digits + tail);
    SplitYearBody(digits, tail);
  }

  lemma ParseMinusYear(digits: string, tail: string)
    requires AllDigits(digits) && 4 <= |digits| <= 10 && DigitsValue(digits) != 0
    requires |tail| > 0 && tail[0] == '-'
    ensures ParseYear("-" + digits + tail) == Some((-(DigitsValue(digits) as int), tail))
  {
    assert "-" + digits + tail == "-" + (digits + tail);
    SignedYearMinus(digits + tail);
    SplitYearBody(digits, tail);
    NegativeYearOf(digits, tail);
  }

  lemma SignedYearPlus(body: string)
    ensures ParseYear("+" + body) == PositiveYear(SplitDigits(body))
  {
    assert ("+" + body)[1..] == body;
  }

  lemma SignedYearMinus(body: string)
    ensures ParseYear("-" + body) == NegativeYear(SplitDigits(body))
  {
    assert ("-" + body)[1..] == body;
  }

  lemma NegativeYearOf(digits: string, tail: string)
    requires AllDigits(digits) && 4 <= |digits| <= 10 && DigitsValue(digits) != 0
    ensures NegativeYear((digits, tail)) == Some((-(DigitsValue(digits) as int), tail))
  {
  }

  lemma ParseBareYear(digits: string, tail: string)
    requires AllDigits(digits) && |digits| == 4 && |tail| > 0 && tail[0] == '-'
    ensures ParseYear(digits + tail) == Some((DigitsValue(digits) as int, tail))
  {
    SplitYearBody(digits, tail);
    assert (digits + tail)[0] == digits[0];
  }

  /** The year spelling reads back as the year, leaving the text after it. */
  lemma {:induction false} ParseYearText(y: int, tail: string)
    requires MinYear <= y <= MaxYear
    requires |tail| > 0 && tail[0] == '-'
    ensures ParseYear(YearText(y) + tail) == Some((y, tail))
  {
    var digits := PadLeft(NatText(Abs(y)), 4);
    YearDigitFacts(y);
    if y > 9999 {
      assert YearText(y) + tail == "+" + digits + tail;
      ParsePlusYear(digits, tail);
    } else if y < 0 {
      assert YearText(y) + tail == "-" + digits + tail;
      ParseMinusYear(digits, tail);
    } else {
      assert YearText(y) + tail == digits + tail;
      ParseBareYear(digits, tail);
    }
  }

  lemma ParseMonthDayText(month: nat, day: nat)
    requires month < 100 && day < 100
    ensures ParseMonthDay("-" + TwoDigits(month) + "-" + TwoDigits(day)) == Some((month, day))
  {
    var tail := "-" + TwoDigits(month) + "-" + TwoDigits(day);
    assert tail[1..3] == TwoDigits(month);
    assert tail[4..6] == TwoDigits(day);
  }

  /** Every valid date survives printing and strict parsing: the birthDate a
      FHIR document carries reads back as the date it was written from. */
  lemma {:induction false} ParseDateText(d: Date)
    requires d.Valid()
    ensures ParseDate(DateText(d)) == Some(d)
  {
    var tail := "-" + TwoDigits(d.month) + "-" + TwoDigits(d.day);
    assert DateText(d) == YearText(d.year) + tail;
    ParseYearText(d.year, tail);
    ParseMonthDayText(d.month, d.day);
  }
}
