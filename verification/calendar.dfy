/** The two conversions the adapter applies to Zabbix's `{EVENT.DATE}` and
    `{EVENT.TIME}` macros: `YYYY.MM.DD` read into a `datetime` and
    `HH:MM:SS` read into a `time`, with Python's range checks and the
    exceptions they raise. */
module Calendar {
  import opened Wrappers
  import opened Text

  datatype Date = Date(year: int, month: int, day: int)

  datatype TimeOfDay = TimeOfDay(hour: int, minute: int, second: int)

  /** The time of day a bare date stands for. */
  const Midnight: TimeOfDay := TimeOfDay(0, 0, 0)

  /** The outcome of one conversion. `Rejected` is a `ValueError` (wrong
      number of pieces, a piece `int()` refuses, a field out of range),
      which the caller swallows; `Overflow` is the `OverflowError` that
      `datetime` and `time` raise for an argument that does not fit a C
      `int`, which nobody catches. */
  datatype Conversion<+T> = Converted(value: T) | Rejected | Overflow

  /** `MINYEAR` and `MAXYEAR` of Python's `datetime` module. */
  const MinYear := 1
  const MaxYear := 9999

  /** Bounds of a C `int`, the type `datetime` and `time` read their
      arguments into. */
  const IntMin := -0x8000_0000
  const IntMax := 0x7FFF_FFFF

  predicate InCInt(n: int) {
    IntMin <= n <= IntMax
  }

  /** The proleptic Gregorian leap-year rule. */
  predicate IsLeap(y: int) {
    y % 4 == 0 && (y % 100 != 0 || y % 400 == 0)
  }

  function DaysInMonth(y: int, m: int): (n: int)
    requires 1 <= m <= 12
    ensures 28 <= n <= 31
    ensures n == 29 <==> m == 2 && IsLeap(y)
  {
    if m == 2 then (if IsLeap(y) then 29 else 28)
    else if m == 4 || m == 6 || m == 9 || m == 11 then 30
    else 31
  }

  /** The dates `datetime(year, month, day)` accepts. */
  predicate ValidDate(d: Date) {
    && MinYear <= d.year <= MaxYear
    && 1 <= d.month <= 12
    && 1 <= d.day <= DaysInMonth(d.year, d.month)
  }

  /** The times `time(hour, minute, second)` accepts. */
  predicate ValidTime(t: TimeOfDay) {
    0 <= t.hour < 24 && 0 <= t.minute < 60 && 0 <= t.second < 60
  }

  datatype Triple = Triple(a: int, b: int, c: int)

  /** `x, y, z = v.split(sep)` followed by `int(x), int(y), int(z)`: `None`
      where Python raises `ValueError`, because the split does not give
      exactly three pieces or a piece is not an integer. */
  function ReadTriple(v: string, sep: char): (r: Option<Triple>)
    ensures var p := Split(v, sep);
              r.Some? <==> |p| == 3 && ParseInt(p[0]).Some? && ParseInt(p[1]).Some? && ParseInt(p[2]).Some?
    ensures var p := Split(v, sep);
              r.Some? ==> && ParseInt(p[0]) == Some(r.value.a)
                          && ParseInt(p[1]) == Some(r.value.b)
                          && ParseInt(p[2]) == Some(r.value.c)
  {
    var p := Split(v, sep);
    if |p| != 3 then None
    else match (ParseInt(p[0]), ParseInt(p[1]), ParseInt(p[2])) {
      case (Some(a), Some(b), Some(c)) => Some(Triple(a, b, c))
      case _ => None
    }
  }

  /** Whether the three arguments fit a C `int`. */
  predicate Fits(t: Triple) {
    InCInt(t.a) && InCInt(t.b) && InCInt(t.c)
  }

  /** `datetime(year, month, day)` on three integers. */
  function MakeDate(t: Triple): (r: Conversion<Date>)
    ensures r.Overflow? <==> !Fits(t)
    ensures r.Converted? <==> Fits(t) && ValidDate(Date(t.a, t.b, t.c))
    ensures r.Converted? ==> r.value == Date(t.a, t.b, t.c)
  {
    if !Fits(t) then Overflow
    else if ValidDate(Date(t.a, t.b, t.c)) then Converted(Date(t.a, t.b, t.c))
    else Rejected
  }

  /** `time(hour, minute, second)` on three integers. */
  function MakeTime(t: Triple): (r: Conversion<TimeOfDay>)
    ensures r.Overflow? <==> !Fits(t)
    ensures r.Converted? <==> Fits(t) && ValidTime(TimeOfDay(t.a, t.b, t.c))
    ensures r.Converted? ==> r.value == TimeOfDay(t.a, t.b, t.c)
  {
    if !Fits(t) then Overflow
    else if ValidTime(TimeOfDay(t.a, t.b, t.c)) then Converted(TimeOfDay(t.a, t.b, t.c))
    else Rejected
  }

  /** The `EVENT.DATE` branch: a dotted `YYYY.MM.DD` string to a date. */
  function ParseDate(v: string): (r: Conversion<Date>)
    ensures r.Converted? ==> ValidDate(r.value)
    ensures r.Overflow? ==> ReadTriple(v, '.').Some? && !Fits(ReadTriple(v, '.').value)
  {
    match ReadTriple(v, '.') {
      case None => Rejected
      case Some(t) => MakeDate(t)
    }
  }

  /** The `EVENT.TIME` branch: a `HH:MM:SS` string to a time of day. */
  function ParseTime(v: string): (r: Conversion<TimeOfDay>)
    ensures r.Converted? ==> ValidTime(r.value)
    ensures r.Overflow? ==> ReadTriple(v, ':').Some? && !Fits(ReadTriple(v, ':').value)
  {
    match ReadTriple(v, ':') {
      case None => Rejected
      case Some(t) => MakeTime(t)
    }
  }

  /** Three integers written out with `sep` between them. */
  function Render(t: Triple, sep: char): string {
    Join([IntString(t.a), IntString(t.b), IntString(t.c)], sep)
  }

  lemma DecimalStringDigits(n: nat, c: char)
    requires !IsDigit(c)
    ensures c !in DecimalString(n)
  {
  }

  lemma IntStringAvoids(n: int, c: char)
    requires !IsDigit(c) && c != '-'
    ensures c !in IntString(n)
  {
    DecimalStringDigits(if n < 0 then -n else n, c);
  }

  /** Reading back three rendered integers gives them back, for any
      separator that cannot occur in a number. */
  lemma ReadRendered(t: Triple, sep: char)
    requires !IsDigit(sep) && sep != '-'
    ensures ReadTriple(Render(t, sep), sep) == Some(t)
  {
    var p := [IntString(t.a), IntString(t.b), IntString(t.c)];
    IntStringAvoids(t.a, sep);
    IntStringAvoids(t.b, sep);
    IntStringAvoids(t.c, sep);
    SplitJoin(p, sep);
    ParseIntString(t.a);
    ParseIntString(t.b);
    ParseIntString(t.c);
  }

  /** A rendered `YYYY.MM.DD` converts to exactly that date when it is a
      real date, overflows when a field does not fit a C `int`, and is
      rejected otherwise. */
  lemma ParseDateRendered(t: Triple)
    ensures ParseDate(Render(t, '.')) ==
      if !Fits(t) then Overflow
      else if ValidDate(Date(t.a, t.b, t.c)) then Converted(Date(t.a, t.b, t.c))
      else Rejected
  {
    ReadRendered(t, '.');
  }

  /** A rendered `HH:MM:SS` converts to exactly that time when it is a real
      time of day, overflows when a field does not fit a C `int`, and is
      rejected otherwise. */
  lemma ParseTimeRendered(t: Triple)
    ensures ParseTime(Render(t, ':')) ==
      if !Fits(t) then Overflow
      else if ValidTime(TimeOfDay(t.a, t.b, t.c)) then Converted(TimeOfDay(t.a, t.b, t.c))
      else Rejected
  {
    ReadRendered(t, ':');
  }

  /** Every valid date is reached from its own rendering: the conversion
      is onto the dates `datetime` can hold. */
  lemma DateRoundTrip(d: Date)
    requires ValidDate(d)
    ensures ParseDate(Render(Triple(d.year, d.month, d.day), '.')) == Converted(d)
  {
    ParseDateRendered(Triple(d.year, d.month, d.day));
  }

  lemma TimeRoundTrip(t: TimeOfDay)
    requires ValidTime(t)
    ensures ParseTime(Render(Triple(t.hour, t.minute, t.second), ':')) == Converted(t)
  {
    ParseTimeRendered(Triple(t.hour, t.minute, t.second));
  }

  /** Three pieces that `int()` reads as the three parts of `t`, joined
      by a separator none of them contains, are read back as `t`. */
  lemma ReadPieces(p: seq<string>, t: Triple, sep: char)
    requires |p| == 3 && sep !in p[0] && sep !in p[1] && sep !in p[2]
    requires ParseInt(p[0]) == Some(t.a) && ParseInt(p[1]) == Some(t.b) && ParseInt(p[2]) == Some(t.c)
    ensures ReadTriple(Join(p, sep), sep) == Some(t)
  {
    SplitJoin(p, sep);
  }

  /** `"%0*d" % (width, n)`: `n` in decimal, zero-padded to `width`. */
  function Padded(n: nat, width: nat): string {
    var digits := DecimalString(n);
    Zeros(if |digits| < width then width - |digits| else 0) + digits
  }

  /** A zero-padded number is all digits and reads back as the number. */
  lemma PaddedReads(n: nat, width: nat)
    ensures AllDigits(Padded(n, width))
    ensures ParseInt(Padded(n, width)) == Some(n)
  {
    var digits := DecimalString(n);
    var z := if |digits| < width then width - |digits| else 0;
    DigitsValueZeros(z, digits);
    ParseIntSpelled("", "", z, n, "");
    SpelledBare(z, n);
  }

  /** A digit string holds no separator. */
  lemma DigitsAvoid(s: string, c: char)
    requires AllDigits(s) && !IsDigit(c)
    ensures c !in s
  {
  }

  /** `{EVENT.DATE}` as Zabbix writes it: `YYYY.MM.DD`, zero-padded. */
  function ZabbixDate(d: Date): string
    requires ValidDate(d)
  {
    Join([Padded(d.year, 4), Padded(d.month, 2), Padded(d.day, 2)], '.')
  }

  /** `{EVENT.TIME}` as Zabbix writes it: `HH:MM:SS`, zero-padded. */
  function ZabbixTime(t: TimeOfDay): string
    requires ValidTime(t)
  {
    Join([Padded(t.hour, 2), Padded(t.minute, 2), Padded(t.second, 2)], ':')
  }

  /** Three zero-padded numbers joined by a non-digit are read back. */
  lemma ReadPadded(a: nat, b: nat, c: nat, wa: nat, wb: nat, wc: nat, sep: char)
    requires !IsDigit(sep)
    ensures ReadTriple(Join([Padded(a, wa), Padded(b, wb), Padded(c, wc)], sep), sep) == Some(Triple(a, b, c))
  {
    var p := [Padded(a, wa), Padded(b, wb), Padded(c, wc)];
    PaddedReads(a, wa);
    PaddedReads(b, wb);
    PaddedReads(c, wc);
    DigitsAvoid(p[0], sep);
    DigitsAvoid(p[1], sep);
    DigitsAvoid(p[2], sep);
    ReadPieces(p, Triple(a, b, c), sep);
  }

  /** Every valid date, written the way Zabbix writes `{EVENT.DATE}`,
      converts back to itself. */
  lemma ZabbixDateRoundTrip(d: Date)
    requires ValidDate(d)
    ensures ParseDate(ZabbixDate(d)) == Converted(d)
  {
    ReadPadded(d.year, d.month, d.day, 4, 2, 2, '.');
  }

  /** Every valid time of day, written the way Zabbix writes
      `{EVENT.TIME}`, converts back to itself. */
  lemma ZabbixTimeRoundTrip(t: TimeOfDay)
    requires ValidTime(t)
    ensures ParseTime(ZabbixTime(t)) == Converted(t)
  {
    ReadPadded(t.hour, t.minute, t.second, 2, 2, 2, ':');
  }

  /** Two-digit fields as Zabbix pads them. */
  lemma PaddedTwo(n: nat)
    requires n < 100
    ensures Padded(n, 2) == [DigitChar(n / 10), DigitChar(n % 10)]
  {
    if n >= 10 {
      assert DecimalString(n) == DecimalString(n / 10) + [DigitChar(n % 10)];
    } else {
      assert Zeros(1) == "0";
    }
  }

  /** A valid time written `HH:MM:SS` with two digits each converts to
      that time. */
  lemma TwoDigitTime(v: string, t: TimeOfDay)
    requires ValidTime(t)
    requires v == [DigitChar(t.hour / 10), DigitChar(t.hour % 10), ':',
                   DigitChar(t.minute / 10), DigitChar(t.minute % 10), ':',
                   DigitChar(t.second / 10), DigitChar(t.second % 10)]
    ensures ParseTime(v) == Converted(t)
  {
    PaddedTwo(t.hour);
    PaddedTwo(t.minute);
    PaddedTwo(t.second);
    JoinThree(Padded(t.hour, 2), Padded(t.minute, 2), Padded(t.second, 2), ':');
    PairsJoined(DigitChar(t.hour / 10), DigitChar(t.hour % 10), DigitChar(t.minute / 10),
                DigitChar(t.minute % 10), DigitChar(t.second / 10), DigitChar(t.second % 10), ':');
    ZabbixTimeRoundTrip(t);
  }

  lemma PairsJoined(a0: char, a1: char, b0: char, b1: char, c0: char, c1: char, sep: char)
    ensures [a0, a1] + [sep] + [b0, b1] + [sep] + [c0, c1] == [a0, a1, sep, b0, b1, sep, c0, c1]
  {
  }

  /** The test event's `EVENT.TIME` value `02:31:00` is 02:31:00. */
  lemma TestTimeConverts(v: string)
    requires v == "02:31:00"
    ensures ParseTime(v) == Converted(TimeOfDay(2, 31, 0))
  {
    TwoDigitTime(v, TimeOfDay(2, 31, 0));
  }

  /** The Zabbix spelling `2018.01.14` of the test event's date is
      14 January 2018. */
  lemma DottedDateConverts(v: string)
    requires v == "2018.01.14"
    ensures ParseDate(v) == Converted(Date(2018, 1, 14))
  {
    var d := Date(2018, 1, 14);
    assert DecimalString(2018) == "2018" by {
      assert DecimalString(2018) == DecimalString(201) + "8";
      assert DecimalString(201) == DecimalString(20) + "1";
      assert DecimalString(20) == DecimalString(2) + "0";
    }
    assert Padded(2018, 4) == "2018";
    PaddedTwo(1);
    PaddedTwo(14);
    JoinThree(Padded(2018, 4), Padded(1, 2), Padded(14, 2), '.');
    assert ZabbixDate(d) == v;
    ZabbixDateRoundTrip(d);
  }

  /** A date written without dots — `2017-08-30`, say — is one piece, not
      three, and is rejected. */
  lemma UndottedDateRejected(v: string)
    requires '.' !in v
    ensures ParseDate(v) == Rejected
  {
    assert Split(v, '.') == [v];
  }

  /** A date is rejected unless it splits into exactly three pieces. */
  lemma DateNeedsThreePieces(v: string)
    requires |Split(v, '.')| != 3
    ensures ParseDate(v) == Rejected
  {
  }

  /** February 29th exists exactly in leap years. */
  lemma LeapDay(y: int)
    requires MinYear <= y <= MaxYear
    ensures ParseDate(Render(Triple(y, 2, 29), '.')).Converted? <==> IsLeap(y)
  {
    ParseDateRendered(Triple(y, 2, 29));
  }
}
