/** The two timestamp formats the collector parses, `%Y-%m-%d %H:%M:%S` for a
    record's `updated_at` and the IMF-fixdate `%a, %d %b %Y %H:%M:%S GMT` of an
    HTTP `Last-Modified` header (section 7.1.1.1 of RFC 7231), and the order in
    which naive datetimes compare. */
module Timestamps {
  import opened StringOps

  /** A naive datetime; `micro` is the microsecond. */
  datatype DateTime = DateTime(year: int, month: int, day: int,
                               hour: int, minute: int, second: int, micro: int)

  predicate IsLeapYear(y: int) {
    y % 4 == 0 && (y % 100 != 0 || y % 400 == 0)
  }

  function DaysInMonth(y: int, m: int): int
    requires 1 <= m <= 12
  {
    if m == 2 then (if IsLeapYear(y) then 29 else 28)
    else if m == 4 || m == 6 || m == 9 || m == 11 then 30
    else 31
  }

  /** The datetimes a Python `datetime` can hold. */
  predicate Valid(d: DateTime) {
    && 1 <= d.year <= 9999 && 1 <= d.month <= 12 && 1 <= d.day <= DaysInMonth(d.year, d.month)
    && 0 <= d.hour < 24 && 0 <= d.minute < 60 && 0 <= d.second < 60 && 0 <= d.micro < 1000000
  }

  /** `a <= b` on naive datetimes: field by field, most significant first. */
  predicate NotAfter(a: DateTime, b: DateTime) {
    if a.year != b.year then a.year < b.year
    else if a.month != b.month then a.month < b.month
    else if a.day != b.day then a.day < b.day
    else if a.hour != b.hour then a.hour < b.hour
    else if a.minute != b.minute then a.minute < b.minute
    else if a.second != b.second then a.second < b.second
    else a.micro <= b.micro
  }

  lemma NotAfterIsTotalOrder(a: DateTime, b: DateTime, c: DateTime)
    ensures NotAfter(a, a)
    ensures NotAfter(a, b) || NotAfter(b, a)
    ensures NotAfter(a, b) && NotAfter(b, a) ==> a == b
    ensures NotAfter(a, b) && NotAfter(b, c) ==> NotAfter(a, c)
  {
  }

  /** A timestamp with a fraction of a second is later than the whole second it
      falls in: a file written during the same second as a record's
      `updated_at` counts as newer than the record. */
  lemma FractionIsLater(d: DateTime, micro: int)
    requires d.micro == 0 && 0 < micro
    ensures !NotAfter(d.(micro := micro), d)
    ensures NotAfter(d, d.(micro := micro))
  {
  }

  // ---- digits ------------------------------------------------------------------

  predicate IsDigit(c: char) {
    '0' <= c <= '9'
  }

  function Digit(c: char): int {
    c as int - '0' as int
  }

  function Char(n: int): char
    requires 0 <= n < 10
  {
    ('0' as int + n) as char
  }

  predicate DigitsAt(s: string, i: nat, n: nat) {
    i + n <= |s| && forall k | i <= k < i + n :: IsDigit(s[k])
  }

  function Two(s: string, i: nat): int
    requires DigitsAt(s, i, 2)
  {
    10 * Digit(s[i]) + Digit(s[i + 1])
  }

  function Four(s: string, i: nat): int
    requires DigitsAt(s, i, 4)
  {
    100 * Two(s, i) + Two(s, i + 2)
  }

  lemma ReadTwo(s: string, i: nat, n: int)
    requires 0 <= n < 100 && i + 2 <= |s|
    requires s[i] == Char(n / 10) && s[i + 1] == Char(n % 10)
    ensures DigitsAt(s, i, 2) && Two(s, i) == n
  {
  }

  lemma DivMod10(n: int, q: int, r: int)
    requires 0 <= r < 10 && n == 10 * q + r
    ensures n / 10 == q && n % 10 == r
  {
  }

  lemma DivMod100(n: int, q: int, r: int)
    requires 0 <= r < 100 && n == 100 * q + r
    ensures n / 100 == q && n % 100 == r
  {
  }

  lemma DivMod1000(n: int, q: int, r: int)
    requires 0 <= r < 1000 && n == 1000 * q + r
    ensures n / 1000 == q && n % 1000 == r
  {
  }

  /** The decimal digits of a four-digit number, as the format reads them off. */
  lemma Digits4(a: int, b: int, c: int, d: int)
    requires 0 <= a < 10 && 0 <= b < 10 && 0 <= c < 10 && 0 <= d < 10
    ensures var n := 1000 * a + 100 * b + 10 * c + d;
      n / 1000 == a && n / 100 % 10 == b && n / 10 % 10 == c && n % 10 == d
  {
    var n := 1000 * a + 100 * b + 10 * c + d;
    DivMod1000(n, a, 100 * b + 10 * c + d);
    DivMod100(n, 10 * a + b, 10 * c + d);
    DivMod10(10 * a + b, a, b);
    DivMod10(n, 100 * a + 10 * b + c, d);
    DivMod10(100 * a + 10 * b + c, 10 * a + b, c);
  }

  lemma ReadFour(s: string, i: nat, n: int)
    requires 0 <= n < 10000 && i + 4 <= |s|
    requires s[i] == Char(n / 1000) && s[i + 1] == Char(n / 100 % 10)
    requires s[i + 2] == Char(n / 10 % 10) && s[i + 3] == Char(n % 10)
    ensures DigitsAt(s, i, 4) && Four(s, i) == n
  {
    var q1 := n / 10;
    var q2 := q1 / 10;
    var a, b, c, d := q2 / 10, q2 % 10, q1 % 10, n % 10;
    assert n == 1000 * a + 100 * b + 10 * c + d;
    Digits4(a, b, c, d);
    assert Digit(s[i]) == a && Digit(s[i + 1]) == b && Digit(s[i + 2]) == c && Digit(s[i + 3]) == d;
  }

  lemma WriteTwo(s: string, i: nat)
    requires DigitsAt(s, i, 2)
    ensures 0 <= Two(s, i) < 100
    ensures Char(Two(s, i) / 10) == s[i] && Char(Two(s, i) % 10) == s[i + 1]
  {
    assert IsDigit(s[i]) && IsDigit(s[i + 1]);
  }

  lemma WriteFour(s: string, i: nat)
    requires DigitsAt(s, i, 4)
    ensures 0 <= Four(s, i) < 10000
    ensures Char(Four(s, i) / 1000) == s[i] && Char(Four(s, i) / 100 % 10) == s[i + 1]
    ensures Char(Four(s, i) / 10 % 10) == s[i + 2] && Char(Four(s, i) % 10) == s[i + 3]
  {
    assert IsDigit(s[i]) && IsDigit(s[i + 1]) && IsDigit(s[i + 2]) && IsDigit(s[i + 3]);
    var a, b, c, d := Digit(s[i]), Digit(s[i + 1]), Digit(s[i + 2]), Digit(s[i + 3]);
    assert Four(s, i) == 1000 * a + 100 * b + 10 * c + d;
    Digits4(a, b, c, d);
  }

  // ---- `%Y-%m-%d %H:%M:%S` -------------------------------------------------------

  const RecordFormat := "%Y-%m-%d %H:%M:%S"

  /** `datetime.strptime(s, '%Y-%m-%d %H:%M:%S')`, with every field written at
      full width. */
  function ParseRecordTime(s: string): (r: Option<DateTime>)
    ensures r.Some? ==> Valid(r.value) && r.value.micro == 0
  {
    if |s| != 19 || s[4] != '-' || s[7] != '-' || s[10] != ' ' || s[13] != ':' || s[16] != ':' then None
    else if !(DigitsAt(s, 0, 4) && DigitsAt(s, 5, 2) && DigitsAt(s, 8, 2)
              && DigitsAt(s, 11, 2) && DigitsAt(s, 14, 2) && DigitsAt(s, 17, 2)) then None
    else
      var d := DateTime(Four(s, 0), Two(s, 5), Two(s, 8), Two(s, 11), Two(s, 14), Two(s, 17), 0);
      if Valid(d) then Some(d) else None
  }

  /** The record format written out for a whole-second datetime. */
  function FormatRecordTime(d: DateTime): (s: string)
    requires Valid(d)
    ensures |s| == 19
  {
    [Char(d.year / 1000), Char(d.year / 100 % 10), Char(d.year / 10 % 10), Char(d.year % 10), '-',
     Char(d.month / 10), Char(d.month % 10), '-', Char(d.day / 10), Char(d.day % 10), ' ',
     Char(d.hour / 10), Char(d.hour % 10), ':', Char(d.minute / 10), Char(d.minute % 10), ':',
     Char(d.second / 10), Char(d.second % 10)]
  }

  /** Every whole-second datetime survives being written and parsed back. */
  lemma RecordTimeRoundTrip(d: DateTime)
    requires Valid(d) && d.micro == 0
    ensures ParseRecordTime(FormatRecordTime(d)) == Some(d)
  {
    var s := FormatRecordTime(d);
    ReadFour(s, 0, d.year);
    ReadTwo(s, 5, d.month);
    ReadTwo(s, 8, d.day);
    ReadTwo(s, 11, d.hour);
    ReadTwo(s, 14, d.minute);
    ReadTwo(s, 17, d.second);
  }

  /** A string the parser accepts is exactly the format of what it parses to. */
  lemma RecordTimeCanonical(s: string)
    requires ParseRecordTime(s).Some?
    ensures FormatRecordTime(ParseRecordTime(s).value) == s
  {
    WriteFour(s, 0);
    WriteTwo(s, 5);
    WriteTwo(s, 8);
    WriteTwo(s, 11);
    WriteTwo(s, 14);
    WriteTwo(s, 17);
    var f := FormatRecordTime(ParseRecordTime(s).value);
    assert forall k | 0 <= k < 19 :: f[k] == s[k];
  }

  // ---- `%a, %d %b %Y %H:%M:%S GMT` -----------------------------------------------

  const HttpDateFormat := "%a, %d %b %Y %H:%M:%S GMT"

  /** The English abbreviated day names, in lower case. */
  predicate IsWeekday(a: char, b: char, c: char) {
    || (a, b, c) == ('m', 'o', 'n') || (a, b, c) == ('t', 'u', 'e') || (a, b, c) == ('w', 'e', 'd')
    || (a, b, c) == ('t', 'h', 'u') || (a, b, c) == ('f', 'r', 'i') || (a, b, c) == ('s', 'a', 't')
    || (a, b, c) == ('s', 'u', 'n')
  }

  /** The month number of a lower-case English month abbreviation, 0 for none. */
  function MonthNumber(a: char, b: char, c: char): (m: int)
    ensures 0 <= m <= 12
  {
    match (a, b, c)
    case ('j', 'a', 'n') => 1
    case ('f', 'e', 'b') => 2
    case ('m', 'a', 'r') => 3
    case ('a', 'p', 'r') => 4
    case ('m', 'a', 'y') => 5
    case ('j', 'u', 'n') => 6
    case ('j', 'u', 'l') => 7
    case ('a', 'u', 'g') => 8
    case ('s', 'e', 'p') => 9
    case ('o', 'c', 't') => 10
    case ('n', 'o', 'v') => 11
    case ('d', 'e', 'c') => 12
    case _ => 0
  }

  const MonthNames: seq<string> :=
    ["Jan", "Feb", "Mar", "Apr", "May", "Jun", "Jul", "Aug", "Sep", "Oct", "Nov", "Dec"]

  const DayNames: seq<string> := ["Mon", "Tue", "Wed", "Thu", "Fri", "Sat", "Sun"]

  /** `datetime.strptime(s, '%a, %d %b %Y %H:%M:%S GMT')`, with every field at full
      width: names and `GMT` in any case, the day name not checked against the
      date. */
  function ParseHttpDate(s: string): (r: Option<DateTime>)
    ensures r.Some? ==> Valid(r.value) && r.value.micro == 0
  {
    if |s| != 29 || s[3] != ',' || s[4] != ' ' || s[7] != ' ' || s[11] != ' ' || s[16] != ' '
       || s[19] != ':' || s[22] != ':' || s[25] != ' ' then None
    else if !IsWeekday(LowerChar(s[0]), LowerChar(s[1]), LowerChar(s[2])) then None
    else if (LowerChar(s[26]), LowerChar(s[27]), LowerChar(s[28])) != ('g', 'm', 't') then None
    else if !(DigitsAt(s, 5, 2) && DigitsAt(s, 12, 4) && DigitsAt(s, 17, 2)
              && DigitsAt(s, 20, 2) && DigitsAt(s, 23, 2)) then None
    else
      var month := MonthNumber(LowerChar(s[8]), LowerChar(s[9]), LowerChar(s[10]));
      var d := DateTime(Four(s, 12), month, Two(s, 5), Two(s, 17), Two(s, 20), Two(s, 23), 0);
      if Valid(d) then Some(d) else None
  }

  /** An IMF-fixdate for a whole-second datetime, with the given day name. */
  function FormatHttpDate(d: DateTime, weekday: nat): (s: string)
    requires Valid(d) && weekday < 7
    ensures |s| == 29
  {
    var day, month := DayNames[weekday], MonthNames[d.month - 1];
    [day[0], day[1], day[2], ',', ' ', Char(d.day / 10), Char(d.day % 10), ' ',
     month[0], month[1], month[2], ' ',
     Char(d.year / 1000), Char(d.year / 100 % 10), Char(d.year / 10 % 10), Char(d.year % 10), ' ',
     Char(d.hour / 10), Char(d.hour % 10), ':', Char(d.minute / 10), Char(d.minute % 10), ':',
     Char(d.second / 10), Char(d.second % 10), ' ', 'G', 'M', 'T']
  }

  lemma MonthNamesParse(m: int)
    requires 1 <= m <= 12
    ensures |MonthNames[m - 1]| == 3
    ensures MonthNumber(LowerChar(MonthNames[m - 1][0]), LowerChar(MonthNames[m - 1][1]),
                        LowerChar(MonthNames[m - 1][2])) == m
  {
  }

  lemma DayNamesParse(w: nat)
    requires w < 7
    ensures |DayNames[w]| == 3
    ensures IsWeekday(LowerChar(DayNames[w][0]), LowerChar(DayNames[w][1]), LowerChar(DayNames[w][2]))
  {
  }

  lemma HttpDateDigits(d: DateTime, weekday: nat)
    requires Valid(d) && weekday < 7
    ensures var s := FormatHttpDate(d, weekday);
      && DigitsAt(s, 5, 2) && DigitsAt(s, 12, 4) && DigitsAt(s, 17, 2)
      && DigitsAt(s, 20, 2) && DigitsAt(s, 23, 2)
      && Two(s, 5) == d.day && Four(s, 12) == d.year && Two(s, 17) == d.hour
      && Two(s, 20) == d.minute && Two(s, 23) == d.second
  {
    var s := FormatHttpDate(d, weekday);
    ReadTwo(s, 5, d.day);
    ReadFour(s, 12, d.year);
    ReadTwo(s, 17, d.hour);
    ReadTwo(s, 20, d.minute);
    ReadTwo(s, 23, d.second);
  }

  lemma HttpDateNames(d: DateTime, weekday: nat)
    requires Valid(d) && weekday < 7
    ensures var s := FormatHttpDate(d, weekday);
      && IsWeekday(LowerChar(s[0]), LowerChar(s[1]), LowerChar(s[2]))
      && MonthNumber(LowerChar(s[8]), LowerChar(s[9]), LowerChar(s[10])) == d.month
      && (LowerChar(s[26]), LowerChar(s[27]), LowerChar(s[28])) == ('g', 'm', 't')
  {
    MonthNamesParse(d.month);
    DayNamesParse(weekday);
  }

  lemma HttpDateSeparators(d: DateTime, weekday: nat)
    requires Valid(d) && weekday < 7
    ensures var s := FormatHttpDate(d, weekday);
      && s[3] == ',' && s[4] == ' ' && s[7] == ' ' && s[11] == ' ' && s[16] == ' '
      && s[19] == ':' && s[22] == ':' && s[25] == ' '
  {
  }

  /** Every whole-second datetime survives being written as an IMF-fixdate and
      parsed back, whatever day name the header carries. */
  lemma HttpDateRoundTrip(d: DateTime, weekday: nat)
    requires Valid(d) && d.micro == 0 && weekday < 7
    ensures ParseHttpDate(FormatHttpDate(d, weekday)) == Some(d)
  {
    HttpDateSeparators(d, weekday);
    HttpDateDigits(d, weekday);
    HttpDateNames(d, weekday);
  }

  /** Letter case does not matter to the header parser. */
  lemma HttpDateIgnoresCase(s: string)
    ensures ParseHttpDate(Lower(s)) == ParseHttpDate(s)
  {
    var l := Lower(s);
    if |s| == 29 {
      forall k | 0 <= k < 29
        ensures LowerChar(l[k]) == LowerChar(s[k])
        ensures IsDigit(l[k]) <==> IsDigit(s[k])
        ensures IsDigit(s[k]) ==> l[k] == s[k]
        ensures (l[k] == ',' <==> s[k] == ',') && (l[k] == ' ' <==> s[k] == ' ')
        ensures (l[k] == ':' <==> s[k] == ':')
      {
      }
      if DigitsAt(s, 5, 2) && DigitsAt(s, 12, 4) && DigitsAt(s, 17, 2)
         && DigitsAt(s, 20, 2) && DigitsAt(s, 23, 2)
      {
        assert Two(l, 5) == Two(s, 5) && Four(l, 12) == Four(s, 12) && Two(l, 17) == Two(s, 17);
        assert Two(l, 20) == Two(s, 20) && Two(l, 23) == Two(s, 23);
      }
    }
  }

  // ---- two readings ------------------------------------------------------------------

  /** A record time as the server writes it. */
  lemma RecordTimeExample()
    ensures ParseRecordTime("2020-01-01 00:00:00") == Some(DateTime(2020, 1, 1, 0, 0, 0, 0))
  {
    var d := DateTime(2020, 1, 1, 0, 0, 0, 0);
    assert FormatRecordTime(d) == "2020-01-01 00:00:00";
    RecordTimeRoundTrip(d);
  }

  lemma HttpDateExampleFormat()
    ensures FormatHttpDate(DateTime(2019, 1, 1, 0, 0, 0, 0), 1) == "Tue, 01 Jan 2019 00:00:00 GMT"
  {
    var d := DateTime(2019, 1, 1, 0, 0, 0, 0);
    assert DayNames[1] == "Tue" && MonthNames[0] == "Jan";
    assert Char(d.year / 1000) == '2' && Char(d.year / 100 % 10) == '0';
    assert Char(d.year / 10 % 10) == '1' && Char(d.year % 10) == '9';
  }

  /** A `Last-Modified` header as a server sends it. */
  lemma HttpDateExample()
    ensures ParseHttpDate("Tue, 01 Jan 2019 00:00:00 GMT") == Some(DateTime(2019, 1, 1, 0, 0, 0, 0))
  {
    HttpDateExampleFormat();
    HttpDateRoundTrip(DateTime(2019, 1, 1, 0, 0, 0, 0), 1);
  }
}
