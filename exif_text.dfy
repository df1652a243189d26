/**
  The text form of an EXIF date, `YYYY:MM:DD HH:MM:SS`: `strftime` and
  `strptime` with the format "%Y:%m:%d %H:%M:%S" (run.py:44, 51).
 */
module ExifText {
  import opened Wrappers
  import opened Calendar
  import opened DateShift

  predicate IsDigit(c: char) {
    '0' <= c <= '9'
  }

  function DigitValue(c: char): (n: int)
    requires IsDigit(c)
    ensures 0 <= n < 10
  {
    c as int - '0' as int
  }

  function DigitChar(n: int): (c: char)
    requires 0 <= n < 10
    ensures IsDigit(c) && DigitValue(c) == n
  {
    ('0' as int + n) as char
  }

  /** `n` zero-padded to two digits, as `%m`, `%d`, `%H`, `%M` and `%S` print it. */
  function Pad2(n: int): (s: string)
    requires 0 <= n < 100
    ensures |s| == 2 && IsDigit(s[0]) && IsDigit(s[1])
    ensures 10 * DigitValue(s[0]) + DigitValue(s[1]) == n
  {
    [DigitChar(n / 10), DigitChar(n % 10)]
  }

  /** `n` zero-padded to four digits, as `%Y` prints it. */
  function Pad4(n: int): (s: string)
    requires 0 <= n < 10000
    ensures |s| == 4 && IsDigit(s[0]) && IsDigit(s[1]) && IsDigit(s[2]) && IsDigit(s[3])
    ensures 1000 * DigitValue(s[0]) + 100 * DigitValue(s[1]) + 10 * DigitValue(s[2]) + DigitValue(s[3]) == n
  {
    var a, b, c, d := n / 1000, n / 100 % 10, n / 10 % 10, n % 10;
    assert n / 10 == 10 * (n / 100) + c;
    assert n / 100 == 10 * a + b;
    [DigitChar(a), DigitChar(b), DigitChar(c), DigitChar(d)]
  }

  /** `t.strftime("%Y:%m:%d %H:%M:%S")` (run.py:51). */
  function Format(t: DateTime): (s: string)
    requires IsDateTime(t)
    ensures |s| == 19
  {
    Pad4(t.year) + ":" + Pad2(t.month) + ":" + Pad2(t.day) + " "
      + Pad2(t.hour) + ":" + Pad2(t.minute) + ":" + Pad2(t.second)
  }

  /** The characters that the regular-expression class `\s` matches in a
      Python `str` pattern (those for which `str.isspace` holds). */
  predicate IsSpace(c: char) {
    || c == ' ' || '\t' <= c <= '\r' || '\U{1c}' <= c <= '\U{1f}'
    || c == '\U{85}' || c == '\U{a0}' || c == '\U{1680}' || '\U{2000}' <= c <= '\U{200a}'
    || c == '\U{2028}' || c == '\U{2029}' || c == '\U{202f}' || c == '\U{205f}' || c == '\U{3000}'
  }

  predicate IsDigits(s: string) {
    forall i :: 0 <= i < |s| ==> IsDigit(s[i])
  }

  /** The number a string of decimal digits spells, most significant first. */
  function Decimal(s: string): (n: int)
    requires IsDigits(s)
    ensures 0 <= n
  {
    if |s| == 0 then 0 else 10 * Decimal(s[..|s| - 1]) + DigitValue(s[|s| - 1])
  }

  lemma DecimalOne(s: string)
    requires |s| >= 1 && IsDigit(s[0])
    ensures IsDigits(s[..1]) && Decimal(s[..1]) == DigitValue(s[0])
  {
    assert s[..1][..0] == [];
  }

  lemma DecimalTwo(s: string)
    requires |s| >= 2 && IsDigit(s[0]) && IsDigit(s[1])
    ensures IsDigits(s[..2]) && Decimal(s[..2]) == 10 * DigitValue(s[0]) + DigitValue(s[1])
  {
    assert s[..2][..1] == s[..1];
    DecimalOne(s);
  }

  lemma DecimalFour(s: string)
    requires |s| >= 4 && IsDigit(s[0]) && IsDigit(s[1]) && IsDigit(s[2]) && IsDigit(s[3])
    ensures IsDigits(s[..4])
    ensures Decimal(s[..4]) == 1000 * DigitValue(s[0]) + 100 * DigitValue(s[1]) + 10 * DigitValue(s[2]) + DigitValue(s[3])
  {
    assert s[..4][..3] == s[..3];
    assert s[..3][..2] == s[..2];
    DecimalTwo(s);
  }

  /** A number read off the front of a string, and what follows it. */
  datatype Scanned = Scanned(value: int, rest: string)

  /** `%Y`, the pattern `\d\d\d\d`: exactly four digits. */
  function ScanYear(s: string): (r: Option<Scanned>)
    ensures r.Some? <==> |s| >= 4 && IsDigits(s[..4])
    ensures r.Some? ==> r.value == Scanned(Decimal(s[..4]), s[4..]) && r.value.value <= 9999
  {
    if |s| >= 4 && IsDigit(s[0]) && IsDigit(s[1]) && IsDigit(s[2]) && IsDigit(s[3]) then
      DecimalFour(s);
      Some(Scanned(1000 * DigitValue(s[0]) + 100 * DigitValue(s[1]) + 10 * DigitValue(s[2]) + DigitValue(s[3]), s[4..]))
    else
      assert |s| >= 4 ==> !IsDigits(s[..4]) by {
        if |s| >= 4 { assert forall i :: 0 <= i < 4 ==> s[..4][i] == s[i]; }
      }
      None
  }

  /** The patterns of `%m` (`1[0-2]|0[1-9]|[1-9]`), `%H` (`2[0-3]|[0-1]\d|\d`),
      `%M` (`[0-5]\d|\d`) and `%S` (`6[0-1]|[0-5]\d|\d`): two digits whose value
      lies in `lo..hi`, else one digit whose value is at least `lo`. Each field
      is followed by a character that is not a digit, or by the end of the
      pattern, so taking the first alternative that matches is what the
      regular-expression engine's backtracking settles on. */
  function ScanNumber(s: string, lo: int, hi: int): (r: Option<Scanned>)
    requires 0 <= lo <= 1 && 9 <= hi
    ensures r.Some? <==> |s| >= 1 && IsDigit(s[0]) && (lo <= DigitValue(s[0]) || (|s| >= 2 && IsDigit(s[1]) && lo <= DigitValue(s[1])))
    ensures r.Some? ==> lo <= r.value.value <= hi
    ensures r.Some? ==> exists n :: 1 <= n <= 2 && n <= |s| && IsDigits(s[..n]) && r.value == Scanned(Decimal(s[..n]), s[n..])
    ensures r.Some? && |s| >= 2 && IsDigit(s[1]) && lo <= Decimal(s[..2]) <= hi ==> r.value.rest == s[2..]
  {
    if |s| >= 2 && IsDigit(s[0]) && IsDigit(s[1]) && lo <= 10 * DigitValue(s[0]) + DigitValue(s[1]) <= hi then
      DecimalTwo(s);
      Some(Scanned(10 * DigitValue(s[0]) + DigitValue(s[1]), s[2..]))
    else if |s| >= 1 && IsDigit(s[0]) && lo <= DigitValue(s[0]) then
      DecimalOne(s);
      if |s| >= 2 && IsDigit(s[1]) then DecimalTwo(s); Some(Scanned(DigitValue(s[0]), s[1..]))
      else Some(Scanned(DigitValue(s[0]), s[1..]))
    else None
  }

  /** `%d`, the pattern `3[0-1]|[1-2]\d|0[1-9]|[1-9]| [1-9]`: the `%m`-style
      field with values 1..31, or a space followed by a digit 1..9. */
  function ScanDay(s: string): (r: Option<Scanned>)
    ensures r.Some? ==> 1 <= r.value.value <= 31
  {
    match ScanNumber(s, 1, 31)
    case Some(n) => Some(n)
    case None =>
      if |s| >= 2 && s[0] == ' ' && IsDigit(s[1]) && 1 <= DigitValue(s[1]) then
        Some(Scanned(DigitValue(s[1]), s[2..]))
      else None
  }

  /** When `%d` succeeds and what it reads: one or two leading digits spelling
      the day, or a space and one non-zero digit. */
  lemma ScanDayMeaning(s: string)
    ensures ScanDay(s).Some? <==>
      || (|s| >= 1 && IsDigit(s[0]) && (1 <= DigitValue(s[0]) || (|s| >= 2 && IsDigit(s[1]) && 1 <= DigitValue(s[1]))))
      || (|s| >= 2 && s[0] == ' ' && IsDigit(s[1]) && 1 <= DigitValue(s[1]))
    ensures ScanDay(s).Some? ==>
      || (exists n :: 1 <= n <= 2 && n <= |s| && IsDigits(s[..n]) && ScanDay(s).value == Scanned(Decimal(s[..n]), s[n..]))
      || (s[0] == ' ' && IsDigits(s[1..2]) && ScanDay(s).value == Scanned(Decimal(s[1..2]), s[2..]))
    ensures |s| >= 2 && IsDigit(s[0]) && IsDigit(s[1]) && 1 <= Decimal(s[..2]) <= 31 ==>
      ScanDay(s) == Some(Scanned(Decimal(s[..2]), s[2..]))
  {
    if |s| >= 2 && IsDigit(s[0]) && IsDigit(s[1]) {
      DecimalTwo(s);
    }
    if ScanNumber(s, 1, 31).None? && ScanDay(s).Some? {
      DecimalOne(s[1..]);
      assert s[1..][..1] == s[1..2];
    }
  }

  /** A literal character of the format. */
  function Literal(s: string, c: char): (r: Option<string>)
    ensures r.Some? <==> |s| > 0 && s[0] == c
    ensures r.Some? ==> r.value == s[1..]
  {
    if |s| > 0 && s[0] == c then Some(s[1..]) else None
  }

  /** `s` without its leading whitespace. */
  function DropSpaces(s: string): (r: string)
    ensures |r| <= |s|
    ensures r == [] || !IsSpace(r[0])
  {
    if |s| > 0 && IsSpace(s[0]) then DropSpaces(s[1..]) else s
  }

  /** What `DropSpaces` removes is a run of whitespace at the front. */
  lemma {:induction false} DropSpacesRun(s: string)
    ensures exists n :: 0 <= n <= |s| && DropSpaces(s) == s[n..] && forall i :: 0 <= i < n ==> IsSpace(s[i])
  {
    if |s| > 0 && IsSpace(s[0]) {
      DropSpacesRun(s[1..]);
      var m :| 0 <= m <= |s[1..]| && DropSpaces(s[1..]) == s[1..][m..] && forall i :: 0 <= i < m ==> IsSpace(s[1..][i]);
      assert s[1..][m..] == s[m + 1..];
      forall i | 0 < i < m + 1 ensures IsSpace(s[i]) {
        assert s[i] == s[1..][i - 1];
      }
    } else {
      assert s == s[0..];
    }
  }

  /** The space of the format, which `strptime` turns into `\s+`: one or
      more whitespace characters, taken greedily (the next field starts with
      a digit, so giving some back never helps). */
  function Spaces(s: string): (r: Option<string>)
    ensures r.Some? <==> |s| > 0 && IsSpace(s[0])
    ensures r.Some? ==> r.value == DropSpaces(s)
  {
    if |s| > 0 && IsSpace(s[0]) then Some(DropSpaces(s)) else None
  }

  /** What the format's space matches: a run of one or more whitespace
      characters, and all of them, so the rest starts with something else. */
  lemma SpacesMatch(s: string)
    requires Spaces(s).Some?
    ensures exists n :: 1 <= n <= |s| && Spaces(s).value == s[n..] && forall i :: 0 <= i < n ==> IsSpace(s[i])
    ensures Spaces(s).value == [] || !IsSpace(Spaces(s).value[0])
  {
    var r := Spaces(s).value;
    DropSpacesRun(s);
    var n :| 0 <= n <= |s| && r == s[n..] && forall i :: 0 <= i < n ==> IsSpace(s[i]);
  }

  /** A single space in front of something else matches as the whole `\s+`. */
  lemma SingleSpace(s: string)
    requires |s| >= 2 && IsSpace(s[0]) && !IsSpace(s[1])
    ensures Spaces(s) == Some(s[1..])
  {
    assert s[1..][0] == s[1];
    assert DropSpaces(s[1..]) == s[1..];
  }

  /** The date part of the pattern, `%Y:%m:%d`: year, month, day and the rest. */
  function ScanDate(s: string): Option<(int, int, int, string)> {
    var year :- ScanYear(s);
    var s1 :- Literal(year.rest, ':');
    var month :- ScanNumber(s1, 1, 12);
    var s2 :- Literal(month.rest, ':');
    var day :- ScanDay(s2);
    Some((year.value, month.value, day.value, day.rest))
  }

  /** The rest of the pattern, ` %H:%M:%S`, which must reach the end of the text
      (otherwise `strptime` reports "unconverted data remains"). */
  function ScanClock(s: string): Option<(int, int, int)> {
    var s3 :- Spaces(s);
    ScanTime(s3)
  }

  /** `%H:%M:%S` up to the end of the text. */
  function ScanTime(s3: string): Option<(int, int, int)> {
    var hour :- ScanNumber(s3, 0, 23);
    var s4 :- Literal(hour.rest, ':');
    var minute :- ScanNumber(s4, 0, 59);
    var s5 :- Literal(minute.rest, ':');
    var second :- ScanNumber(s5, 0, 61);
    if second.rest == [] then Some((hour.value, minute.value, second.value)) else None
  }

  /** `datetime.strptime(s, "%Y:%m:%d %H:%M:%S")` (run.py:44). `None` stands for
      the `ValueError` raised when the text does not match the pattern, when
      characters are left over, or when the fields do not make a valid
      `datetime` (year 0, a day past the end of its month, second 60 or 61). */
  function Parse(s: string): (r: Option<DateTime>)
    ensures r.Some? ==> IsDateTime(r.value)
  {
    var (year, month, day, rest) :- ScanDate(s);
    var (hour, minute, second) :- ScanClock(rest);
    var t := DateTime(year, month, day, hour, minute, second);
    if IsDateTime(t) then Some(t) else None
  }

  /** The shape `YYYY:MM:DD HH:MM:SS` with every field written in full. */
  predicate IsCanonical(s: string) {
    && |s| == 19
    && IsDigit(s[0]) && IsDigit(s[1]) && IsDigit(s[2]) && IsDigit(s[3]) && s[4] == ':'
    && IsDigit(s[5]) && IsDigit(s[6]) && s[7] == ':' && IsDigit(s[8]) && IsDigit(s[9])
    && s[10] == ' '
    && IsDigit(s[11]) && IsDigit(s[12]) && s[13] == ':' && IsDigit(s[14]) && IsDigit(s[15])
    && s[16] == ':' && IsDigit(s[17]) && IsDigit(s[18])
  }

  /** Where each field of the formatted text sits. */
  lemma FormatLayout(t: DateTime)
    requires IsDateTime(t)
    ensures var s := Format(t);
      && s[..4] == Pad4(t.year) && s[4] == ':' && s[5..7] == Pad2(t.month) && s[7] == ':'
      && s[8..10] == Pad2(t.day) && s[10] == ' ' && s[11..13] == Pad2(t.hour) && s[13] == ':'
      && s[14..16] == Pad2(t.minute) && s[16] == ':' && s[17..] == Pad2(t.second)
  {
    var date := Pad4(t.year) + ":" + Pad2(t.month) + ":" + Pad2(t.day);
    var clock := Pad2(t.hour) + ":" + Pad2(t.minute) + ":" + Pad2(t.second);
    assert Format(t) == date + " " + clock;
    Halves(date, clock);
  }

  /** Where the fields of each half sit once the halves are joined by a space. */
  lemma Halves(date: string, clock: string)
    requires |date| == 10 && |clock| == 8
    ensures var s := date + " " + clock;
      && s[..4] == date[..4] && s[4] == date[4] && s[5..7] == date[5..7] && s[7] == date[7]
      && s[8..10] == date[8..] && s[10] == ' ' && s[11..13] == clock[..2] && s[13] == clock[2]
      && s[14..16] == clock[3..5] && s[16] == clock[5] && s[17..] == clock[6..]
  {
  }

  lemma ScanYearPad4(s: string, n: int)
    requires 0 <= n < 10000 && |s| >= 4 && s[..4] == Pad4(n)
    ensures ScanYear(s) == Some(Scanned(n, s[4..]))
  {
    assert s[0] == Pad4(n)[0] && s[1] == Pad4(n)[1] && s[2] == Pad4(n)[2] && s[3] == Pad4(n)[3];
  }

  lemma ScanNumberPad2(s: string, n: int, lo: int, hi: int)
    requires 0 <= lo <= 1 && 9 <= hi && lo <= n <= hi && n < 100
    requires |s| >= 2 && s[..2] == Pad2(n)
    ensures ScanNumber(s, lo, hi) == Some(Scanned(n, s[2..]))
  {
    assert s[0] == Pad2(n)[0] && s[1] == Pad2(n)[1];
  }

  /** The date part of the formatted text scans to the date's fields. */
  lemma ScanDateFormat(t: DateTime)
    requires IsDateTime(t)
    ensures ScanDate(Format(t)) == Some((t.year, t.month, t.day, Format(t)[10..]))
  {
    var s := Format(t);
    FormatLayout(t);
    ScanYearPad4(s, t.year);
    assert s[4..][0] == ':';
    ScanNumberPad2(s[5..], t.month, 1, 12);
    assert s[7..][0] == ':';
    ScanNumberPad2(s[8..], t.day, 1, 31);
    assert ScanDay(s[8..]) == Some(Scanned(t.day, s[10..]));
  }

  /** The time part of the formatted text scans to the time's fields. */
  lemma ScanClockFormat(t: DateTime)
    requires IsDateTime(t)
    ensures ScanClock(Format(t)[10..]) == Some((t.hour, t.minute, t.second))
  {
    var s := Format(t);
    FormatLayout(t);
    SingleSpace(s[10..]);
    assert s[10..][1..] == s[11..];
    ScanNumberPad2(s[11..], t.hour, 0, 23);
    assert s[13..][0] == ':';
    ScanNumberPad2(s[14..], t.minute, 0, 59);
    assert s[16..][0] == ':';
    ScanNumberPad2(s[17..], t.second, 0, 61);
    assert s[17..][2..] == [];
  }

  /** Parsing what `strftime` printed gives back the same date-time. */
  lemma ParseFormat(t: DateTime)
    requires IsDateTime(t)
    ensures Parse(Format(t)) == Some(t)
  {
    ScanDateFormat(t);
    ScanClockFormat(t);
  }

  /** Two digits read as a number, as the two-digit alternatives do. */
  function Number2(c0: char, c1: char): int
    requires IsDigit(c0) && IsDigit(c1)
  {
    10 * DigitValue(c0) + DigitValue(c1)
  }

  lemma Pad2Digits(c0: char, c1: char)
    requires IsDigit(c0) && IsDigit(c1)
    ensures Pad2(Number2(c0, c1)) == [c0, c1]
  {
  }

  lemma Pad4Digits(s: string)
    requires |s| == 4 && IsDigit(s[0]) && IsDigit(s[1]) && IsDigit(s[2]) && IsDigit(s[3])
    ensures Pad4(1000 * DigitValue(s[0]) + 100 * DigitValue(s[1]) + 10 * DigitValue(s[2]) + DigitValue(s[3])) == s
  {
    var a, b, c, d := DigitValue(s[0]), DigitValue(s[1]), DigitValue(s[2]), DigitValue(s[3]);
    var n := 1000 * a + 100 * b + 10 * c + d;
    assert n / 10 == 100 * a + 10 * b + c && n % 10 == d;
    assert n / 100 == 10 * a + b && n / 10 % 10 == c;
    assert n / 1000 == a && n / 100 % 10 == b;
  }

  /** The fields written in a canonical timestamp. */
  function CanonicalFields(s: string): DateTime
    requires IsCanonical(s)
  {
    DateTime(1000 * DigitValue(s[0]) + 100 * DigitValue(s[1]) + 10 * DigitValue(s[2]) + DigitValue(s[3]),
      Number2(s[5], s[6]), Number2(s[8], s[9]), Number2(s[11], s[12]), Number2(s[14], s[15]), Number2(s[17], s[18]))
  }

  /** In front of a digit pair, a field that is followed by a non-digit
      consumed both digits. */
  lemma ScanNumberPair(s: string, lo: int, hi: int)
    requires 0 <= lo <= 1 && 9 <= hi
    requires |s| >= 2 && IsDigit(s[0]) && IsDigit(s[1]) && ScanNumber(s, lo, hi).Some?
    ensures var r := ScanNumber(s, lo, hi).value;
      r == Scanned(Number2(s[0], s[1]), s[2..]) || r.rest == s[1..]
  {
  }

  /** A day field in front of a digit pair and followed by whitespace took both digits. */
  lemma ScanDayPair(s: string)
    requires |s| >= 2 && IsDigit(s[0]) && IsDigit(s[1])
    requires ScanDay(s).Some? && Spaces(ScanDay(s).value.rest).Some?
    ensures ScanDay(s) == Some(Scanned(Number2(s[0], s[1]), s[2..]))
  {
    ScanNumberPair(s, 1, 31);
    assert s[1..][0] == s[1];
  }

  /** A field in front of a digit pair and a colon, which the colon after it
      matched, took both digits. */
  lemma FieldThenColon(s: string, lo: int, hi: int)
    requires 0 <= lo <= 1 && 9 <= hi
    requires |s| >= 3 && IsDigit(s[0]) && IsDigit(s[1]) && s[2] == ':'
    requires ScanNumber(s, lo, hi).Some? && Literal(ScanNumber(s, lo, hi).value.rest, ':').Some?
    ensures ScanNumber(s, lo, hi) == Some(Scanned(Number2(s[0], s[1]), s[2..]))
    ensures Literal(ScanNumber(s, lo, hi).value.rest, ':') == Some(s[3..])
  {
    ScanNumberPair(s, lo, hi);
    assert s[1..][0] == s[1];
  }

  /** The last field, which must reach the end of the text, took both digits. */
  lemma FieldAtEnd(s: string, lo: int, hi: int)
    requires 0 <= lo <= 1 && 9 <= hi
    requires |s| == 2 && IsDigit(s[0]) && IsDigit(s[1])
    requires ScanNumber(s, lo, hi).Some? && ScanNumber(s, lo, hi).value.rest == []
    ensures ScanNumber(s, lo, hi) == Some(Scanned(Number2(s[0], s[1]), []))
  {
    ScanNumberPair(s, lo, hi);
  }

  /** Four digits in front scan as the year they spell. */
  lemma ScanYearDigits(s: string)
    requires |s| >= 4 && IsDigit(s[0]) && IsDigit(s[1]) && IsDigit(s[2]) && IsDigit(s[3])
    ensures ScanYear(s) == Some(Scanned(1000 * DigitValue(s[0]) + 100 * DigitValue(s[1]) + 10 * DigitValue(s[2]) + DigitValue(s[3]), s[4..]))
  {
  }

  lemma ScanDateCanonical(s: string)
    requires IsCanonical(s) && ScanDate(s).Some? && Spaces(ScanDate(s).value.3).Some?
    ensures ScanDate(s) == Some((CanonicalFields(s).year, CanonicalFields(s).month, CanonicalFields(s).day, s[10..]))
  {
    ScanYearDigits(s);
    assert Literal(s[4..], ':') == Some(s[5..]);
    FieldThenColon(s[5..], 1, 12);
    assert s[5..][3..] == s[8..];
    ScanDayPair(s[8..]);
    assert s[8..][2..] == s[10..];
  }

  /** After a single space, the clock is scanned from the next character. */
  lemma ClockAfterSpace(s: string)
    requires |s| >= 2 && IsSpace(s[0]) && !IsSpace(s[1])
    ensures ScanClock(s) == ScanTime(s[1..])
  {
    SingleSpace(s);
  }

  /** `HH:MM:SS` written in full, if it scans, scans to the fields written in it. */
  lemma ScanTimeDigits(u: string)
    requires |u| == 8 && IsDigit(u[0]) && IsDigit(u[1]) && u[2] == ':' && IsDigit(u[3]) && IsDigit(u[4])
    requires u[5] == ':' && IsDigit(u[6]) && IsDigit(u[7]) && ScanTime(u).Some?
    ensures ScanTime(u) == Some((Number2(u[0], u[1]), Number2(u[3], u[4]), Number2(u[6], u[7])))
  {
    FieldThenColon(u, 0, 23);
    assert u[3..][0] == u[3] && u[3..][1] == u[4] && u[3..][2] == ':';
    FieldThenColon(u[3..], 0, 59);
    assert u[3..][3..] == u[6..];
    FieldAtEnd(u[6..], 0, 61);
  }

  lemma ScanClockCanonical(s: string)
    requires IsCanonical(s) && ScanClock(s[10..]).Some?
    ensures ScanClock(s[10..]) == Some((CanonicalFields(s).hour, CanonicalFields(s).minute, CanonicalFields(s).second))
  {
    ClockAfterSpace(s[10..]);
    assert s[10..][1..] == s[11..];
    assert ScanTime(s[11..]).Some?;
    ScanTimeDigits(s[11..]);
    var u := s[11..];
    assert u[0] == s[11] && u[1] == s[12] && u[3] == s[14] && u[4] == s[15] && u[6] == s[17] && u[7] == s[18];
  }

  lemma ParseCanonical(s: string)
    requires IsCanonical(s) && Parse(s).Some?
    ensures Parse(s) == Some(CanonicalFields(s))
  {
    assert Spaces(ScanDate(s).value.3).Some?;
    ScanDateCanonical(s);
    ScanClockCanonical(s);
  }

  lemma FormatCanonical(s: string)
    requires IsCanonical(s) && IsDateTime(CanonicalFields(s))
    ensures Format(CanonicalFields(s)) == s
  {
    var t := CanonicalFields(s);
    Pad4Digits(s[..4]);
    Pad2Digits(s[5], s[6]); Pad2Digits(s[8], s[9]); Pad2Digits(s[11], s[12]);
    Pad2Digits(s[14], s[15]); Pad2Digits(s[17], s[18]);
    assert s == s[..4] + ":" + [s[5], s[6]] + ":" + [s[8], s[9]] + " "
      + [s[11], s[12]] + ":" + [s[14], s[15]] + ":" + [s[17], s[18]];
  }

  /** A canonical timestamp parses exactly when its fields make a valid
      date-time, and then prints back as the same text: a zero shift
      rewrites the tag with the bytes it already had. */
  lemma FormatParse(s: string)
    requires IsCanonical(s)
    ensures Parse(s).Some? <==> IsDateTime(CanonicalFields(s))
    ensures Parse(s).Some? ==> Format(Parse(s).value) == s
  {
    if IsDateTime(CanonicalFields(s)) {
      FormatCanonical(s);
      ParseFormat(CanonicalFields(s));
    } else if Parse(s).Some? {
      ParseCanonical(s);
    }
  }
}
