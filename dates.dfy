/**
 * Calendar dates, the order used to pick the most recent one, and the
 * parser that reads a date under a prioritised list of textual formats.
 */
module Dates {
  import opened Wrappers
  import opened Identifiers

  /** A day-resolution calendar date. */
  datatype Date = Date(year: int, month: int, day: int)

  /** `a` is strictly earlier than `b` (lexicographic on year, month, day). */
  predicate Before(a: Date, b: Date) {
    || a.year < b.year
    || (a.year == b.year && a.month < b.month)
    || (a.year == b.year && a.month == b.month && a.day < b.day)
  }

  predicate IsLeapYear(y: int) {
    y % 4 == 0 && (y % 100 != 0 || y % 400 == 0)
  }

  function DaysInMonth(y: int, m: int): (n: int)
    requires 1 <= m <= 12
    ensures 28 <= n <= 31
  {
    if m == 2 then (if IsLeapYear(y) then 29 else 28)
    else if m == 4 || m == 6 || m == 9 || m == 11 then 30
    else 31
  }

  /** A date the calendar has, in years 1 to 9999 (the range of a date value). */
  predicate ValidDate(d: Date) {
    1 <= d.year <= 9999 && 1 <= d.month <= 12 && 1 <= d.day <= DaysInMonth(d.year, d.month)
  }

  /** The earliest representable date, 0001-01-01. */
  const MinDate: Date := Date(1, 1, 1)

  predicate ValidOptDate(d: Option<Date>) {
    d.None? || ValidDate(d.value)
  }

  /**
   * The date order with "no date" as a distinct least value: `d` is strictly
   * later than `e` when `d` is a date and `e` is either no date or an
   * earlier date.
   */
  predicate Later(d: Option<Date>, e: Option<Date>) {
    d.Some? && (e.None? || Before(e.value, d.value))
  }

  /** `d` is at least as late as `e`. */
  predicate AtLeast(d: Option<Date>, e: Option<Date>) {
    !Later(e, d)
  }

  /** Later is a strict total order in which "no date" comes first. */
  lemma LaterIsStrictTotalOrder(d: Option<Date>, e: Option<Date>, f: Option<Date>)
    ensures !Later(d, d)
    ensures Later(d, e) && Later(e, f) ==> Later(d, f)
    ensures d == e || Later(d, e) || Later(e, d)
    ensures d.Some? ==> Later(d, None)
  {
  }

  /** `d or datetime.min`: no date stands for the earliest date. */
  function OrMin(d: Option<Date>): Date {
    d.GetOr(MinDate)
  }

  /** The comparison `(d or datetime.min) > (e or datetime.min)`. */
  predicate LaterAsWritten(d: Option<Date>, e: Option<Date>) {
    Before(OrMin(e), OrMin(d))
  }

  /**
   * Comparing through `datetime.min` cannot tell the real date 0001-01-01
   * from no date: the dated value does not count as later than no date.
   */
  lemma LaterAsWrittenConfusesMinDate()
    ensures ValidDate(MinDate)
    ensures Later(Some(MinDate), None)
    ensures !LaterAsWritten(Some(MinDate), None)
  {
  }

  /** Away from 0001-01-01, comparing through `datetime.min` agrees with Later. */
  lemma LaterAsWrittenAgreesElsewhere(d: Option<Date>, e: Option<Date>)
    requires ValidOptDate(d) && ValidOptDate(e)
    requires d != Some(MinDate) && e != Some(MinDate)
    ensures LaterAsWritten(d, e) == Later(d, e)
  {
  }

  // ---------------------------------------------------------------------
  // Parsing

  /** Removes leading white space. */
  function StripLeft(s: string): (r: string)
    ensures |r| <= |s| && r == s[|s| - |r|..]
    ensures r == [] || !IsSpace(r[0])
  {
    if s != [] && IsSpace(s[0]) then StripLeft(s[1..]) else s
  }

  /** Removes trailing white space. */
  function StripRight(s: string): (r: string)
    ensures |r| <= |s| && r == s[..|r|]
    ensures r == [] || !IsSpace(r[|r| - 1])
  {
    if s != [] && IsSpace(s[|s| - 1]) then StripRight(s[..|s| - 1]) else s
  }

  /** `str.strip()`: removes white space at both ends. */
  function Strip(s: string): string {
    StripRight(StripLeft(s))
  }

  /** `str.split(sep)`: the pieces between single occurrences of `sep`. */
  function SplitOn(s: string, sep: char): (r: seq<string>)
    ensures |r| >= 1
    ensures forall k, i :: 0 <= k < |r| && 0 <= i < |r[k]| ==> r[k][i] != sep
  {
    if s == [] then [[]]
    else
      var rest := SplitOn(s[1..], sep);
      if s[0] == sep then [[]] + rest else [[s[0]] + rest[0]] + rest[1..]
  }

  /** The value of a string of decimal digits. */
  function DigitsValue(s: string): nat
    requires AllDigits(s)
  {
    if s == [] then 0 else DigitsValue(s[..|s| - 1]) * 10 + Digit(s[|s| - 1])
  }

  function Digit(c: char): int {
    c as int - '0' as int
  }

  /** A field of `minLen` to `maxLen` digits, and its value. */
  function NumberField(s: string, minLen: nat, maxLen: nat): Option<nat> {
    if minLen <= |s| <= maxLen && AllDigits(s) then Some(DigitsValue(s)) else None
  }

  function ToLower(c: char): char {
    if 'A' <= c <= 'Z' then (c as int + 32) as char else c
  }

  const MonthAbbreviations: seq<string> :=
    ["jan", "feb", "mar", "apr", "may", "jun", "jul", "aug", "sep", "oct", "nov", "dec"]

  /** `%b`: an English month abbreviation in any case, and its month number. */
  function MonthName(s: string): (r: Option<int>)
    ensures r.Some? <==> |s| == 3 && [ToLower(s[0]), ToLower(s[1]), ToLower(s[2])] in MonthAbbreviations
    ensures r.Some? ==> 1 <= r.value <= 12
    ensures r.Some? ==> MonthAbbreviations[r.value - 1] == [ToLower(s[0]), ToLower(s[1]), ToLower(s[2])]
  {
    if |s| != 3 then None
    else
      var low := [ToLower(s[0]), ToLower(s[1]), ToLower(s[2])];
      if low in MonthAbbreviations then
        Some(Position(MonthAbbreviations, low) + 1)
      else None
  }

  function Position(xs: seq<string>, x: string): (i: nat)
    requires x in xs
    ensures i < |xs| && xs[i] == x
  {
    if xs[0] == x then 0 else 1 + Position(xs[1..], x)
  }

  /** `%y`: two digits; 69 to 99 mean 1969 to 1999, 00 to 68 mean 2000 to 2068. */
  function CenturyYear(v: nat): int {
    if v <= 68 then 2000 + v else 1900 + v
  }

  /** A date value, or the error the date constructor raises for an invalid one. */
  function MakeDate(y: int, m: int, d: int): (r: Option<Date>)
    ensures r.Some? <==> ValidDate(Date(y, m, d))
    ensures r.Some? ==> r.value == Date(y, m, d)
  {
    if ValidDate(Date(y, m, d)) then Some(Date(y, m, d)) else None
  }

  /** The three accepted formats. */
  datatype Format =
    | DayMonthNameYear2  // "%d-%b-%y", e.g. 05-Jan-24
    | MonthDayYear4      // "%m/%d/%Y", e.g. 01/05/2024
    | YearMonthDay       // "%Y-%m-%d", e.g. 2024-01-05

  /** The formats in the order they are tried. */
  const DateFormats: seq<Format> := [DayMonthNameYear2, MonthDayYear4, YearMonthDay]

  /** Parses the whole of `s` under one format; None where that raises. */
  function ParseWith(f: Format, s: string): (r: Option<Date>)
    ensures r.Some? ==> ValidDate(r.value)
  {
    match f
    case DayMonthNameYear2 =>
      var p := SplitOn(s, '-');
      if |p| != 3 then None
      else
        var d, m, y := NumberField(p[0], 1, 2), MonthName(p[1]), NumberField(p[2], 2, 2);
        if d.None? || m.None? || y.None? then None
        else MakeDate(CenturyYear(y.value), m.value, d.value)
    case MonthDayYear4 =>
      var p := SplitOn(s, '/');
      if |p| != 3 then None
      else
        var m, d, y := NumberField(p[0], 1, 2), NumberField(p[1], 1, 2), NumberField(p[2], 4, 4);
        if d.None? || m.None? || y.None? then None
        else MakeDate(y.value, m.value, d.value)
    case YearMonthDay =>
      var p := SplitOn(s, '-');
      if |p| != 3 then None
      else
        var y, m, d := NumberField(p[0], 4, 4), NumberField(p[1], 1, 2), NumberField(p[2], 1, 2);
        if d.None? || m.None? || y.None? then None
        else MakeDate(y.value, m.value, d.value)
  }

  /** The result of the first format in `fs` that parses `s`, or None. */
  function FirstSuccess(fs: seq<Format>, s: string): (r: Option<Date>)
    ensures r.None? <==> forall i :: 0 <= i < |fs| ==> ParseWith(fs[i], s).None?
    ensures r.Some? ==> exists i :: 0 <= i < |fs| && ParseWith(fs[i], s) == r
                                    && forall j :: 0 <= j < i ==> ParseWith(fs[j], s).None?
  {
    if fs == [] then None
    else if ParseWith(fs[0], s).Some? then ParseWith(fs[0], s)
    else
      var r := FirstSuccess(fs[1..], s);
      assert forall i :: 1 <= i < |fs| ==> fs[i] == fs[1..][i - 1];
      r
  }

  /** `parse_date`: strips the text and tries each format in turn. */
  function ParseDate(s: string): (r: Option<Date>)
    ensures r.Some? ==> ValidDate(r.value)
  {
    FirstSuccess(DateFormats, Strip(s))
  }

  /** Splitting `a` followed by more text extends the first piece by `a`. */
  lemma {:induction false} SplitOnPrefix(a: string, t: string, sep: char)
    requires sep !in a
    ensures SplitOn(a + t, sep) == [a + SplitOn(t, sep)[0]] + SplitOn(t, sep)[1..]
  {
    var r := SplitOn(t, sep);
    if a != [] {
      assert (a + t)[1..] == a[1..] + t;
      SplitOnPrefix(a[1..], t, sep);
      assert [a[0]] + (a[1..] + r[0]) == a + r[0];
    } else {
      assert a + t == t && a + r[0] == r[0];
      assert [r[0]] + r[1..] == r;
    }
  }

  lemma SplitOnNoSeparator(c: string, sep: char)
    requires sep !in c
    ensures SplitOn(c, sep) == [c]
  {
    SplitOnPrefix(c, [], sep);
    assert c + [] == c;
  }

  /** A piece without `sep`, then `sep`: the piece comes first. */
  lemma SplitOnJoin(b: string, t: string, sep: char)
    requires sep !in b
    ensures SplitOn(b + [sep] + t, sep) == [b] + SplitOn(t, sep)
  {
    var u := [sep] + t;
    assert u[1..] == t;
    assert SplitOn(u, sep) == [[]] + SplitOn(t, sep);
    SplitOnPrefix(b, u, sep);
    assert b + [sep] + t == b + u;
    assert b + [] == b;
  }

  /** Three pieces joined by `sep` split back into those pieces. */
  lemma SplitOnJoin3(a: string, b: string, c: string, sep: char)
    requires sep !in a && sep !in b && sep !in c
    ensures SplitOn(a + [sep] + b + [sep] + c, sep) == [a, b, c]
  {
    SplitOnNoSeparator(c, sep);
    SplitOnJoin(b, c, sep);
    SplitOnJoin(a, b + [sep] + c, sep);
    assert a + [sep] + b + [sep] + c == a + [sep] + (b + [sep] + c);
  }

  /** Text that neither starts nor ends with white space is not changed by Strip. */
  lemma StripUnchanged(s: string)
    requires s != [] && !IsSpace(s[0]) && !IsSpace(s[|s| - 1])
    ensures Strip(s) == s
  {
  }

  lemma DigitsValueOfTwo(a: char, b: char)
    requires IsDigit(a) && IsDigit(b)
    ensures DigitsValue([a, b]) == 10 * Digit(a) + Digit(b)
  {
    assert [a, b][..1] == [a];
    assert [a][..0] == [];
    assert DigitsValue([a]) == Digit(a);
  }

  lemma DigitsValueOfFour(a: char, b: char, c: char, d: char)
    requires IsDigit(a) && IsDigit(b) && IsDigit(c) && IsDigit(d)
    ensures DigitsValue([a, b, c, d]) == 1000 * Digit(a) + 100 * Digit(b) + 10 * Digit(c) + Digit(d)
  {
    assert [a, b, c, d][..3] == [a, b, c];
    assert [a, b, c][..2] == [a, b];
    DigitsValueOfTwo(a, b);
  }

  /** One step of the format list: the first format, or the rest of the list. */
  lemma FirstSuccessCons(fs: seq<Format>, s: string)
    requires fs != []
    ensures FirstSuccess(fs, s) == if ParseWith(fs[0], s).Some? then ParseWith(fs[0], s) else FirstSuccess(fs[1..], s)
  {
  }

  /** Parsing through the format list, spelled out for three formats. */
  lemma ParseDateUnfold(s: string)
    ensures ParseDate(s) ==
      if ParseWith(DayMonthNameYear2, Strip(s)).Some? then ParseWith(DayMonthNameYear2, Strip(s))
      else if ParseWith(MonthDayYear4, Strip(s)).Some? then ParseWith(MonthDayYear4, Strip(s))
      else ParseWith(YearMonthDay, Strip(s))
  {
    var t := Strip(s);
    var fs := DateFormats;
    var fs1, fs2 := fs[1..], fs[1..][1..];
    assert fs[0] == DayMonthNameYear2 && fs1[0] == MonthDayYear4 && fs2[0] == YearMonthDay && fs2[1..] == [];
    FirstSuccessCons(fs, t);
    FirstSuccessCons(fs1, t);
    FirstSuccessCons(fs2, t);
  }

  /** Text without a `/` never parses as month/day/year. */
  lemma NoSlashNoMonthDayYear(s: string)
    requires '/' !in s
    ensures ParseWith(MonthDayYear4, s) == None
  {
    SplitOnPrefix(s, [], '/');
    assert s + [] == s;
  }

  lemma AbbreviatedFormatExample(s: string)
    requires s == "05-Jan-24"
    ensures ParseWith(DayMonthNameYear2, s) == Some(Date(2024, 1, 5))
  {
    SplitOnJoin3("05", "Jan", "24", '-');
    assert s == "05" + ['-'] + "Jan" + ['-'] + "24";
    DigitsValueOfTwo('0', '5');
    DigitsValueOfTwo('2', '4');
    assert NumberField("05", 1, 2) == Some(5);
    assert NumberField("24", 2, 2) == Some(24);
    assert MonthName("Jan") == Some(1);
  }

  /** A day, a month abbreviation and a two-digit year: the first format. */
  lemma ParseDateAbbreviatedExample(s: string)
    requires s == "05-Jan-24"
    ensures ParseDate(s) == Some(Date(2024, 1, 5))
  {
    StripUnchanged(s);
    AbbreviatedFormatExample(s);
    ParseDateUnfold(s);
  }

  lemma IsoFormatExample(s: string)
    requires s == "2024-01-05"
    ensures ParseWith(DayMonthNameYear2, s) == None
    ensures ParseWith(MonthDayYear4, s) == None
    ensures ParseWith(YearMonthDay, s) == Some(Date(2024, 1, 5))
  {
    NoSlashNoMonthDayYear(s);
    SplitOnJoin3("2024", "01", "05", '-');
    assert s == "2024" + ['-'] + "01" + ['-'] + "05";
    assert NumberField("2024", 1, 2) == None;
    DigitsValueOfFour('2', '0', '2', '4');
    DigitsValueOfTwo('0', '1');
    DigitsValueOfTwo('0', '5');
    assert NumberField("2024", 4, 4) == Some(2024);
    assert NumberField("01", 1, 2) == Some(1);
    assert NumberField("05", 1, 2) == Some(5);
  }

  /** Year, month and day: reached after both other formats fail. */
  lemma ParseDateIsoExample(s: string)
    requires s == "2024-01-05"
    ensures ParseDate(s) == Some(Date(2024, 1, 5))
  {
    StripUnchanged(s);
    IsoFormatExample(s);
    ParseDateUnfold(s);
  }

  /** Empty text has one piece, so no format reads it. */
  lemma NoFormatReadsEmpty(f: Format)
    ensures ParseWith(f, "") == None
  {
    assert SplitOn("", '-') == [""] && SplitOn("", '/') == [""];
  }

  /** Empty or blank text is no date. */
  lemma BlankIsNoDate(s: string)
    requires Strip(s) == []
    ensures ParseDate(s) == None
  {
    NoFormatReadsEmpty(DayMonthNameYear2);
    NoFormatReadsEmpty(MonthDayYear4);
    NoFormatReadsEmpty(YearMonthDay);
    ParseDateUnfold(s);
  }

  // ---------------------------------------------------------------------
  // Formatting

  function Pow10(n: nat): (r: nat)
    ensures r >= 1
  {
    if n == 0 then 1 else 10 * Pow10(n - 1)
  }

  function DigitChar(v: nat): (c: char)
    requires v <= 9
    ensures IsDigit(c) && Digit(c) == v
  {
    ('0' as int + v) as char
  }

  /** The last `width` decimal digits of `n`, with leading zeros. */
  function Pad(n: nat, width: nat): (r: string)
    ensures |r| == width && AllDigits(r)
  {
    if width == 0 then [] else Pad(n / 10, width - 1) + [DigitChar(n % 10)]
  }

  /** Padded digits of a number that fits the width read back as the number. */
  lemma {:induction false} PadValue(n: nat, width: nat)
    requires n < Pow10(width)
    ensures DigitsValue(Pad(n, width)) == n
  {
    if width > 0 {
      var q, r := n / 10, n % 10;
      assert n == 10 * q + r && 0 <= r < 10;
      assert Pow10(width) == 10 * Pow10(width - 1);
      assert q < Pow10(width - 1);
      PadValue(q, width - 1);
      var s := Pad(n, width);
      assert s == Pad(q, width - 1) + [DigitChar(r)];
      assert s[..|s| - 1] == Pad(q, width - 1);
      assert DigitsValue(s) == DigitsValue(Pad(q, width - 1)) * 10 + r;
    }
  }

  /** `strftime("%Y-%m-%d")`: the year in four digits, month and day in two. */
  function FormatDate(d: Date): string
    requires ValidDate(d)
  {
    Pad(d.year, 4) + "-" + Pad(d.month, 2) + "-" + Pad(d.day, 2)
  }

  lemma FormatDateSplits(d: Date)
    requires ValidDate(d)
    ensures SplitOn(FormatDate(d), '-') == [Pad(d.year, 4), Pad(d.month, 2), Pad(d.day, 2)]
  {
    var a, b, c := Pad(d.year, 4), Pad(d.month, 2), Pad(d.day, 2);
    assert FormatDate(d) == a + ['-'] + b + ['-'] + c;
    assert '-' !in a && '-' !in b && '-' !in c;
    SplitOnJoin3(a, b, c, '-');
  }

  /** A formatted date is read by the year-month-day format only. */
  lemma FormatDateFormats(d: Date)
    requires ValidDate(d)
    ensures ParseWith(DayMonthNameYear2, FormatDate(d)) == None
    ensures ParseWith(MonthDayYear4, FormatDate(d)) == None
    ensures ParseWith(YearMonthDay, FormatDate(d)) == Some(d)
  {
    var s := FormatDate(d);
    FormatDateSplits(d);
    assert '/' !in s by {
      assert forall i :: 0 <= i < |s| ==> IsDigit(s[i]) || s[i] == '-';
    }
    NoSlashNoMonthDayYear(s);
    assert Pow10(4) == 10000 && Pow10(2) == 100;
    PadValue(d.year, 4);
    PadValue(d.month, 2);
    PadValue(d.day, 2);
  }

  /** A formatted date parses back to the same date. */
  lemma FormatDateRoundTrip(d: Date)
    requires ValidDate(d)
    ensures ParseDate(FormatDate(d)) == Some(d)
  {
    var s := FormatDate(d);
    assert IsDigit(s[0]) && IsDigit(s[|s| - 1]);
    StripUnchanged(s);
    FormatDateFormats(d);
    ParseDateUnfold(s);
  }
}
