/** Python's `datetime.strptime(text, "%d/%m/%Y")` on ASCII text, and the
    zero-padded text that it reads back. */
module DateFormat {
  import opened Wrappers
  import opened Numerals
  import opened Calendar

  /** The index of the first '/' in `s`, or `|s|` when there is none. */
  function FindSlash(s: string): (i: nat)
    ensures i <= |s|
    ensures i < |s| ==> s[i] == '/'
    ensures forall k :: 0 <= k < i ==> s[k] != '/'
  {
    if s == [] || s[0] == '/' then 0 else 1 + FindSlash(s[1..])
  }

  lemma FindSlashAt(a: string, b: string)
    requires forall k :: 0 <= k < |a| ==> a[k] != '/'
    ensures FindSlash(a + "/" + b) == |a|
  {
    var s := a + "/" + b;
    assert s[|a|] == '/';
    assert forall k :: 0 <= k < |a| ==> s[k] == a[k];
  }

  predicate IsNonZeroDigit(c: char) {
    '1' <= c <= '9'
  }

  /** The text `%d` accepts: `3[01]|[12]\d|0[1-9]|[1-9]| [1-9]`. */
  function DayField(f: string): (b: bool)
    ensures b <==>
      || (|f| == 2 && f[0] == '3' && (f[1] == '0' || f[1] == '1'))
      || (|f| == 2 && (f[0] == '1' || f[0] == '2') && IsDigit(f[1]))
      || (|f| == 2 && f[0] == '0' && IsNonZeroDigit(f[1]))
      || (|f| == 1 && IsNonZeroDigit(f[0]))
      || (|f| == 2 && f[0] == ' ' && IsNonZeroDigit(f[1]))
  {
    DigitPairValue(f);
    || (|f| == 1 && IsNonZeroDigit(f[0]))
    || (|f| == 2 && f[0] == ' ' && IsNonZeroDigit(f[1]))
    || (|f| == 2 && AllDigits(f) && 1 <= DigitsValue(f) <= 31)
  }

  /** The day a `%d` field names. */
  function DayFieldValue(f: string): (v: int)
    requires DayField(f)
    ensures 1 <= v <= 31
  {
    if f[0] == ' ' then DigitValue(f[1])
    else
      DigitsValueBound(f);
      DigitsValue(f)
  }

  /** The day a `%d` field names is what `int()` reads from it:
      `int(" 5") == int("05") == int("5") == 5`. */
  lemma DayFieldIsInt(f: string)
    requires DayField(f)
    ensures ParseInt(f) == Some(DayFieldValue(f))
  {
    if f[0] == ' ' {
      var d := f[1..];
      assert f == [' '] + d + [];
      StripPadded([' '], d, []);
      ParseIntOfStripped(f);
      assert DigitsValue(d) == DigitValue(f[1]) by { assert d[..0] == []; }
    }
  }

  /** The text `%m` accepts: `1[0-2]|0[1-9]|[1-9]`. */
  function MonthField(f: string): (b: bool)
    ensures b <==>
      || (|f| == 2 && f[0] == '1' && '0' <= f[1] <= '2')
      || (|f| == 2 && f[0] == '0' && IsNonZeroDigit(f[1]))
      || (|f| == 1 && IsNonZeroDigit(f[0]))
  {
    DigitPairValue(f);
    assert |f| == 1 && AllDigits(f) ==> f[..0] == [];
    1 <= |f| <= 2 && AllDigits(f) && 1 <= DigitsValue(f) <= 12
  }

  /** The text `%Y` accepts: exactly four digits, so a year below 10000. */
  function YearField(f: string): (b: bool)
    ensures b ==> AllDigits(f) && DigitsValue(f) < 10000
  {
    if |f| == 4 && AllDigits(f) then
      DigitsValueBound(f);
      true
    else
      false
  }

  /** The date three field texts name, if each has the form its directive
      accepts and together they name a real day (year 0 and 30 February make
      `strptime` raise `ValueError` too). */
  function ParseFields(dayText: string, monthText: string, yearText: string): (r: Option<Date>)
    ensures r.Some? ==> ValidDate(r.value) && r.value.year <= 9999
    ensures r.Some? <==>
      && DayField(dayText) && MonthField(monthText) && YearField(yearText)
      && ValidDate(Date(DayFieldValue(dayText), DigitsValue(monthText), DigitsValue(yearText)))
  {
    if !(DayField(dayText) && MonthField(monthText) && YearField(yearText)) then None
    else
      var d := Date(DayFieldValue(dayText), DigitsValue(monthText), DigitsValue(yearText));
      if ValidDate(d) then Some(d) else None
  }

  /** Each part of a parsed date is what `int()` reads from its field. */
  lemma ParseFieldsIsInt(dayText: string, monthText: string, yearText: string)
    requires ParseFields(dayText, monthText, yearText).Some?
    ensures var d := ParseFields(dayText, monthText, yearText).value;
      && ParseInt(dayText) == Some(d.day)
      && ParseInt(monthText) == Some(d.month)
      && ParseInt(yearText) == Some(d.year)
  {
    DayFieldIsInt(dayText);
  }

  /** `strptime(s, "%d/%m/%Y")`: the whole text must be the three fields and
      their two separators. `None` stands for the `ValueError` it raises. */
  function ParseDate(s: string): (r: Option<Date>)
    ensures r.Some? ==> ValidDate(r.value) && r.value.year <= 9999
  {
    var i := FindSlash(s);
    if i == |s| then None
    else
      var rest := s[i + 1..];
      var j := FindSlash(rest);
      if j == |rest| then None
      else ParseFields(s[..i], rest[..j], rest[j + 1..])
  }

  /** A text made of two slash-free fields, a third field and two slashes is
      read field by field. */
  lemma ParseDateOfParts(dayText: string, monthText: string, yearText: string)
    requires forall k :: 0 <= k < |dayText| ==> dayText[k] != '/'
    requires forall k :: 0 <= k < |monthText| ==> monthText[k] != '/'
    ensures ParseDate(dayText + "/" + monthText + "/" + yearText) == ParseFields(dayText, monthText, yearText)
  {
    var s := dayText + "/" + monthText + "/" + yearText;
    assert s == dayText + "/" + (monthText + "/" + yearText);
    FindSlashAt(dayText, monthText + "/" + yearText);
    var rest := s[|dayText| + 1..];
    assert rest == monthText + "/" + yearText;
    FindSlashAt(monthText, yearText);
    assert s[..|dayText|] == dayText;
    assert rest[..|monthText|] == monthText && rest[|monthText| + 1..] == yearText;
  }

  function Pad2(n: nat): (s: string)
    requires n < 100
    ensures |s| == 2 && AllDigits(s) && DigitsValue(s) == n
  {
    var s := [DigitChar(n / 10), DigitChar(n % 10)];
    assert s[..1] == [DigitChar(n / 10)];
    assert DigitsValue(s[..1]) == n / 10 by { assert s[..1][..0] == []; }
    s
  }

  function Pad4(n: nat): (s: string)
    requires n < 10000
    ensures |s| == 4 && AllDigits(s) && DigitsValue(s) == n
  {
    var hi, lo := Pad2(n / 100), Pad2(n % 100);
    DigitsValueAppend(hi, lo[0]);
    DigitsValueAppend(hi + [lo[0]], lo[1]);
    assert hi + [lo[0]] + [lo[1]] == hi + lo;
    hi + lo
  }

  /** The zero-padded `DD/MM/YYYY` text of a date. */
  function FormatDate(d: Date): (s: string)
    requires ValidDate(d) && d.year <= 9999
    ensures |s| == 10
  {
    Pad2(d.day) + "/" + Pad2(d.month) + "/" + Pad4(d.year)
  }

  /** Every date a four-digit year can name is read back from its text. */
  lemma ParseFormatDate(d: Date)
    requires ValidDate(d) && d.year <= 9999
    ensures ParseDate(FormatDate(d)) == Some(d)
  {
    var dd, mm, yyyy := Pad2(d.day), Pad2(d.month), Pad4(d.year);
    ParseDateOfParts(dd, mm, yyyy);
    assert DayField(dd);
  }

  /** The sample request's start date reads as 20 February 2025. */
  lemma ParseSampleStartDate()
    ensures ParseDate("20/02/2025") == Some(Date(20, 2, 2025))
  {
    var d := Date(20, 2, 2025);
    assert FormatDate(d) == "20/02/2025";
    ParseFormatDate(d);
  }

  /** The sample request's end date reads as 24 February 2025. */
  lemma ParseSampleEndDate()
    ensures ParseDate("24/02/2025") == Some(Date(24, 2, 2025))
  {
    var d := Date(24, 2, 2025);
    assert FormatDate(d) == "24/02/2025";
    ParseFormatDate(d);
  }

  /** An ISO-style date has no '/' and is rejected. */
  lemma ParseIsoDateFails()
    ensures ParseDate("2025-02-20") == None
  {
    var s := "2025-02-20";
    assert forall k :: 0 <= k < |s| ==> s[k] != '/';
    assert FindSlash(s) == |s|;
  }

  lemma ThirtiethOfFebruaryFields()
    ensures ParseFields("30", "02", "2025") == None
  {
    DigitPairValue("30");
    DigitPairValue("02");
    assert forall y :: !ValidDate(Date(30, 2, y));
  }

  /** Well-formed text naming a day the month does not have is rejected. */
  lemma ParseImpossibleDayFails()
    ensures ParseDate("30/02/2025") == None
  {
    ParseDateOfParts("30", "02", "2025");
    assert "30" + "/" + "02" + "/" + "2025" == "30/02/2025";
    ThirtiethOfFebruaryFields();
  }
}
