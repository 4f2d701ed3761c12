/** The period codec of 04_parse_data.py: the `bhcfYYMM` file-name
    convention, the quarter-end date derived from it, the ZIP-to-CSV name
    mapping of `extract_zip_files` and the choice of the archive member. */
module Quarters {
  import opened Wrappers
  import opened Text

  /** `(year, quarter, quarter_str)` as `extract_quarter_from_filename` returns it. */
  datatype ParsedQuarter = ParsedQuarter(year: int, quarter: int, text: string)

  /** A calendar date, as the `REPORTING_PERIOD` timestamp carries it. */
  datatype Date = Date(year: int, month: int, day: int)

  /** `bhcf` at position `i` of `s`, followed by `n` decimal digits. */
  predicate TagAt(s: string, i: nat, n: nat) {
    && i + 4 + n <= |s|
    && s[i..i + 4] == "bhcf"
    && forall k :: i + 4 <= k < i + 4 + n ==> IsDigit(s[k])
  }

  /** `re.search(r'bhcf\d{n}', s)` started at `from`: the leftmost match. */
  function FindTag(s: string, n: nat, from: nat): (r: Option<nat>)
    ensures r.Some? ==> from <= r.value && TagAt(s, r.value, n)
    ensures r.Some? ==> forall k :: from <= k < r.value ==> !TagAt(s, k, n)
    ensures r.None? ==> forall k :: from <= k ==> !TagAt(s, k, n)
    decreases |s| - from
  {
    if |s| < from + 4 + n then None
    else if TagAt(s, from, n) then Some(from)
    else FindTag(s, n, from + 1)
  }

  /** `QUARTER_MONTHS`: the month code of the last month of quarter `q`. */
  function MonthCode(q: int): (mm: string)
    requires 1 <= q <= 4
    ensures |mm| == 2 && AllDigits(mm) && DigitsValue(mm) == 3 * q
  {
    Pad2(3 * q)
  }

  /** `quarter_map.get(month_code)`. */
  function QuarterOfMonth(mm: string): (q: Option<int>)
    ensures q.Some? <==> mm in {"03", "06", "09", "12"}
    ensures q.Some? ==> 1 <= q.value <= 4 && MonthCode(q.value) == mm
  {
    if mm == "03" then Some(1)
    else if mm == "06" then Some(2)
    else if mm == "09" then Some(3)
    else if mm == "12" then Some(4)
    else None
  }

  /** Two-digit years below 50 are 20xx, the others 19xx. */
  function PivotYear(yy: nat): (year: int)
    requires yy < 100
    ensures 1950 <= year <= 2049 && year % 100 == yy
  {
    if yy < 50 then 2000 + yy else 1900 + yy
  }

  /** `f"{year}Q{quarter}"`. */
  function QuarterLabel(year: int, quarter: int): string {
    IntToString(year) + "Q" + IntToString(quarter)
  }

  /** `extract_quarter_from_filename`: the first `bhcf` followed by four
      digits, in the lower-cased name, decides; a month code other than
      03/06/09/12 there gives no quarter even if a later match would. */
  function ExtractQuarter(filename: string): (r: Option<ParsedQuarter>)
    ensures r.Some? ==> 1950 <= r.value.year <= 2049 && 1 <= r.value.quarter <= 4
    ensures r.Some? ==> r.value.text == QuarterLabel(r.value.year, r.value.quarter)
  {
    var s := Lower(filename);
    match FindTag(s, 4, 0)
    case None => None
    case Some(i) => QuarterAtTag(s, i)
  }

  /** What the leftmost `bhcfDDDD` in a name yields. */
  function QuarterAtTag(s: string, i: nat): (r: Option<ParsedQuarter>)
    requires TagAt(s, i, 4)
    ensures r.Some? ==> 1950 <= r.value.year <= 2049 && 1 <= r.value.quarter <= 4
    ensures r.Some? ==> r.value.text == QuarterLabel(r.value.year, r.value.quarter)
  {
    match QuarterOfMonth(s[i + 6..i + 8])
    case None => None
    case Some(q) =>
      var year := PivotYear(DigitsValue(s[i + 4..i + 6]));
      Some(ParsedQuarter(year, q, QuarterLabel(year, q)))
  }

  /** The quarter is read at the leftmost match of the pattern, and a name
      without a match has none. */
  lemma ExtractQuarterLeftmost(filename: string, i: nat)
    requires TagAt(Lower(filename), i, 4)
    requires forall k: nat :: k < i ==> !TagAt(Lower(filename), k, 4)
    ensures ExtractQuarter(filename) == QuarterAtTag(Lower(filename), i)
  {
    var r := FindTag(Lower(filename), 4, 0);
    assert r.Some? && r.value == i;
  }

  lemma ExtractQuarterNoTag(filename: string)
    requires forall k :: !TagAt(Lower(filename), k, 4)
    ensures ExtractQuarter(filename) == None
  {
  }

  /** The documented examples: `bhcf2103` is 2021 Q1 and `bhcf8609` is
      1986 Q3. */
  lemma ExtractQuarterExamples()
    ensures ExtractQuarter("bhcf2103") == Some(ParsedQuarter(2021, 1, "2021Q1"))
    ensures ExtractQuarter("bhcf8609") == Some(ParsedQuarter(1986, 3, "1986Q3"))
  {
    ExampleBhcf2103();
    ExampleBhcf8609();
  }

  lemma ExampleBhcf2103()
    ensures ExtractQuarter("bhcf2103") == Some(ParsedQuarter(2021, 1, "2021Q1"))
  {
    assert DigitsValue("21") == 21 by {
      assert "21"[..1] == "2" && "2"[..0] == "";
    }
    ExtractQuarterOfParts("21", "03", "", 1);
    assert "bhcf" + "21" + "03" + "" == "bhcf2103";
    Label2021Q1();
  }

  lemma ExampleBhcf8609()
    ensures ExtractQuarter("bhcf8609") == Some(ParsedQuarter(1986, 3, "1986Q3"))
  {
    assert DigitsValue("86") == 86 by {
      assert "86"[..1] == "8" && "8"[..0] == "";
    }
    ExtractQuarterOfParts("86", "09", "", 3);
    assert "bhcf" + "86" + "09" + "" == "bhcf8609";
    Label1986Q3();
  }

  lemma Label2021Q1()
    ensures QuarterLabel(2021, 1) == "2021Q1"
  {
    assert NatToString(202) == "202";
    assert NatToString(2021) == "2021";
  }

  lemma Label1986Q3()
    ensures QuarterLabel(1986, 3) == "1986Q3"
  {
    assert NatToString(198) == "198";
    assert NatToString(1986) == "1986";
  }

  /** `bhcf`, two year digits and a quarter-end month code, followed by
      anything, read as that quarter of the pivoted year. */
  lemma ExtractQuarterOfParts(yy: string, mm: string, rest: string, q: int)
    requires |yy| == 2 && |mm| == 2 && AllDigits(yy) && AllDigits(mm)
    requires QuarterOfMonth(mm) == Some(q)
    ensures DigitsValue(yy) < 100
    ensures ExtractQuarter("bhcf" + yy + mm + rest) ==
            Some(ParsedQuarter(PivotYear(DigitsValue(yy)), q, QuarterLabel(PivotYear(DigitsValue(yy)), q)))
  {
    var f := "bhcf" + yy + mm + rest;
    CodeSlices(yy, mm, rest);
    QuarterAtCode(f, yy, mm, q);
    ExtractQuarterOfCode(yy, mm, rest);
  }

  lemma CodeSlices(yy: string, mm: string, rest: string)
    requires |yy| == 2 && |mm| == 2 && AllDigits(yy) && AllDigits(mm)
    ensures ("bhcf" + yy + mm + rest)[4..6] == yy
    ensures ("bhcf" + yy + mm + rest)[6..8] == mm
    ensures TagAt("bhcf" + yy + mm + rest, 0, 4)
  {
    var f := "bhcf" + yy + mm + rest;
    assert f[0..4] == "bhcf";
    forall k | 4 <= k < 8 ensures IsDigit(f[k]) {
      if k < 6 { assert f[k] == yy[k - 4]; } else { assert f[k] == mm[k - 6]; }
    }
  }

  lemma QuarterAtCode(f: string, yy: string, mm: string, q: int)
    requires TagAt(f, 0, 4) && f[4..6] == yy && f[6..8] == mm
    requires QuarterOfMonth(mm) == Some(q)
    ensures DigitsValue(yy) < 100
    ensures QuarterAtTag(f, 0) ==
            Some(ParsedQuarter(PivotYear(DigitsValue(yy)), q, QuarterLabel(PivotYear(DigitsValue(yy)), q)))
  {
    assert AllDigits(yy);
  }

  /** A month code other than 03/06/09/12 at the first match gives no
      quarter, whatever follows. */
  lemma ExtractQuarterBadMonth(yy: string, mm: string, rest: string)
    requires |yy| == 2 && |mm| == 2 && AllDigits(yy) && AllDigits(mm)
    requires mm !in {"03", "06", "09", "12"}
    ensures ExtractQuarter("bhcf" + yy + mm + rest) == None
  {
    ExtractQuarterOfCode(yy, mm, rest);
    var f := "bhcf" + yy + mm + rest;
    assert f[6..8] == mm;
  }

  /** A name that starts with `bhcf`, two digits and a month code is read
      from that position. */
  lemma ExtractQuarterOfCode(yy: string, mm: string, rest: string)
    requires |yy| == 2 && |mm| == 2 && AllDigits(yy) && AllDigits(mm)
    ensures ExtractQuarter("bhcf" + yy + mm + rest) == QuarterAtTag("bhcf" + yy + mm + rest, 0)
  {
    var f := "bhcf" + yy + mm + rest;
    var s := Lower(f);
    assert s[..8] == f[..8] by {
      forall k | 0 <= k < 8 ensures s[k] == f[k] {
        if 4 <= k < 6 { assert f[k] == yy[k - 4]; }
        else if 6 <= k < 8 { assert f[k] == mm[k - 6]; }
      }
    }
    assert s[0..4] == "bhcf" && s[4..6] == yy && s[6..8] == mm;
    assert TagAt(s, 0, 4);
    ExtractQuarterLeftmost(f, 0);
    assert f[4..6] == yy && f[6..8] == mm;
  }

  function DaysInMonth(year: int, month: int): int
    requires 1 <= month <= 12
  {
    if month == 2 then
      (if (year % 4 == 0 && year % 100 != 0) || year % 400 == 0 then 29 else 28)
    else if month == 4 || month == 6 || month == 9 || month == 11 then 30
    else 31
  }

  /** `Timestamp(year, 3 * quarter, 1) + QuarterEnd(0)`: the last calendar
      day of the quarter's last month. */
  function ReportingPeriod(year: int, quarter: int): (d: Date)
    requires 1 <= quarter <= 4
    ensures d.year == year && d.month == 3 * quarter
    ensures d.day == DaysInMonth(year, d.month)
  {
    Date(year, 3 * quarter, if quarter == 1 || quarter == 4 then 31 else 30)
  }

  /** The four possible reporting dates. */
  lemma ReportingPeriodDates(year: int)
    ensures ReportingPeriod(year, 1) == Date(year, 3, 31)
    ensures ReportingPeriod(year, 2) == Date(year, 6, 30)
    ensures ReportingPeriod(year, 3) == Date(year, 9, 30)
    ensures ReportingPeriod(year, 4) == Date(year, 12, 31)
  {
  }

  /** `Path.stem`: the name without its last suffix; a leading dot or a
      trailing dot does not start a suffix. */
  function Stem(name: string): (r: string)
    ensures |r| <= |name| && r == name[..|r|]
  {
    match LastDot(name, |name|)
    case Some(i) => if 0 < i < |name| - 1 then name[..i] else name
    case None => name
  }

  /** `name.rfind('.')` within `name[..end]`. */
  function LastDot(name: string, end: nat): (r: Option<nat>)
    requires end <= |name|
    ensures r.Some? ==> r.value < end && name[r.value] == '.'
    ensures r.Some? ==> forall k :: r.value < k < end ==> name[k] != '.'
    ensures r.None? ==> forall k :: 0 <= k < end ==> name[k] != '.'
  {
    if end == 0 then None
    else if name[end - 1] == '.' then Some(end - 1)
    else LastDot(name, end - 1)
  }

  /** The parser reads the period from the stem, the batch wrapper from the
      whole name; for a `.csv` name the two agree, because no match can
      reach into the suffix. */
  lemma StemAgreesOnCsv(name: string)
    requires EndsWith(name, ".csv")
    ensures ExtractQuarter(Stem(name)) == ExtractQuarter(name)
  {
    var n := |name|;
    assert name[n - 4] == '.' && name[n - 1] == 'v';
    assert LastDot(name, n) == Some(n - 4);
    if n > 4 {
      assert Stem(name) == name[..n - 4];
      var s := Lower(name);
      assert Lower(name[..n - 4]) == s[..n - 4];
      forall k: nat
        ensures TagAt(Lower(name[..n - 4]), k, 4) <==> TagAt(s, k, 4)
      {
        TagBeforeDot(s, n - 4, k);
      }
      ExtractQuarterPrefix(name, n - 4);
    }
  }

  /** Cutting a name short changes nothing when it keeps every match. */
  lemma ExtractQuarterPrefix(f: string, m: nat)
    requires m <= |f|
    requires forall k: nat :: TagAt(Lower(f[..m]), k, 4) <==> TagAt(Lower(f), k, 4)
    ensures ExtractQuarter(f[..m]) == ExtractQuarter(f)
  {
    var s := Lower(f);
    LowerPrefix(f, m);
    SameTagsSameSearch(s[..m], s);
    var i := FindTag(s, 4, 0);
    if i.Some? {
      QuarterAtTagPrefix(s, m, i.value);
    }
  }

  lemma LowerPrefix(f: string, m: nat)
    requires m <= |f|
    ensures Lower(f[..m]) == Lower(f)[..m]
  {
  }

  /** A match inside a prefix reads as the same period there. */
  lemma QuarterAtTagPrefix(s: string, m: nat, i: nat)
    requires m <= |s| && TagAt(s[..m], i, 4) && TagAt(s, i, 4)
    ensures QuarterAtTag(s[..m], i) == QuarterAtTag(s, i)
  {
    assert s[..m][i + 4..i + 6] == s[i + 4..i + 6];
    assert s[..m][i + 6..i + 8] == s[i + 6..i + 8];
  }

  /** A match cannot contain a dot, and none fits after a dot that is one
      of the last four characters. */
  lemma TagBeforeDot(s: string, m: nat, k: nat)
    requires m < |s| <= m + 4 && s[m] == '.'
    ensures TagAt(s[..m], k, 4) <==> TagAt(s, k, 4)
  {
    if k + 8 <= m {
      assert s[..m][k..k + 4] == s[k..k + 4];
    } else if k <= m {
      assert !IsDigit(s[m]);
    }
  }

  /** The leftmost match is determined by where the pattern matches. */
  lemma SameTagsSameSearch(s: string, t: string)
    requires forall k: nat :: TagAt(s, k, 4) <==> TagAt(t, k, 4)
    ensures FindTag(s, 4, 0) == FindTag(t, 4, 0)
  {
    var a, b := FindTag(s, 4, 0), FindTag(t, 4, 0);
    if a.Some? {
      assert TagAt(t, a.value, 4);
    }
  }

  /** `re.search(r'bhcf(\d{4})(\d{2})(\d{2})', name.lower())`: the year and
      the month of the first `bhcf` followed by eight digits. */
  function ZipStamp(zipName: string): (r: Option<(int, int)>)
    ensures r.Some? ==> 0 <= r.value.0 < 10000 && 0 <= r.value.1 < 100
  {
    var s := Lower(zipName);
    match FindTag(s, 8, 0)
    case None => None
    case Some(i) =>
      Some((DigitsValue(s[i + 4..i + 8]), DigitsValue(s[i + 8..i + 10])))
  }

  /** The renaming of `extract_zip_files`: `BHCF20210630.zip` becomes
      `bhcf2106.csv`; a month other than 03/06/09/12 gives no name. */
  function ZipCsvName(zipName: string): (r: Option<string>)
    ensures r.Some? <==> ZipStamp(zipName).Some? && QuarterOfMonth(Pad2(ZipStamp(zipName).value.1)).Some?
    ensures r.Some? ==> |r.value| == 12 && StartsWith(r.value, "bhcf") && EndsWith(r.value, ".csv")
  {
    match ZipStamp(zipName)
    case None => None
    case Some((year, month)) =>
      if QuarterOfMonth(Pad2(month)).Some? then
        Some("bhcf" + Pad2(year % 100) + Pad2(month) + ".csv")
      else None
  }

  /** The CSV name a ZIP is extracted to reads back, through
      `extract_quarter_from_filename`, as the quarter that ends in the ZIP's
      month, in the ZIP's year whenever that year lies in 1950..2049. */
  lemma ZipCsvNameReadsBack(zipName: string)
    requires ZipCsvName(zipName).Some?
    ensures var (year, month) := ZipStamp(zipName).value;
            var p := ExtractQuarter(ZipCsvName(zipName).value);
            && p.Some? && 3 * p.value.quarter == month
            && p.value.year % 100 == year % 100
            && (1950 <= year <= 2049 ==> p.value.year == year)
  {
    var (year, month) := ZipStamp(zipName).value;
    var yy, mm := Pad2(year % 100), Pad2(month);
    var q := QuarterOfMonth(mm).value;
    ExtractQuarterOfParts(yy, mm, ".csv", q);
    assert ZipCsvName(zipName).value == "bhcf" + yy + mm + ".csv";
    assert DigitsValue(mm) == 3 * q;
    PivotYearOfCentury(year);
  }

  lemma PivotYearOfCentury(year: int)
    requires 0 <= year
    ensures PivotYear(year % 100) % 100 == year % 100
    ensures 1950 <= year <= 2049 ==> PivotYear(year % 100) == year
  {
  }

  /** The archive member `extract_zip_files` copies: a name whose upper-case
      form starts with `BHCF` and ends with `.TXT`. */
  predicate IsReportMember(name: string) {
    StartsWith(Upper(name), "BHCF") && EndsWith(Upper(name), ".TXT")
  }

  /** The first report member of an archive listing. */
  function FirstReportMember(names: seq<string>): (r: Option<nat>)
    ensures r.Some? ==> r.value < |names| && IsReportMember(names[r.value])
    ensures r.Some? ==> forall k :: 0 <= k < r.value ==> !IsReportMember(names[k])
    ensures r.None? ==> forall k :: 0 <= k < |names| ==> !IsReportMember(names[k])
  {
    if names == [] then None
    else if IsReportMember(names[0]) then Some(0)
    else match FirstReportMember(names[1..])
         case None => None
         case Some(k) => Some(k + 1)
  }

  /** The `for ... break` loop over `zip_ref.namelist()`. */
  method FindReportMember(names: seq<string>) returns (r: Option<nat>)
    ensures r == FirstReportMember(names)
  {
    var k := 0;
    while k < |names|
      invariant 0 <= k <= |names|
      invariant forall j :: 0 <= j < k ==> !IsReportMember(names[j])
    {
      if IsReportMember(names[k]) {
        r := Some(k);
        FirstReportMemberIs(names, k);
        return;
      }
      k := k + 1;
    }
    r := None;
  }

  lemma FirstReportMemberIs(names: seq<string>, k: nat)
    requires k < |names| && IsReportMember(names[k])
    requires forall j :: 0 <= j < k ==> !IsReportMember(names[j])
    ensures FirstReportMember(names) == Some(k)
  {
    var r := FirstReportMember(names);
    assert r.Some?;
  }
}
