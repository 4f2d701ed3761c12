/** download.py: the quarter code of the Chicago Fed file names, the
    availability window `download_quarter` checks before touching the
    network, the quarter enumeration of `generate_quarter_list` and the
    result partition of `download_range`. */
module Download {
  import opened Wrappers
  import opened Text
  import opened Quarters

  /** The data window of the Chicago Fed archive: 1986 Q3 to 2021 Q1. */
  const MinYear := 1986
  const MinQuarter := 3
  const MaxYear := 2021
  const MaxQuarter := 1

  const BaseUrl := "https://www.chicagofed.org/~/media/others/banking/financial-institution-reports/bhc-data"

  /** A `(year, quarter)` pair as the downloader passes them around. */
  type Quarter = (int, int)

  /** `_format_quarter_code`: the last two characters of `str(year)`
      followed by the month code of the quarter's last month. */
  function FormatQuarterCode(year: int, quarter: int): (code: string)
    requires 1 <= quarter <= 4
    ensures 2 < |code| <= 4 && code[|code| - 2..] == MonthCode(quarter)
  {
    var ys := IntToString(year);
    (if |ys| <= 2 then ys else ys[|ys| - 2..]) + MonthCode(quarter)
  }

  /** For any year of at least two digits the code is the year modulo 100,
      zero-padded, followed by the month: (1986, 3) is `8609` and (2021, 1)
      is `2103`. */
  lemma FormatQuarterCodeDigits(year: int, quarter: int)
    requires year >= 10 && 1 <= quarter <= 4
    ensures FormatQuarterCode(year, quarter) == Pad2(year % 100) + MonthCode(quarter)
  {
    NatToStringLastTwo(year);
  }

  lemma FormatQuarterCodeExamples()
    ensures FormatQuarterCode(1986, 3) == "8609"
    ensures FormatQuarterCode(2021, 1) == "2103"
  {
    FormatQuarterCodeDigits(1986, 3);
    FormatQuarterCodeDigits(2021, 1);
    MonthCodeReadsBack(3);
    MonthCodeReadsBack(1);
  }

  /** The month code of a quarter is read back as that quarter. */
  lemma MonthCodeReadsBack(q: int)
    requires 1 <= q <= 4
    ensures QuarterOfMonth(MonthCode(q)) == Some(q)
  {
  }

  /** Round trip with `extract_quarter_from_filename`: a name that starts
      with `bhcf` and the code of a quarter of 1950..2049 is read back as
      that quarter, whatever follows the code. */
  lemma {:induction false} FormatQuarterCodeRoundTrip(year: int, quarter: int, rest: string)
    requires 1950 <= year <= 2049 && 1 <= quarter <= 4
    ensures ExtractQuarter("bhcf" + FormatQuarterCode(year, quarter) + rest)
            == Some(ParsedQuarter(year, quarter, QuarterLabel(year, quarter)))
  {
    FormatQuarterCodeDigits(year, quarter);
    var yy, mm := Pad2(year % 100), MonthCode(quarter);
    assert "bhcf" + FormatQuarterCode(year, quarter) + rest == "bhcf" + yy + mm + rest;
    MonthCodeReadsBack(quarter);
    ExtractQuarterOfParts(yy, mm, rest, quarter);
    PivotYearOfCentury(year);
  }

  /** The other direction: the quarter read from `bhcfYYMM...` formats
      back to `YYMM`. */
  lemma {:induction false} ExtractedQuarterFormatsBack(yy: string, mm: string, rest: string)
    requires |yy| == 2 && |mm| == 2 && AllDigits(yy) && AllDigits(mm)
    requires ExtractQuarter("bhcf" + yy + mm + rest).Some?
    ensures var p := ExtractQuarter("bhcf" + yy + mm + rest).value;
            FormatQuarterCode(p.year, p.quarter) == yy + mm
  {
    var f := "bhcf" + yy + mm + rest;
    CodeSlices(yy, mm, rest);
    ExtractQuarterOfCode(yy, mm, rest);
    var q := QuarterOfMonth(mm).value;
    QuarterAtCode(f, yy, mm, q);
    FormatQuarterCodeDigits(PivotYear(DigitsValue(yy)), q);
    Pad2OfDigits(yy);
  }

  lemma Pad2OfDigits(s: string)
    requires |s| == 2 && AllDigits(s)
    ensures Pad2(DigitsValue(s)) == s
  {
    assert s[..1][..0] == [];
    var d0, d1 := DigitValue(s[0]), DigitValue(s[1]);
    assert DigitsValue(s) == 10 * d0 + d1;
  }

  /** The file `download_quarter` writes and reads for a quarter. */
  function QuarterFile(year: int, quarter: int): (name: string)
    requires 1 <= quarter <= 4
    ensures StartsWith(name, "bhcf") && EndsWith(name, ".csv")
  {
    "bhcf" + FormatQuarterCode(year, quarter) + ".csv"
  }

  /** Within the window the file names are read back by the parser as
      their own quarter, so no two quarters share a file. */
  lemma QuarterFileReadsBack(year: int, quarter: int)
    requires Available(year, quarter)
    ensures ExtractQuarter(QuarterFile(year, quarter))
            == Some(ParsedQuarter(year, quarter, QuarterLabel(year, quarter)))
  {
    FormatQuarterCodeRoundTrip(year, quarter, ".csv");
  }

  lemma QuarterFileInjective(a: Quarter, b: Quarter)
    requires Available(a.0, a.1) && Available(b.0, b.1)
    requires QuarterFile(a.0, a.1) == QuarterFile(b.0, b.1)
    ensures a == b
  {
    QuarterFileReadsBack(a.0, a.1);
    QuarterFileReadsBack(b.0, b.1);
  }

  /** The checks of `download_quarter` before any request: a quarter in
      1..4, not after 2021 Q1 and not before 1986 Q3. */
  predicate Available(year: int, quarter: int) {
    && 1 <= quarter <= 4
    && !(year > MaxYear || (year == MaxYear && quarter > MaxQuarter))
    && !(year < MinYear || (year == MinYear && quarter < MinQuarter))
  }

  /** Contents of a file in the output directory. */
  type Bytes = seq<bv8>

  /** What the request for a URL comes to: the whole body, an HTTP error
      status, a failure before any response, or a connection that breaks
      after part of the body has been written. */
  datatype Fetch =
    | Fetched(body: Bytes)
    | HttpError(status: int)
    | RequestError
    | StreamError(received: Bytes)

  type Network = string -> Fetch

  /** `download_quarter` on the output directory `files`: its result and
      the directory afterwards. */
  function QuarterDownload(files: map<string, Bytes>, year: int, quarter: int, network: Network)
    : (r: (bool, map<string, Bytes>))
    ensures !Available(year, quarter) ==> r == (false, files)
    ensures Available(year, quarter) && QuarterFile(year, quarter) in files ==> r == (true, files)
    ensures r.0 ==> Available(year, quarter) && QuarterFile(year, quarter) in r.1
    ensures forall p :: p in files ==> p in r.1 && r.1[p] == files[p]
    ensures forall p :: p in r.1 && p !in files ==> Available(year, quarter) && p == QuarterFile(year, quarter)
    ensures Available(year, quarter) && QuarterFile(year, quarter) !in files
            ==> r == Retrieve(files, QuarterFile(year, quarter), network)
  {
    if !(1 <= quarter <= 4) then (false, files)
    else if year > MaxYear || (year == MaxYear && quarter > MaxQuarter) then (false, files)
    else if year < MinYear || (year == MinYear && quarter < MinQuarter) then (false, files)
    else
      var name := QuarterFile(year, quarter);
      if name in files then (true, files) else Retrieve(files, name, network)
  }

  /** The request for a file not yet in the directory: a full body is
      written and succeeds, an HTTP or request error writes nothing, and a
      broken stream leaves what arrived. */
  function Retrieve(files: map<string, Bytes>, name: string, network: Network): (r: (bool, map<string, Bytes>))
    ensures r.0 ==> name in r.1
    ensures forall p :: p in r.1 <==> p in files || (p == name && r.1 != files)
    ensures forall p :: p in files && p != name ==> r.1[p] == files[p]
    ensures network(BaseUrl + "/" + name).Fetched? ==> r == (true, files[name := network(BaseUrl + "/" + name).body])
    ensures network(BaseUrl + "/" + name).HttpError? || network(BaseUrl + "/" + name).RequestError?
            ==> r == (false, files)
    ensures network(BaseUrl + "/" + name).StreamError?
            ==> r == (false, files[name := network(BaseUrl + "/" + name).received])
  {
    match network(BaseUrl + "/" + name)
    case Fetched(body) => (true, files[name := body])
    case HttpError(_) => (false, files)
    case RequestError => (false, files)
    case StreamError(received) => (false, files[name := received])
  }

  /** A download that breaks off leaves its partial file behind, and the
      next attempt at that quarter takes the file as already there. */
  lemma PartialFileCountsAsDownloaded(files: map<string, Bytes>, year: int, quarter: int,
                                      network: Network, retry: Network)
    requires Available(year, quarter) && QuarterFile(year, quarter) !in files
    requires network(BaseUrl + "/" + QuarterFile(year, quarter)).StreamError?
    ensures var (ok, after) := QuarterDownload(files, year, quarter, network);
            !ok && QuarterDownload(after, year, quarter, retry) == (true, after)
  {
  }

  /** `(year, quarter)` order: `a` is not later than `b`. */
  predicate NotAfter(a: Quarter, b: Quarter) {
    a.0 < b.0 || (a.0 == b.0 && a.1 <= b.1)
  }

  predicate Earlier(a: Quarter, b: Quarter) {
    a.0 < b.0 || (a.0 == b.0 && a.1 < b.1)
  }

  /** Quarters numbered consecutively: 4 * year + quarter - 1. */
  function Index(x: Quarter): int {
    4 * x.0 + x.1 - 1
  }

  function OfIndex(n: int): (x: Quarter)
    ensures 1 <= x.1 <= 4 && Index(x) == n
  {
    (n / 4, n % 4 + 1)
  }

  lemma OfIndexOf(x: Quarter)
    requires 1 <= x.1 <= 4
    ensures OfIndex(Index(x)) == x
  {
    var y := OfIndex(Index(x));
    assert 4 * y.0 + y.1 == 4 * x.0 + x.1;
  }

  /** The two quarters of 1986 before the window opens. */
  predicate BeforeData(x: Quarter) {
    x.0 == MinYear && x.1 < MinQuarter
  }

  /** The quarters numbered `lo` up to `hi` (exclusive) in order, without
      1986 Q1 and Q2. */
  function QuartersUpTo(lo: int, hi: int): (r: seq<Quarter>)
    decreases hi - lo
  {
    if hi <= lo then []
    else QuartersUpTo(lo, hi - 1) + (if BeforeData(OfIndex(hi - 1)) then [] else [OfIndex(hi - 1)])
  }

  /** What `generate_quarter_list(start_year, start_quarter, end_year,
      end_quarter)` returns. */
  function QuarterList(start: Quarter, end: Quarter): seq<Quarter>
    requires 1 <= start.1 <= 4 && 1 <= end.1 <= 4
  {
    QuartersUpTo(Index(start), Index(end) + 1)
  }

  lemma {:induction false} QuartersUpToMembers(lo: int, hi: int, x: Quarter)
    ensures x in QuartersUpTo(lo, hi) <==> 1 <= x.1 <= 4 && lo <= Index(x) < hi && !BeforeData(x)
    decreases hi - lo
  {
    if hi > lo {
      QuartersUpToMembers(lo, hi - 1, x);
      if 1 <= x.1 <= 4 && Index(x) == hi - 1 {
        OfIndexOf(x);
      }
    }
  }

  lemma {:induction false} QuartersUpToIncreasing(lo: int, hi: int)
    ensures forall i :: 0 <= i < |QuartersUpTo(lo, hi)| ==>
              lo <= Index(QuartersUpTo(lo, hi)[i]) < hi && 1 <= QuartersUpTo(lo, hi)[i].1 <= 4
    ensures forall i, j :: 0 <= i < j < |QuartersUpTo(lo, hi)| ==>
              Index(QuartersUpTo(lo, hi)[i]) < Index(QuartersUpTo(lo, hi)[j])
    decreases hi - lo
  {
    if hi > lo {
      QuartersUpToIncreasing(lo, hi - 1);
      var prev := QuartersUpTo(lo, hi - 1);
      var x := OfIndex(hi - 1);
      if !BeforeData(x) {
        var r := prev + [x];
        assert QuartersUpTo(lo, hi) == r;
        assert forall i :: 0 <= i < |prev| ==> r[i] == prev[i];
        assert r[|prev|] == x;
      }
    }
  }

  /** `x` is a quarter from `start` to `end` inclusive other than 1986 Q1
      and Q2. */
  predicate InRange(start: Quarter, end: Quarter, x: Quarter) {
    1 <= x.1 <= 4 && NotAfter(start, x) && NotAfter(x, end) && !BeforeData(x)
  }

  /** The list holds exactly the quarters from the start to the end
      inclusive, leaving out 1986 Q1 and Q2 but not filtering any other
      year outside the window. */
  lemma QuarterListMembers(start: Quarter, end: Quarter, x: Quarter)
    requires 1 <= start.1 <= 4 && 1 <= end.1 <= 4
    ensures x in QuarterList(start, end) <==> InRange(start, end, x)
  {
    QuartersUpToMembers(Index(start), Index(end) + 1, x);
  }

  /** The list is strictly increasing in `(year, quarter)` order. */
  lemma QuarterListIncreasing(start: Quarter, end: Quarter)
    requires 1 <= start.1 <= 4 && 1 <= end.1 <= 4
    ensures var r := QuarterList(start, end);
            forall i, j :: 0 <= i < j < |r| ==> Earlier(r[i], r[j])
  {
    QuartersUpToIncreasing(Index(start), Index(end) + 1);
    var r := QuarterList(start, end);
    forall i, j | 0 <= i < j < |r|
      ensures Earlier(r[i], r[j])
    {
      IndexOrder(r[i], r[j]);
    }
  }

  /** On well-formed quarters the numbering follows `(year, quarter)` order. */
  lemma IndexOrder(a: Quarter, b: Quarter)
    requires 1 <= a.1 <= 4 && 1 <= b.1 <= 4
    ensures Index(a) < Index(b) <==> Earlier(a, b)
    ensures Index(a) <= Index(b) <==> NotAfter(a, b)
  {
  }

  /** A start year after the end year gives no quarters, and 1986 Q1 and
      Q2 are never listed. */
  lemma QuarterListEmptyAndEarly(start: Quarter, end: Quarter)
    requires 1 <= start.1 <= 4 && 1 <= end.1 <= 4
    ensures start.0 > end.0 ==> QuarterList(start, end) == []
    ensures (MinYear, 1) !in QuarterList(start, end) && (MinYear, 2) !in QuarterList(start, end)
  {
    QuarterListMembers(start, end, (MinYear, 1));
    QuarterListMembers(start, end, (MinYear, 2));
  }

  /** `generate_quarter_list`: one pass over the years and, in each, over
      its quarters, skipping 1986 Q1 and Q2. */
  method GenerateQuarterList(startYear: int, startQuarter: int, endYear: int, endQuarter: int)
    returns (quarters: seq<Quarter>)
    requires 1 <= startQuarter <= 4 && 1 <= endQuarter <= 4
    ensures quarters == QuarterList((startYear, startQuarter), (endYear, endQuarter))
  {
    ghost var lo, hi := Index((startYear, startQuarter)), Index((endYear, endQuarter)) + 1;
    quarters := [];
    var year := startYear;
    while year <= endYear
      invariant startYear <= year && (year <= endYear + 1 || year == startYear)
      invariant quarters == QuartersUpTo(lo, Min(4 * year, hi))
    {
      var qStart := if year == startYear then startQuarter else 1;
      var qEnd := if year == endYear then endQuarter else 4;
      var quarter := qStart;
      YearOpens(lo, hi, year, startYear, startQuarter, qStart);
      while quarter <= qEnd
        invariant qStart <= quarter && (quarter <= qEnd + 1 || quarter == qStart)
        invariant quarters == QuartersUpTo(lo, Min(4 * year + quarter - 1, hi))
      {
        QuarterStep(lo, hi, year, quarter);
        if !(year == MinYear && quarter < MinQuarter) {
          quarters := quarters + [(year, quarter)];
        }
        quarter := quarter + 1;
      }
      YearCloses(lo, hi, year, startYear, startQuarter, endYear, endQuarter, qStart, qEnd, quarter);
      year := year + 1;
    }
  }

  /** Entering a year: the quarters before its first visited quarter are
      those before the year itself. */
  lemma YearOpens(lo: int, hi: int, year: int, startYear: int, startQuarter: int, qStart: int)
    requires lo == 4 * startYear + startQuarter - 1 && 1 <= startQuarter <= 4
    requires startYear <= year && qStart == (if year == startYear then startQuarter else 1)
    ensures QuartersUpTo(lo, Min(4 * year, hi)) == QuartersUpTo(lo, Min(4 * year + qStart - 1, hi))
  {
    if year == startYear {
      QuartersUpToEmpty(lo, Min(4 * year, hi));
      QuartersUpToEmpty(lo, Min(4 * year + qStart - 1, hi));
    }
  }

  /** Leaving a year: the quarters up to its last visited quarter are those
      before the next year. */
  lemma YearCloses(lo: int, hi: int, year: int, startYear: int, startQuarter: int, endYear: int, endQuarter: int,
                    qStart: int, qEnd: int, quarter: int)
    requires lo == 4 * startYear + startQuarter - 1 && 1 <= startQuarter <= 4 && startYear <= year
    requires hi == 4 * endYear + endQuarter && 1 <= endQuarter <= 4 && year <= endYear
    requires qStart == (if year == startYear then startQuarter else 1)
    requires qEnd == (if year == endYear then endQuarter else 4)
    requires qStart <= quarter && (quarter <= qEnd + 1 || quarter == qStart) && quarter > qEnd
    ensures QuartersUpTo(lo, Min(4 * year + quarter - 1, hi)) == QuartersUpTo(lo, Min(4 * (year + 1), hi))
  {
    if quarter != qEnd + 1 {
      QuartersUpToEmpty(lo, Min(4 * year + quarter - 1, hi));
      QuartersUpToEmpty(lo, Min(4 * (year + 1), hi));
    }
  }

  lemma QuartersUpToEmpty(lo: int, hi: int)
    requires hi <= lo
    ensures QuartersUpTo(lo, hi) == []
  {
  }

  /** One more quarter number: the quarter itself is appended unless it is
      1986 Q1 or Q2. */
  lemma QuartersUpToStep(lo: int, hi: int, x: Quarter)
    requires 1 <= x.1 <= 4 && lo <= Index(x) < hi
    ensures QuartersUpTo(lo, Min(Index(x) + 1, hi))
            == QuartersUpTo(lo, Min(Index(x), hi)) + (if BeforeData(x) then [] else [x])
  {
    OfIndexOf(x);
  }

  /** The step of the inner loop, in the loop's own terms. */
  lemma QuarterStep(lo: int, hi: int, year: int, quarter: int)
    requires 1 <= quarter <= 4 && lo <= 4 * year + quarter - 1 < hi
    ensures QuartersUpTo(lo, Min(4 * year + (quarter + 1) - 1, hi))
            == QuartersUpTo(lo, Min(4 * year + quarter - 1, hi))
               + (if year == MinYear && quarter < MinQuarter then [] else [(year, quarter)])
  {
    QuartersUpToStep(lo, hi, (year, quarter));
  }

  function Min(a: int, b: int): int {
    if a <= b then a else b
  }

  /** The result of `download_range` over a list of quarters: one outcome
      per quarter and the output directory afterwards. */
  datatype Run = Run(outcomes: seq<bool>, files: map<string, Bytes>)

  /** Downloading the quarters one after the other; each attempt sees the
      files the earlier ones left. */
  function RunQuarters(files: map<string, Bytes>, quarters: seq<Quarter>, network: Network): (r: Run)
    ensures |r.outcomes| == |quarters|
    ensures forall p :: p in files ==> p in r.files && r.files[p] == files[p]
    decreases |quarters|
  {
    if quarters == [] then Run([], files)
    else
      var n := |quarters| - 1;
      var prev := RunQuarters(files, quarters[..n], network);
      var (ok, after) := QuarterDownload(prev.files, quarters[n].0, quarters[n].1, network);
      Run(prev.outcomes + [ok], after)
  }

  /** Every file a run adds is the file of a quarter in the window that it
      was asked to download. */
  lemma {:induction false} RunQuartersNewFiles(files: map<string, Bytes>, quarters: seq<Quarter>,
                                               network: Network, p: string)
    requires p in RunQuarters(files, quarters, network).files && p !in files
    ensures exists i :: 0 <= i < |quarters| && Available(quarters[i].0, quarters[i].1)
                        && p == QuarterFile(quarters[i].0, quarters[i].1)
    decreases |quarters|
  {
    var n := |quarters| - 1;
    var prev := RunQuarters(files, quarters[..n], network);
    if p in prev.files {
      RunQuartersNewFiles(files, quarters[..n], network, p);
      var i :| 0 <= i < n && Available(quarters[..n][i].0, quarters[..n][i].1)
               && p == QuarterFile(quarters[..n][i].0, quarters[..n][i].1);
      assert quarters[..n][i] == quarters[i];
    } else {
      assert Available(quarters[n].0, quarters[n].1) && p == QuarterFile(quarters[n].0, quarters[n].1);
    }
  }

  /** The quarters whose outcome is `want`, in list order. */
  function Select(quarters: seq<Quarter>, outcomes: seq<bool>, want: bool): (r: seq<Quarter>)
    requires |outcomes| == |quarters|
    ensures |r| <= |quarters|
    decreases |quarters|
  {
    if quarters == [] then []
    else
      var n := |quarters| - 1;
      Select(quarters[..n], outcomes[..n], want) + (if outcomes[n] == want then [quarters[n]] else [])
  }

  /** `successful` and `failed` split the list: every quarter lands in
      exactly one of them, as often as it is listed. */
  lemma SelectPartition(quarters: seq<Quarter>, outcomes: seq<bool>)
    requires |outcomes| == |quarters|
    ensures |Select(quarters, outcomes, true)| + |Select(quarters, outcomes, false)| == |quarters|
    ensures multiset(Select(quarters, outcomes, true)) + multiset(Select(quarters, outcomes, false))
            == multiset(quarters)
  {
    SelectMultiset(quarters, outcomes);
    assert |multiset(quarters)| == |quarters|;
  }

  lemma {:induction false} SelectMultiset(quarters: seq<Quarter>, outcomes: seq<bool>)
    requires |outcomes| == |quarters|
    ensures multiset(Select(quarters, outcomes, true)) + multiset(Select(quarters, outcomes, false))
            == multiset(quarters)
    decreases |quarters|
  {
    if quarters != [] {
      var n := |quarters| - 1;
      SelectMultiset(quarters[..n], outcomes[..n]);
      var x := quarters[n];
      assert quarters == quarters[..n] + [x];
      assert multiset(quarters) == multiset(quarters[..n]) + multiset{x};
      var t, f := Select(quarters[..n], outcomes[..n], true), Select(quarters[..n], outcomes[..n], false);
      if outcomes[n] {
        assert Select(quarters, outcomes, true) == t + [x];
        assert Select(quarters, outcomes, false) == f;
        assert multiset(t + [x]) == multiset(t) + multiset{x};
      } else {
        assert Select(quarters, outcomes, true) == t;
        assert Select(quarters, outcomes, false) == f + [x];
        assert multiset(f + [x]) == multiset(f) + multiset{x};
      }
    }
  }

  /** A quarter is listed as successful exactly when its attempt
      succeeded, and as failed exactly when it did not. */
  lemma {:induction false} SelectMembers(quarters: seq<Quarter>, outcomes: seq<bool>, want: bool, x: Quarter)
    requires |outcomes| == |quarters|
    ensures x in Select(quarters, outcomes, want) <==>
            exists i :: 0 <= i < |quarters| && quarters[i] == x && outcomes[i] == want
    decreases |quarters|
  {
    if quarters != [] {
      var n := |quarters| - 1;
      SelectMembers(quarters[..n], outcomes[..n], want, x);
      if exists i :: 0 <= i < |quarters| && quarters[i] == x && outcomes[i] == want {
        var i :| 0 <= i < |quarters| && quarters[i] == x && outcomes[i] == want;
        if i < n {
          assert quarters[..n][i] == x && outcomes[..n][i] == want;
        }
      }
    }
  }

  /** Quarters outside the window all fail and nothing is written. */
  lemma {:induction false} OutsideWindowAllFail(files: map<string, Bytes>, quarters: seq<Quarter>, network: Network)
    requires forall i :: 0 <= i < |quarters| ==> !Available(quarters[i].0, quarters[i].1)
    ensures var r := RunQuarters(files, quarters, network);
            && r.files == files
            && Select(quarters, r.outcomes, false) == quarters
            && Select(quarters, r.outcomes, true) == []
    decreases |quarters|
  {
    if quarters != [] {
      var n := |quarters| - 1;
      OutsideWindowAllFail(files, quarters[..n], network);
      assert quarters == quarters[..n] + [quarters[n]];
    }
  }

  /** The bounds `download_range` uses: without a start year the window's
      first quarter, 1986 Q3, whatever `start_quarter` says; without an end
      year its last, 2021 Q1. */
  function RangeStart(startYear: Option<int>, startQuarter: int): Quarter {
    match startYear
    case None => (MinYear, MinQuarter)
    case Some(y) => (y, startQuarter)
  }

  function RangeEnd(endYear: Option<int>, endQuarter: int): Quarter {
    match endYear
    case None => (MaxYear, MaxQuarter)
    case Some(y) => (y, endQuarter)
  }

  /** With neither year given the range is exactly the data window. */
  lemma DefaultRangeIsWindow(start: Quarter, end: Quarter, startQuarter: int, endQuarter: int, x: Quarter)
    requires start == RangeStart(None, startQuarter) && end == RangeEnd(None, endQuarter)
    ensures x in QuarterList(start, end) <==> Available(x.0, x.1)
  {
    assert InRange(start, end, x) <==> Available(x.0, x.1);
    QuarterListWindow(start, end, x);
  }

  lemma QuarterListWindow(start: Quarter, end: Quarter, x: Quarter)
    requires 1 <= start.1 <= 4 && 1 <= end.1 <= 4
    requires InRange(start, end, x) <==> Available(x.0, x.1)
    ensures x in QuarterList(start, end) <==> Available(x.0, x.1)
  {
    QuarterListMembers(start, end, x);
  }

  lemma RunQuartersSnoc(files: map<string, Bytes>, quarters: seq<Quarter>, i: nat, network: Network)
    requires i < |quarters|
    ensures var prev := RunQuarters(files, quarters[..i], network);
            var r := QuarterDownload(prev.files, quarters[i].0, quarters[i].1, network);
            RunQuarters(files, quarters[..i + 1], network) == Run(prev.outcomes + [r.0], r.1)
  {
    assert quarters[..i + 1][..i] == quarters[..i];
  }

  lemma SelectSnoc(quarters: seq<Quarter>, outcomes: seq<bool>, i: nat, ok: bool, want: bool)
    requires i < |quarters| && |outcomes| == i
    ensures Select(quarters[..i + 1], outcomes + [ok], want)
            == Select(quarters[..i], outcomes, want) + (if ok == want then [quarters[i]] else [])
  {
    assert quarters[..i + 1][..i] == quarters[..i];
    assert (outcomes + [ok])[..i] == outcomes;
  }

  /** The defaults of `download_range` and the call to
      `generate_quarter_list`. */
  method RangeQuarters(startYear: Option<int>, startQuarter: int, endYear: Option<int>, endQuarter: int)
    returns (quarters: seq<Quarter>)
    requires 1 <= startQuarter <= 4 && 1 <= endQuarter <= 4
    ensures quarters == QuarterList(RangeStart(startYear, startQuarter), RangeEnd(endYear, endQuarter))
  {
    var start := RangeStart(startYear, startQuarter);
    var end := RangeEnd(endYear, endQuarter);
    quarters := GenerateQuarterList(start.0, start.1, end.0, end.1);
  }

  /** Downloading `quarters` in order from `initial` lists the successes in
      `successful`, the failures in `failed`, and leaves `final`. */
  predicate Downloaded(initial: map<string, Bytes>, quarters: seq<Quarter>, network: Network,
                       successful: seq<Quarter>, failed: seq<Quarter>, final: map<string, Bytes>)
  {
    var run := RunQuarters(initial, quarters, network);
    && successful == Select(quarters, run.outcomes, true)
    && failed == Select(quarters, run.outcomes, false)
    && final == run.files
  }

  /** `FRY9CDownloader`: the output directory it fills. The session, its
      retry policy and the delay between requests are not modelled. */
  class Downloader {
    var files: map<string, Bytes>

    /** A downloader over an output directory holding `existing`. */
    constructor(existing: map<string, Bytes>)
      ensures files == existing
    {
      files := existing;
    }

    /** `download_quarter`. */
    method DownloadQuarter(year: int, quarter: int, network: Network) returns (ok: bool)
      modifies this
      ensures (ok, files) == QuarterDownload(old(files), year, quarter, network)
    {
      if quarter !in {1, 2, 3, 4} {
        return false;
      }
      if year > MaxYear || (year == MaxYear && quarter > MaxQuarter) {
        return false;
      }
      if year < MinYear || (year == MinYear && quarter < MinQuarter) {
        return false;
      }
      var name := QuarterFile(year, quarter);
      if name in files {
        return true;
      }
      ok := RetrieveFile(name, network);
    }

    /** The request and the write of `download_quarter`. */
    method RetrieveFile(name: string, network: Network) returns (ok: bool)
      modifies this
      ensures (ok, files) == Retrieve(old(files), name, network)
    {
      match network(BaseUrl + "/" + name)
      case Fetched(body) =>
        files := files[name := body];
        ok := true;
      case HttpError(_) =>
        ok := false;
      case RequestError =>
        ok := false;
      case StreamError(received) =>
        files := files[name := received];
        ok := false;
    }

    /** `download_range`: the quarters of the range downloaded in order,
        each put in `successful` or `failed`; `skipped` stays empty. */
    method DownloadRange(startYear: Option<int>, startQuarter: int, endYear: Option<int>, endQuarter: int,
                         network: Network)
      returns (successful: seq<Quarter>, failed: seq<Quarter>, skipped: seq<Quarter>, ghost quarters: seq<Quarter>)
      requires 1 <= startQuarter <= 4 && 1 <= endQuarter <= 4
      modifies this
      ensures var start, end := RangeStart(startYear, startQuarter), RangeEnd(endYear, endQuarter);
              quarters == QuarterList(start, end)
      ensures Downloaded(old(files), quarters, network, successful, failed, files)
      ensures skipped == []
    {
      var range := RangeQuarters(startYear, startQuarter, endYear, endQuarter);
      ghost var start, end := RangeStart(startYear, startQuarter), RangeEnd(endYear, endQuarter);
      assert range == QuarterList(start, end);
      successful, failed := DownloadEach(range, network);
      quarters, skipped := range, [];
    }

    /** The loop of `download_range` over the generated quarters. */
    method DownloadEach(quarters: seq<Quarter>, network: Network)
      returns (successful: seq<Quarter>, failed: seq<Quarter>)
      modifies this
      ensures Downloaded(old(files), quarters, network, successful, failed, files)
    {
      successful, failed := [], [];
      ghost var initial := files;
      ghost var outcomes: seq<bool> := [];
      var i := 0;
      while i < |quarters|
        invariant 0 <= i <= |quarters|
        invariant RunQuarters(initial, quarters[..i], network) == Run(outcomes, files)
        invariant successful == Select(quarters[..i], outcomes, true)
        invariant failed == Select(quarters[..i], outcomes, false)
      {
        var (year, quarter) := quarters[i];
        var ok := DownloadQuarter(year, quarter, network);
        RunQuartersSnoc(initial, quarters, i, network);
        SelectSnoc(quarters, outcomes, i, ok, true);
        SelectSnoc(quarters, outcomes, i, ok, false);
        if ok {
          successful := successful + [(year, quarter)];
        } else {
          failed := failed + [(year, quarter)];
        }
        outcomes := outcomes + [ok];
        i := i + 1;
      }
      assert quarters[..i] == quarters;
    }
  }
}
