/** The disk-space cleanup utility: which raw, extracted and processed
    files each option selects, how deleting them is tallied, how a byte
    count is shown, and how the options combine. The file system is a map
    from path to size; directory listings come from the operating system
    and are a parameter. */
module Cleanup {
  import opened Wrappers
  import opened Text
  import opened Seqs
  import opened Globs
  import opened Quarters

  /** A file `name` inside directory `dir`. */
  datatype Path = Path(dir: string, name: string)

  /** The names a directory holds, or `None` when it does not exist. */
  type Listing = string -> Option<seq<string>>

  // ---------------------------------------------------------------------
  // Globbing

  /** `dir.glob('<prefix>*<suffix>')` over the listing `names`, in listing
      order. */
  function GlobIn(dir: string, names: seq<string>, prefix: string, suffix: string): (r: seq<Path>)
    ensures forall p :: p in r <==> p.dir == dir && p.name in names && Matches(prefix, suffix, p.name)
  {
    var f := Glob(names, prefix, suffix);
    var r := seq(|f|, i requires 0 <= i < |f| => Path(dir, f[i]));
    assert forall n :: n in f ==> Path(dir, n) in r by {
      forall n | n in f ensures Path(dir, n) in r {
        var i :| 0 <= i < |f| && f[i] == n;
        assert r[i] == Path(dir, n);
      }
    }
    assert forall p :: p in r ==> p.dir == dir && p.name in f by {
      forall p | p in r ensures p.dir == dir && p.name in f {
        var i :| 0 <= i < |r| && r[i] == p;
        assert f[i] in f;
      }
    }
    r
  }

  // ---------------------------------------------------------------------
  // get_extracted_csvs

  /** The CSV a ZIP was extracted to: `bhcf` + two-digit year + the month
      digits as they stand + `.csv`, for a name holding `bhcf` and eight
      digits in any case. The month is copied whatever it is. */
  function ExtractedCsvName(zipName: string): (r: Option<string>)
    ensures r.Some? <==> ZipStamp(zipName).Some?
    ensures r.Some? ==> |r.value| == 12 && StartsWith(r.value, "bhcf") && EndsWith(r.value, ".csv")
  {
    match ZipStamp(zipName)
    case None => None
    case Some((year, month)) => Some("bhcf" + Pad2(year % 100) + Pad2(month) + ".csv")
  }

  /** The CSV name carries the ZIP's year modulo 100 and its month, each as
      two digits that read back to it. */
  lemma ExtractedCsvNameReadsBack(zipName: string)
    requires ExtractedCsvName(zipName).Some?
    ensures var (year, month) := ZipStamp(zipName).value;
            var csv := ExtractedCsvName(zipName).value;
            && AllDigits(csv[4..6]) && DigitsValue(csv[4..6]) == year % 100
            && AllDigits(csv[6..8]) && DigitsValue(csv[6..8]) == month
  {
    var (year, month) := ZipStamp(zipName).value;
    var csv := ExtractedCsvName(zipName).value;
    assert csv == "bhcf" + Pad2(year % 100) + Pad2(month) + ".csv";
    assert csv[4..6] == Pad2(year % 100);
    assert csv[6..8] == Pad2(month);
  }

  /** For every quarter-end month the cleanup utility looks for the very CSV
      that extraction writes. */
  lemma ExtractedCsvNameAgrees(zipName: string)
    requires ZipCsvName(zipName).Some?
    ensures ExtractedCsvName(zipName) == ZipCsvName(zipName)
  {
  }

  /** Unlike extraction, the cleanup utility also maps a ZIP stamped with a
      month that ends no quarter, to a CSV that extraction never writes. */
  lemma ExtractedCsvNameAnyMonth(zipName: string)
    requires ZipStamp(zipName).Some?
    requires QuarterOfMonth(Pad2(ZipStamp(zipName).value.1)).None?
    ensures ExtractedCsvName(zipName).Some? && ZipCsvName(zipName).None?
  {
  }

  /** The ZIP files of the raw directory: `BHCF*.zip`, then `bhcf*.zip`. */
  function ZipsIn(dir: string, names: seq<string>): (r: seq<Path>)
    ensures forall p :: p in r <==> p.dir == dir && p.name in names
                                     && (Matches("BHCF", ".zip", p.name) || Matches("bhcf", ".zip", p.name))
  {
    GlobIn(dir, names, "BHCF", ".zip") + GlobIn(dir, names, "bhcf", ".zip")
  }

  /** The CSVs of `dir` extracted from `zips`, one per ZIP whose CSV
      exists, in ZIP order. */
  function ExtractedFrom(zips: seq<Path>, dir: string, files: map<Path, nat>): (r: seq<Path>)
    decreases |zips|
  {
    if zips == [] then []
    else
      var prev := ExtractedFrom(zips[..|zips| - 1], dir, files);
      match ExtractedCsvName(zips[|zips| - 1].name)
      case None => prev
      case Some(csv) => if Path(dir, csv) in files then prev + [Path(dir, csv)] else prev
  }

  /** A path is listed exactly when it exists and is the CSV of one of the
      ZIPs. */
  lemma {:induction false} ExtractedFromMembers(zips: seq<Path>, dir: string, files: map<Path, nat>, p: Path)
    ensures p in ExtractedFrom(zips, dir, files)
            <==> p in files && p.dir == dir && exists z :: z in zips && ExtractedCsvName(z.name) == Some(p.name)
    decreases |zips|
  {
    if zips != [] {
      var init, z := zips[..|zips| - 1], zips[|zips| - 1];
      ExtractedFromMembers(init, dir, files, p);
      assert zips == init + [z];
      if p in files && p.dir == dir {
        if w :| w in zips && ExtractedCsvName(w.name) == Some(p.name) {
          if w != z {
            assert w in init;
          }
        }
      }
    }
  }

  /** Every listed CSV ends with `.csv`, so extracted-only cleanup leaves
      the ZIPs. */
  lemma {:induction false} ExtractedFromAreCsvs(zips: seq<Path>, dir: string, files: map<Path, nat>, p: Path)
    ensures p in ExtractedFrom(zips, dir, files) ==> EndsWith(p.name, ".csv") && p in files && p.dir == dir
  {
    ExtractedFromMembers(zips, dir, files, p);
    if p in ExtractedFrom(zips, dir, files) {
      var z :| z in zips && ExtractedCsvName(z.name) == Some(p.name);
    }
  }

  lemma CsvIsNotZip(name: string)
    ensures EndsWith(name, ".csv") ==> !EndsWith(name, ".zip")
  {
    if EndsWith(name, ".csv") {
      assert name[|name| - 4..][1] == 'c';
    }
  }

  // ---------------------------------------------------------------------
  // get_all_raw_files and get_processed_files

  /** `bhcf*.csv`, `BHCF*.csv`, `bhcf*.zip` and `BHCF*.zip`, in that order. */
  function RawFilesIn(dir: string, names: seq<string>): (r: seq<Path>)
    ensures forall p :: p in r <==>
              p.dir == dir && p.name in names
              && (Matches("bhcf", ".csv", p.name) || Matches("BHCF", ".csv", p.name)
                  || Matches("bhcf", ".zip", p.name) || Matches("BHCF", ".zip", p.name))
  {
    GlobIn(dir, names, "bhcf", ".csv") + GlobIn(dir, names, "BHCF", ".csv")
    + GlobIn(dir, names, "bhcf", ".zip") + GlobIn(dir, names, "BHCF", ".zip")
  }

  const ProcessedSubdirs: seq<string> := ["y_9c", "y_9lp", "y_9sp"]

  function SubdirOf(dir: string, sub: string): string {
    dir + "/" + sub
  }

  /** `*.parquet` of one subdirectory; nothing when it does not exist. */
  function ParquetIn(dir: string, listing: Listing): (r: seq<Path>)
    ensures forall p :: p in r <==> (p.dir == dir && listing(dir).Some? && p.name in listing(dir).value
                                    && Matches("", ".parquet", p.name))
  {
    match listing(dir)
    case None => []
    case Some(names) => GlobIn(dir, names, "", ".parquet")
  }

  /** The parquet files of `y_9c`, `y_9lp` and `y_9sp`, in that order. */
  function ProcessedFilesIn(dir: string, listing: Listing): (r: seq<Path>)
    ensures forall p :: p in r ==> EndsWith(p.name, ".parquet")
                                   && exists sub :: sub in ProcessedSubdirs && p.dir == SubdirOf(dir, sub)
  {
    var a := ParquetIn(SubdirOf(dir, "y_9c"), listing);
    var b := ParquetIn(SubdirOf(dir, "y_9lp"), listing);
    var c := ParquetIn(SubdirOf(dir, "y_9sp"), listing);
    assert forall p :: p in a ==> p.dir == SubdirOf(dir, ProcessedSubdirs[0]);
    assert forall p :: p in b ==> p.dir == SubdirOf(dir, ProcessedSubdirs[1]);
    assert forall p :: p in c ==> p.dir == SubdirOf(dir, ProcessedSubdirs[2]);
    a + b + c
  }

  /** Every `.parquet` listed in an existing `y_9c`, `y_9lp` or `y_9sp`
      subdirectory is found. */
  lemma ProcessedFilesComplete(dir: string, listing: Listing, sub: string, name: string)
    requires sub in ProcessedSubdirs && listing(SubdirOf(dir, sub)).Some?
    requires name in listing(SubdirOf(dir, sub)).value && Matches("", ".parquet", name)
    ensures Path(SubdirOf(dir, sub), name) in ProcessedFilesIn(dir, listing)
  {
    var a := ParquetIn(SubdirOf(dir, "y_9c"), listing);
    var b := ParquetIn(SubdirOf(dir, "y_9lp"), listing);
    var c := ParquetIn(SubdirOf(dir, "y_9sp"), listing);
    var p := Path(SubdirOf(dir, sub), name);
    assert ProcessedFilesIn(dir, listing) == a + b + c;
    if sub == "y_9c" {
      assert p in a;
    } else if sub == "y_9lp" {
      assert p in b;
    } else {
      assert p in c;
    }
  }

  // ---------------------------------------------------------------------
  // delete_files

  /** What a deletion pass has counted so far and the file system it left. */
  datatype Tally = Tally(count: nat, bytes: nat, files: map<Path, nat>)

  /** Visiting `paths` in order: each path that exists when it is reached
      is counted with its size and, unless `dryRun`, removed. */
  function DeleteRun(paths: seq<Path>, files: map<Path, nat>, dryRun: bool): (t: Tally)
    ensures t.count <= |paths|
    decreases |paths|
  {
    if paths == [] then Tally(0, 0, files)
    else
      var t := DeleteRun(paths[..|paths| - 1], files, dryRun);
      var p := paths[|paths| - 1];
      if p in t.files then
        Tally(t.count + 1, t.bytes + t.files[p], if dryRun then t.files else t.files - {p})
      else t
  }

  /** `files` without the paths in `paths`. */
  function RemoveAll(files: map<Path, nat>, paths: seq<Path>): (r: map<Path, nat>)
    ensures forall p :: p in r <==> p in files && p !in paths
  {
    map p | p in files && p !in paths :: files[p]
  }

  /** A dry run changes nothing. */
  lemma {:induction false} DryRunKeepsFiles(paths: seq<Path>, files: map<Path, nat>)
    ensures DeleteRun(paths, files, true).files == files
    decreases |paths|
  {
    if paths != [] {
      DryRunKeepsFiles(paths[..|paths| - 1], files);
    }
  }

  /** A real run removes exactly the listed paths and leaves every other
      file and its size alone. */
  lemma {:induction false} DeleteRemovesListed(paths: seq<Path>, files: map<Path, nat>)
    ensures DeleteRun(paths, files, false).files == RemoveAll(files, paths)
    decreases |paths|
  {
    if paths != [] {
      var init := paths[..|paths| - 1];
      DeleteRemovesListed(init, files);
      assert paths == init + [paths[|paths| - 1]];
    }
  }

  function ExistsIn(files: map<Path, nat>): Path -> bool {
    p => p in files
  }

  /** The sizes of `paths`, all of which exist. */
  function SizeSum(paths: seq<Path>, files: map<Path, nat>): nat
    requires forall p :: p in paths ==> p in files
    decreases |paths|
  {
    if paths == [] then 0
    else SizeSum(paths[..|paths| - 1], files) + files[paths[|paths| - 1]]
  }

  /** A dry run reports the paths that exist and their total size. */
  lemma {:induction false} DryRunReports(paths: seq<Path>, files: map<Path, nat>)
    ensures var t := DeleteRun(paths, files, true);
            var existing := Filter(paths, ExistsIn(files));
            t.count == |existing| && t.bytes == SizeSum(existing, files)
    decreases |paths|
  {
    if paths != [] {
      var init, p := paths[..|paths| - 1], paths[|paths| - 1];
      DryRunReports(init, files);
      DryRunKeepsFiles(init, files);
      assert paths == init + [p];
      FilterAppend(init, [p], ExistsIn(files));
      var e := Filter(init, ExistsIn(files));
      if p in files {
        assert Filter([p], ExistsIn(files)) == [p];
        assert (e + [p])[..|e|] == e;
      } else {
        assert Filter([p], ExistsIn(files)) == [];
        assert e + [] == e;
      }
    }
  }

  predicate Distinct(paths: seq<Path>) {
    forall i, j :: 0 <= i < j < |paths| ==> paths[i] != paths[j]
  }

  /** On a list without repeats the dry run reports exactly what the real
      run deletes and frees. */
  lemma {:induction false} DryRunPredictsDelete(paths: seq<Path>, files: map<Path, nat>)
    requires Distinct(paths)
    ensures DeleteRun(paths, files, true).count == DeleteRun(paths, files, false).count
    ensures DeleteRun(paths, files, true).bytes == DeleteRun(paths, files, false).bytes
    decreases |paths|
  {
    if paths != [] {
      var init, p := paths[..|paths| - 1], paths[|paths| - 1];
      DryRunPredictsDelete(init, files);
      DryRunKeepsFiles(init, files);
      DeleteRemovesListed(init, files);
      assert p !in init by {
        forall i | 0 <= i < |init| ensures init[i] != p {
          assert paths[i] == init[i];
        }
      }
    }
  }

  /** With a path listed twice the dry run counts it twice, while the real
      run finds it gone the second time. */
  lemma RepeatedPathOverReported(p: Path, size: nat, files: map<Path, nat>)
    requires files == map[p := size]
    ensures DeleteRun([p, p], files, true) == Tally(2, 2 * size, files)
    ensures DeleteRun([p, p], files, false) == Tally(1, size, map[])
  {
    assert [p, p][..1] == [p];
    assert [p][..0] == [];
    assert DeleteRun([p], files, true) == Tally(1, size, files);
    assert DeleteRun([p], files, false) == Tally(1, size, files - {p});
    assert files - {p} == map[];
  }

  // ---------------------------------------------------------------------
  // format_size

  const KiB: nat := 1024
  const MiB: nat := 1024 * 1024
  const GiB: nat := 1024 * 1024 * 1024

  datatype Unit = GB | MB | KB | Bytes

  function Divisor(u: Unit): (d: nat)
    ensures d >= 1
  {
    match u
    case GB => GiB
    case MB => MiB
    case KB => KiB
    case Bytes => 1
  }

  function UnitName(u: Unit): string {
    match u
    case GB => "GB"
    case MB => "MB"
    case KB => "KB"
    case Bytes => "bytes"
  }

  /** The largest unit the size reaches: at least one of it, and (below a
      gigabyte) less than 1024 of it. */
  function UnitOf(n: nat): (u: Unit)
    ensures u != Bytes ==> Divisor(u) <= n
    ensures u != GB ==> n < 1024 * Divisor(u)
  {
    if n >= GiB then GB
    else if n >= MiB then MB
    else if n >= KiB then KB
    else Bytes
  }

  /** `round(num / den)` with ties to even, the rounding `.2f` applies to
      the exact quotient of a size by a power of two. */
  function RoundHalfEven(num: nat, den: nat): (h: nat)
    requires den > 0
    ensures 2 * h * den <= 2 * num + den && 2 * num <= 2 * h * den + den
    ensures 2 * (num % den) == den ==> h % 2 == 0
  {
    var q, r := num / den, num % den;
    if 2 * r < den then q
    else if 2 * r > den then q + 1
    else if q % 2 == 0 then q
    else q + 1
  }

  /** The size in `u` to two decimals, counted in hundredths. */
  function Hundredths(n: nat, u: Unit): nat {
    RoundHalfEven(100 * n, Divisor(u))
  }

  /** `format_size`: an exact byte count below 1 KB, otherwise the size in
      the largest unit it reaches, to two decimals. */
  function FormatSize(n: nat): string {
    var u := UnitOf(n);
    if u == Bytes then NatToString(n) + " bytes"
    else
      var h := Hundredths(n, u);
      NatToString(h / 100) + "." + Pad2(h % 100) + " " + UnitName(u)
  }

  /** `w.f unit`, read back digit by digit, is within half a hundredth of
      the size `n` in that unit. */
  predicate ShowsWithin(n: nat, w: string, f: string)
    requires UnitOf(n) != Bytes
  {
    && AllDigits(w) && |f| == 2 && AllDigits(f)
    && FormatSize(n) == w + "." + f + " " + UnitName(UnitOf(n))
    && var shown, d := 100 * DigitsValue(w) + DigitsValue(f), Divisor(UnitOf(n));
       2 * shown * d <= 200 * n + d && 200 * n <= 2 * shown * d + d
  }

  /** The shown figure reads back, digit by digit, as the size in its unit
      to within half a hundredth; below 1 KB it is the byte count itself. */
  lemma FormatSizeReadsBack(n: nat)
    ensures UnitOf(n) == Bytes ==>
              exists w :: AllDigits(w) && FormatSize(n) == w + " bytes" && DigitsValue(w) == n
    ensures UnitOf(n) != Bytes ==> exists w, f :: ShowsWithin(n, w, f)
  {
    if UnitOf(n) == Bytes {
      var w := NatToString(n);
      assert FormatSize(n) == w + " bytes";
    } else {
      var h := Hundredths(n, UnitOf(n));
      var w, f := NatToString(h / 100), Pad2(h % 100);
      FormatUnitReadsBack(n, h);
      assert ShowsWithin(n, w, f);
    }
  }

  lemma FormatUnitReadsBack(n: nat, h: nat)
    requires UnitOf(n) != Bytes && h == Hundredths(n, UnitOf(n))
    ensures ShowsWithin(n, NatToString(h / 100), Pad2(h % 100))
  {
    var u := UnitOf(n);
    var d := Divisor(u);
    var w, f := NatToString(h / 100), Pad2(h % 100);
    assert FormatSize(n) == w + "." + f + " " + UnitName(u);
    HundredthsShown(h);
    assert 2 * h * d <= 2 * (100 * n) + d && 2 * (100 * n) <= 2 * h * d + d;
  }

  /** A count of hundredths printed as whole part and two decimals reads
      back as that count. */
  lemma HundredthsShown(h: nat)
    ensures 100 * DigitsValue(NatToString(h / 100)) + DigitsValue(Pad2(h % 100)) == h
  {
  }

  /** One byte short of a gigabyte is shown as 1024.00 MB. */
  lemma FormatSizeJustBelowGB(n: nat)
    requires n == GiB - 1
    ensures UnitOf(n) == MB && Hundredths(n, MB) == 1024 * 100
  {
    assert 100 * n == 102399 * MiB + (MiB - 100);
  }

  // ---------------------------------------------------------------------
  // main

  /** The command-line switches. */
  datatype Options = Options(extracted: bool, raw: bool, processed: bool, dryRun: bool)

  datatype Category = ExtractedCsvs | RawFiles | ProcessedParquet

  /** The files a category selects, looked up when its turn comes. */
  function Batch(c: Category, rawDir: string, processedDir: string, listing: Listing,
                 files: map<Path, nat>): seq<Path>
  {
    match c
    case ExtractedCsvs =>
      (match listing(rawDir)
       case None => []
       case Some(names) => ExtractedFrom(ZipsIn(rawDir, names), rawDir, files))
    case RawFiles =>
      (match listing(rawDir)
       case None => []
       case Some(names) => RawFilesIn(rawDir, names))
    case ProcessedParquet =>
      if listing(processedDir).None? then [] else ProcessedFilesIn(processedDir, listing)
  }

  /** Runs one category when `enabled`, adding its counts to `t`. */
  function Step(c: Category, enabled: bool, o: Options, rawDir: string, processedDir: string,
                listing: Listing, t: Tally): Tally
  {
    if !enabled then t
    else
      var d := DeleteRun(Batch(c, rawDir, processedDir, listing, t.files), t.files, o.dryRun);
      Tally(t.count + d.count, t.bytes + d.bytes, d.files)
  }

  /** The categories in order: extracted CSVs only when raw files are not
      selected, then raw files, then processed files. */
  function Outcome(o: Options, rawDir: string, processedDir: string, listing: Listing,
                   files: map<Path, nat>): Tally
  {
    var t0 := Tally(0, 0, files);
    var t1 := Step(ExtractedCsvs, o.extracted && !o.raw, o, rawDir, processedDir, listing, t0);
    var t2 := Step(RawFiles, o.raw, o, rawDir, processedDir, listing, t1);
    Step(ProcessedParquet, o.processed, o, rawDir, processedDir, listing, t2)
  }

  /** `--raw` supersedes `--extracted`. */
  lemma RawSupersedesExtracted(o: Options, rawDir: string, processedDir: string, listing: Listing,
                               files: map<Path, nat>)
    requires o.raw
    ensures Outcome(o, rawDir, processedDir, listing, files)
            == Outcome(o.(extracted := false), rawDir, processedDir, listing, files)
  {
  }

  /** `--dry-run` leaves every file in place. */
  lemma DryRunChangesNothing(o: Options, rawDir: string, processedDir: string, listing: Listing,
                             files: map<Path, nat>)
    requires o.dryRun
    ensures Outcome(o, rawDir, processedDir, listing, files).files == files
  {
    var t0 := Tally(0, 0, files);
    var t1 := Step(ExtractedCsvs, o.extracted && !o.raw, o, rawDir, processedDir, listing, t0);
    var t2 := Step(RawFiles, o.raw, o, rawDir, processedDir, listing, t1);
    DryRunKeepsFiles(Batch(ExtractedCsvs, rawDir, processedDir, listing, t0.files), t0.files);
    DryRunKeepsFiles(Batch(RawFiles, rawDir, processedDir, listing, t1.files), t1.files);
    DryRunKeepsFiles(Batch(ProcessedParquet, rawDir, processedDir, listing, t2.files), t2.files);
  }

  /** `--extracted` alone removes only extracted CSVs: every ZIP and every
      file elsewhere stays. */
  lemma ExtractedKeepsZips(o: Options, rawDir: string, processedDir: string, listing: Listing,
                           files: map<Path, nat>, p: Path)
    requires o.extracted && !o.raw && !o.processed && !o.dryRun
    requires p in files && (EndsWith(p.name, ".zip") || p.dir != rawDir)
    ensures p in Outcome(o, rawDir, processedDir, listing, files).files
  {
    var b := Batch(ExtractedCsvs, rawDir, processedDir, listing, files);
    DeleteRemovesListed(b, files);
    if listing(rawDir).Some? {
      ExtractedFromAreCsvs(ZipsIn(rawDir, listing(rawDir).value), rawDir, files, p);
      CsvIsNotZip(p.name);
    }
    assert p !in b;
  }

  /** The file system the utility works on. */
  class FileSystem {
    var files: map<Path, nat>

    constructor(files: map<Path, nat>)
      ensures this.files == files
    {
      this.files := files;
    }

    /** `get_extracted_csvs`: walks the ZIPs of the raw directory and keeps
        each one's CSV that exists. */
    method GetExtractedCsvs(rawDir: string, names: seq<string>) returns (extracted: seq<Path>)
      ensures extracted == ExtractedFrom(ZipsIn(rawDir, names), rawDir, files)
    {
      var zips := ZipsIn(rawDir, names);
      extracted := [];
      var i := 0;
      while i < |zips|
        invariant i <= |zips|
        invariant extracted == ExtractedFrom(zips[..i], rawDir, files)
      {
        assert zips[..i + 1][..i] == zips[..i];
        match ExtractedCsvName(zips[i].name) {
          case None =>
          case Some(csv) =>
            if Path(rawDir, csv) in files {
              extracted := extracted + [Path(rawDir, csv)];
            }
        }
        i := i + 1;
      }
      assert zips[..i] == zips;
    }

    /** `delete_files`: counts and sizes each listed path that exists when
        reached and, unless `dryRun`, removes it. */
    method DeleteFiles(paths: seq<Path>, dryRun: bool) returns (count: nat, total: nat)
      modifies this
      ensures Tally(count, total, files) == DeleteRun(paths, old(files), dryRun)
    {
      count, total := 0, 0;
      var i := 0;
      while i < |paths|
        invariant i <= |paths|
        invariant Tally(count, total, files) == DeleteRun(paths[..i], old(files), dryRun)
      {
        assert paths[..i + 1][..i] == paths[..i];
        var p := paths[i];
        if p in files {
          total := total + files[p];
          if !dryRun {
            files := files - {p};
          }
          count := count + 1;
        }
        i := i + 1;
      }
      assert paths[..i] == paths;
    }

    /** One category of `main`: the files it selects, deleted unless
        `dryRun`, when its directory exists and the list is not empty. */
    method CleanCategory(c: Category, o: Options, rawDir: string, processedDir: string, listing: Listing)
      returns (count: nat, size: nat)
      modifies this
      ensures Tally(count, size, files) == DeleteRun(Batch(c, rawDir, processedDir, listing, old(files)), old(files), o.dryRun)
    {
      var batch: seq<Path> := [];
      match c {
        case ExtractedCsvs =>
          if listing(rawDir).Some? {
            batch := GetExtractedCsvs(rawDir, listing(rawDir).value);
          }
        case RawFiles =>
          if listing(rawDir).Some? {
            batch := RawFilesIn(rawDir, listing(rawDir).value);
          }
        case ProcessedParquet =>
          if listing(processedDir).Some? {
            batch := ProcessedFilesIn(processedDir, listing);
          }
      }
      count, size := 0, 0;
      if batch != [] {
        count, size := DeleteFiles(batch, o.dryRun);
      }
    }

    /** One category of `main` when `enabled`, its counts added to the
        running totals. */
    method CleanStep(c: Category, enabled: bool, o: Options, rawDir: string, processedDir: string,
                     listing: Listing, deleted: nat, freed: nat)
      returns (deleted': nat, freed': nat)
      modifies this
      ensures Tally(deleted', freed', files)
              == Step(c, enabled, o, rawDir, processedDir, listing, Tally(deleted, freed, old(files)))
    {
      deleted', freed' := deleted, freed;
      if enabled {
        var count, size := CleanCategory(c, o, rawDir, processedDir, listing);
        deleted', freed' := deleted + count, freed + size;
      }
    }

    /** The utility's `main`: exit code 1 and nothing touched without a
        category; otherwise the selected categories in order, with the
        totals of files deleted (or that would be) and bytes freed. */
    method Clean(o: Options, rawDir: string, processedDir: string, listing: Listing)
      returns (code: int, deleted: nat, freed: nat)
      modifies this
      ensures code == 1 <==> !(o.extracted || o.raw || o.processed)
      ensures code == 1 ==> files == old(files) && deleted == 0 && freed == 0
      ensures code == 0 ==> Tally(deleted, freed, files) == Outcome(o, rawDir, processedDir, listing, old(files))
    {
      if !(o.extracted || o.raw || o.processed) {
        return 1, 0, 0;
      }
      code := 0;
      deleted, freed := CleanStep(ExtractedCsvs, o.extracted && !o.raw, o, rawDir, processedDir, listing, 0, 0);
      deleted, freed := CleanStep(RawFiles, o.raw, o, rawDir, processedDir, listing, deleted, freed);
      deleted, freed := CleanStep(ProcessedParquet, o.processed, o, rawDir, processedDir, listing, deleted, freed);
    }
  }
}
