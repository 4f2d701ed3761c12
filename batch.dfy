/** The driver of 04_parse_data.py: ZIP extraction into the raw-data
    directory, the per-file wrapper that writes one table per filer type,
    and the sequential run of `main`. */
module Batch {
  import opened Wrappers
  import opened Text
  import opened Seqs
  import opened Globs
  import opened Quarters
  import opened Records
  import opened Metadata

  datatype Member = Member(name: string, content: string)

  /** A file of the raw-data directory: text, a ZIP archive, or bytes that
      are neither. */
  datatype RawFile = TextFile(content: string) | ZipArchive(members: seq<Member>) | Damaged

  /** The raw-data directory: its listing order and its files. */
  class RawDirectory {
    var names: seq<string>
    var files: map<string, RawFile>

    ghost predicate Valid()
      reads this
    {
      && (forall n :: n in files <==> n in names)
      && (forall i, j :: 0 <= i < j < |names| ==> names[i] != names[j])
    }

    constructor(names: seq<string>, files: map<string, RawFile>)
      ensures this.names == names && this.files == files
    {
      this.names := names;
      this.files := files;
    }
  }

  // ---------------------------------------------------------------- extraction

  function MemberNames(members: seq<Member>): (r: seq<string>)
    ensures |r| == |members| && forall k :: 0 <= k < |members| ==> r[k] == members[k].name
  {
    seq(|members|, k requires 0 <= k < |members| => members[k].name)
  }

  /** Some member of the archive is a report. */
  predicate HoldsReport(members: seq<Member>) {
    exists k :: 0 <= k < |members| && IsReportMember(members[k].name)
  }

  /** Member `k` is the first report of the archive. */
  predicate FirstReportAt(members: seq<Member>, k: nat) {
    k < |members| && IsReportMember(members[k].name) && forall j :: 0 <= j < k ==> !IsReportMember(members[j].name)
  }

  /** The bytes of the first `BHCF*.TXT` member of an archive, if any. */
  function ReportOf(f: RawFile): (r: Option<string>)
    ensures r.Some? <==> f.ZipArchive? && HoldsReport(f.members)
    ensures r.Some? ==> exists k: nat :: FirstReportAt(f.members, k) && r.value == f.members[k].content
  {
    match f
    case ZipArchive(members) =>
      (match FirstReportMember(MemberNames(members))
       case Some(k) => Some(members[k].content)
       case None => None)
    case _ => None
  }

  datatype Extraction = Extraction(names: seq<string>, files: map<string, RawFile>, extracted: seq<string>)

  /** One iteration of `extract_zip_files`: an archive whose name carries no
      valid stamp, whose CSV already exists, that is not a ZIP or holds no
      report is skipped; otherwise its report is written under the CSV
      name. */
  function ExtractOne(st: Extraction, zip: string): (r: Extraction)
    ensures r != st <==> && ZipCsvName(zip).Some? && ZipCsvName(zip).value !in st.files
                         && zip in st.files && ReportOf(st.files[zip]).Some?
    ensures r != st ==> var csv := ZipCsvName(zip).value;
                        && r.names == st.names + [csv] && r.extracted == st.extracted + [csv]
                        && r.files == st.files[csv := TextFile(ReportOf(st.files[zip]).value)]
  {
    match ZipCsvName(zip)
    case None => st
    case Some(csv) =>
      if csv in st.files || zip !in st.files then st
      else
        match ReportOf(st.files[zip])
        case None => st
        case Some(text) => Extraction(st.names + [csv], st.files[csv := TextFile(text)], st.extracted + [csv])
  }

  /** The CSV `csv` holds the report of one of the archives `zips`. */
  predicate ExtractedFrom(zips: seq<string>, files: map<string, RawFile>, csv: string, f: RawFile) {
    exists z :: z in zips && z in files && ZipCsvName(z) == Some(csv) && ReportOf(files[z]).Some? && f == TextFile(ReportOf(files[z]).value)
  }

  /** What holds after processing the archives `zips`: nothing that existed
      is changed or removed, every new file is a fresh CSV holding the
      report of an archive whose stamp names it, each at most once, and the
      listing grows by the new names. */
  ghost predicate ExtractionFrom(names: seq<string>, files: map<string, RawFile>, zips: seq<string>, r: Extraction) {
    && r.names == names + r.extracted
    && (forall n :: n in files ==> n in r.files && r.files[n] == files[n])
    && (forall n :: n in r.files <==> n in files || n in r.extracted)
    && (forall k :: 0 <= k < |r.extracted| ==> r.extracted[k] !in files)
    && (forall a, b :: 0 <= a < b < |r.extracted| ==> r.extracted[a] != r.extracted[b])
    && (forall k :: 0 <= k < |r.extracted| ==> r.extracted[k] in r.files && ExtractedFrom(zips, files, r.extracted[k], r.files[r.extracted[k]]))
  }

  /** The archives processed in order. */
  function ExtractAll(names: seq<string>, files: map<string, RawFile>, zips: seq<string>): (r: Extraction)
    ensures ExtractionFrom(names, files, zips, r)
    decreases |zips|
  {
    if zips == [] then Extraction(names, files, [])
    else
      var init := zips[..|zips| - 1];
      var zip := zips[|zips| - 1];
      var prev := ExtractAll(names, files, init);
      var r := ExtractOne(prev, zip);
      if r == prev then
        StepSkips(names, files, zips, prev);
        r
      else
        var csv := ZipCsvName(zip).value;
        StepExtracts(names, files, zips, prev, csv, ReportOf(prev.files[zip]).value);
        r
  }

  lemma StepSkips(names: seq<string>, files: map<string, RawFile>, zips: seq<string>, prev: Extraction)
    requires zips != [] && ExtractionFrom(names, files, zips[..|zips| - 1], prev)
    ensures ExtractionFrom(names, files, zips, prev)
  {
    forall k | 0 <= k < |prev.extracted|
      ensures ExtractedFrom(zips, files, prev.extracted[k], prev.files[prev.extracted[k]])
    {
      ExtractedFromMore(zips[..|zips| - 1], zips, files, prev.extracted[k], prev.files[prev.extracted[k]]);
    }
  }

  lemma StepExtracts(names: seq<string>, files: map<string, RawFile>, zips: seq<string>, prev: Extraction, csv: string, text: string)
    requires zips != [] && ExtractionFrom(names, files, zips[..|zips| - 1], prev)
    requires var zip := zips[|zips| - 1];
             ZipCsvName(zip) == Some(csv) && csv !in prev.files && zip in prev.files && ReportOf(prev.files[zip]) == Some(text)
    ensures ExtractionFrom(names, files, zips, Extraction(prev.names + [csv], prev.files[csv := TextFile(text)], prev.extracted + [csv]))
  {
    var zip := zips[|zips| - 1];
    var init := zips[..|zips| - 1];
    var r := Extraction(prev.names + [csv], prev.files[csv := TextFile(text)], prev.extracted + [csv]);
    assert zip in files && prev.files[zip] == files[zip];
    assert ExtractedFrom(zips, files, csv, TextFile(text)) by {
      assert zip in zips;
    }
    assert csv !in files && csv !in prev.extracted;
    assert r.names == names + r.extracted;
    forall n ensures n in r.files <==> n in files || n in r.extracted {
      assert n in r.extracted <==> n in prev.extracted || n == csv;
    }
    AppendFresh(files, prev.extracted, prev.files, csv, TextFile(text));
    AppendFrom(files, zips, prev.extracted, prev.files, csv, TextFile(text));
    ExtractionFromIntro(names, files, zips, r);
  }

  lemma ExtractionFromIntro(names: seq<string>, files: map<string, RawFile>, zips: seq<string>, r: Extraction)
    requires r.names == names + r.extracted
    requires forall n :: n in files ==> n in r.files && r.files[n] == files[n]
    requires forall n :: n in r.files <==> n in files || n in r.extracted
    requires forall k :: 0 <= k < |r.extracted| ==> r.extracted[k] !in files
    requires forall a, b :: 0 <= a < b < |r.extracted| ==> r.extracted[a] != r.extracted[b]
    requires forall k :: 0 <= k < |r.extracted| ==> r.extracted[k] in r.files && ExtractedFrom(zips, files, r.extracted[k], r.files[r.extracted[k]])
    ensures ExtractionFrom(names, files, zips, r)
  {
  }

  /** Appending a fresh CSV keeps the old files, keeps the new names out of
      the old files and keeps them distinct. */
  lemma AppendFresh(files: map<string, RawFile>, extracted: seq<string>, m: map<string, RawFile>, csv: string, f: RawFile)
    requires csv !in files && csv !in m
    requires forall n :: n in files ==> n in m && m[n] == files[n]
    requires forall k :: 0 <= k < |extracted| ==> extracted[k] !in files && extracted[k] in m
    requires forall a, b :: 0 <= a < b < |extracted| ==> extracted[a] != extracted[b]
    ensures var e := extracted + [csv];
            var m' := m[csv := f];
            && (forall n :: n in files ==> n in m' && m'[n] == files[n])
            && (forall k :: 0 <= k < |e| ==> e[k] !in files && e[k] in m')
            && (forall a, b :: 0 <= a < b < |e| ==> e[a] != e[b])
  {
  }

  /** Appending the CSV of the last archive: every new file still holds the
      report of one of the archives. */
  lemma AppendFrom(files: map<string, RawFile>, zips: seq<string>, extracted: seq<string>, m: map<string, RawFile>, csv: string, f: RawFile)
    requires csv !in m && |zips| > 0
    requires forall k :: 0 <= k < |extracted| ==> extracted[k] in m && ExtractedFrom(zips[..|zips| - 1], files, extracted[k], m[extracted[k]])
    requires ExtractedFrom(zips, files, csv, f)
    ensures var e := extracted + [csv];
            var m' := m[csv := f];
            forall k :: 0 <= k < |e| ==> e[k] in m' && ExtractedFrom(zips, files, e[k], m'[e[k]])
  {
    var e := extracted + [csv];
    var m' := m[csv := f];
    forall k | 0 <= k < |e| ensures e[k] in m' && ExtractedFrom(zips, files, e[k], m'[e[k]]) {
      if k < |extracted| {
        assert e[k] == extracted[k] && m'[e[k]] == m[e[k]];
        ExtractedFromMore(zips[..|zips| - 1], zips, files, e[k], m[e[k]]);
      }
    }
  }

  lemma ExtractedFromMore(init: seq<string>, zips: seq<string>, files: map<string, RawFile>, csv: string, f: RawFile)
    requires ExtractedFrom(init, files, csv, f)
    requires |init| < |zips| && init == zips[..|init|]
    ensures ExtractedFrom(zips, files, csv, f)
  {
    var z :| z in init && z in files && ZipCsvName(z) == Some(csv) && ReportOf(files[z]).Some? && f == TextFile(ReportOf(files[z]).value);
    assert z in zips;
  }

  /** Archive `z` of `files` is stamped for `csv` and holds a report. */
  predicate Yields(files: map<string, RawFile>, z: string, csv: string) {
    z in files && ZipCsvName(z) == Some(csv) && ReportOf(files[z]).Some?
  }

  /** Extraction misses nothing: the first archive that yields a CSV not
      already present has its report written under that name. */
  lemma {:induction false} ExtractAllComplete(names: seq<string>, files: map<string, RawFile>, zips: seq<string>, j: nat, csv: string)
    requires j < |zips| && Yields(files, zips[j], csv) && csv !in files
    requires forall i :: 0 <= i < j ==> !Yields(files, zips[i], csv)
    ensures var r := ExtractAll(names, files, zips);
            csv in r.extracted && r.files[csv] == TextFile(ReportOf(files[zips[j]]).value)
    decreases |zips|
  {
    var init, zip := zips[..|zips| - 1], zips[|zips| - 1];
    var prev := ExtractAll(names, files, init);
    assert ExtractAll(names, files, zips) == ExtractOne(prev, zip);
    if j < |zips| - 1 {
      ExtractAllComplete(names, files, init, j, csv);
      ExtractOneKeeps(prev, zip, csv);
    } else {
      ExtractLast(names, files, zips, csv);
    }
  }

  /** A later archive never replaces a CSV already extracted. */
  lemma ExtractOneKeeps(st: Extraction, zip: string, csv: string)
    requires csv in st.extracted && csv in st.files
    ensures var r := ExtractOne(st, zip);
            csv in r.extracted && csv in r.files && r.files[csv] == st.files[csv]
  {
  }

  /** The last archive yields its CSV when no earlier one did. */
  lemma ExtractLast(names: seq<string>, files: map<string, RawFile>, zips: seq<string>, csv: string)
    requires zips != [] && Yields(files, zips[|zips| - 1], csv) && csv !in files
    requires forall i :: 0 <= i < |zips| - 1 ==> !Yields(files, zips[i], csv)
    ensures var r := ExtractOne(ExtractAll(names, files, zips[..|zips| - 1]), zips[|zips| - 1]);
            csv in r.extracted && r.files[csv] == TextFile(ReportOf(files[zips[|zips| - 1]]).value)
  {
    var init, zip := zips[..|zips| - 1], zips[|zips| - 1];
    var prev := ExtractAll(names, files, init);
    if csv in prev.extracted {
      assert false;
    }
    assert csv !in prev.files;
    assert zip in prev.files && prev.files[zip] == files[zip];
  }

  /** `glob('BHCF*.zip') + glob('bhcf*.zip')`. */
  function ZipCandidates(names: seq<string>): seq<string> {
    Glob(names, "BHCF", ".zip") + Glob(names, "bhcf", ".zip")
  }

  /** One pass of the loop of `extract_zip_files`. */
  method ExtractArchive(dir: RawDirectory, zip: string, extracted: seq<string>) returns (extracted': seq<string>)
    modifies dir
    ensures Extraction(dir.names, dir.files, extracted') == ExtractOne(Extraction(old(dir.names), old(dir.files), extracted), zip)
  {
    extracted' := extracted;
    var csvName := ZipCsvName(zip);
    if csvName.None? || csvName.value in dir.files || zip !in dir.files {
      return;
    }
    var csv := csvName.value;
    match dir.files[zip]
    case ZipArchive(members) =>
      var k := FindReportMember(MemberNames(members));
      if k.Some? {
        dir.names := dir.names + [csv];
        dir.files := dir.files[csv := TextFile(members[k.value].content)];
        extracted' := extracted + [csv];
      }
    case _ =>
  }

  lemma ExtractAllSnoc(names: seq<string>, files: map<string, RawFile>, zips: seq<string>, i: nat)
    requires i < |zips|
    ensures ExtractAll(names, files, zips[..i + 1]) == ExtractOne(ExtractAll(names, files, zips[..i]), zips[i])
  {
    assert zips[..i + 1][..i] == zips[..i];
  }

  /** `extract_zip_files`: the directory ends as `ExtractAll` says and the
      new CSV names come back in extraction order. */
  method ExtractZipFiles(dir: RawDirectory) returns (extracted: seq<string>)
    requires dir.Valid()
    modifies dir
    ensures dir.Valid()
    ensures var r := ExtractAll(old(dir.names), old(dir.files), ZipCandidates(old(dir.names)));
            dir.names == r.names && dir.files == r.files && extracted == r.extracted
  {
    var names0, files0 := dir.names, dir.files;
    var zips := ZipCandidates(dir.names);
    extracted := [];
    var i := 0;
    assert zips[..0] == [];
    while i < |zips|
      invariant 0 <= i <= |zips|
      invariant Extraction(dir.names, dir.files, extracted) == ExtractAll(names0, files0, zips[..i])
    {
      ExtractAllSnoc(names0, files0, zips, i);
      extracted := ExtractArchive(dir, zips[i], extracted);
      i := i + 1;
    }
    assert zips[..i] == zips;
    ValidAfterExtraction(names0, files0, zips);
  }

  lemma ValidAfterExtraction(names: seq<string>, files: map<string, RawFile>, zips: seq<string>)
    requires (forall n :: n in files <==> n in names) && (forall i, j :: 0 <= i < j < |names| ==> names[i] != names[j])
    ensures var r := ExtractAll(names, files, zips);
            && (forall n :: n in r.files <==> n in r.names)
            && (forall i, j :: 0 <= i < j < |r.names| ==> r.names[i] != r.names[j])
  {
    var r := ExtractAll(names, files, zips);
    forall i, j | 0 <= i < j < |r.names| ensures r.names[i] != r.names[j] {
      if j >= |names| {
        assert r.names[j] == r.extracted[j - |names|];
        if i >= |names| {
          assert r.names[i] == r.extracted[i - |names|];
        }
      }
    }
  }

  /** The CSV a well-stamped archive is extracted to reads back as the
      archive's quarter. */
  lemma ExtractedQuarter(names: seq<string>, files: map<string, RawFile>, zips: seq<string>, k: nat)
    requires k < |ExtractAll(names, files, zips).extracted|
    ensures var r := ExtractAll(names, files, zips);
            exists z :: z in zips && ZipCsvName(z) == Some(r.extracted[k]) && ZipStamp(z).Some?
              && ExtractQuarter(r.extracted[k]).Some?
              && 3 * ExtractQuarter(r.extracted[k]).value.quarter == ZipStamp(z).value.1
              && ExtractQuarter(r.extracted[k]).value.year % 100 == ZipStamp(z).value.0 % 100
  {
    var r := ExtractAll(names, files, zips);
    var csv := r.extracted[k];
    assert ExtractedFrom(zips, files, csv, r.files[csv]);
    var z :| z in zips && z in files && ZipCsvName(z) == Some(csv) && ReportOf(files[z]).Some? && r.files[csv] == TextFile(ReportOf(files[z]).value);
    ZipCsvNameReadsBack(z);
  }

  // ---------------------------------------------------------------- one file

  /** What a written table holds: the rows and the annotated schema. */
  datatype StoredTable = StoredTable(table: OutputTable, schema: seq<Field>)

  /** The processed-data directory, one entry per written parquet path. */
  class ParquetStore {
    var files: map<string, StoredTable>

    constructor(files: map<string, StoredTable>)
      ensures this.files == files
    {
      this.files := files;
    }

    /** `pq.write_table`: replaces whatever the path held. */
    method Write(path: string, t: StoredTable)
      modifies this
      ensures files == old(files)[path := t]
    {
      files := files[path := t];
    }
  }

  /** `output_dir / filer_type / f"{quarter_str}.parquet"`. */
  function OutputPath(key: string, quarterText: string): string {
    key + "/" + quarterText + ".parquet"
  }

  /** The per-type line of the success message: filers and variables. */
  datatype Summary = Summary(key: string, filers: nat, vars: int)

  datatype FileError =
    | NoQuarter(file: string)
    | ProcessingFailed(file: string, cause: ParseError)
    | NotText(file: string)
    | NoData
    | WriteFailed(file: string, column: string)

  /** `(status, quarter_str, message)`: the code never reports 'skipped'. */
  datatype FileResult = Done(quarter: string, summaries: seq<Summary>) | Error(reported: Option<string>, error: FileError)

  /** The write of one table: its path, its annotated schema and its
      summary, or the column whose description is missing. */
  function TableWrite(ft: FilerTable, quarterText: string, d: Option<Descriptions>): (r: Result<((string, StoredTable), Summary), string>)
    requires ft.filer != Unknown
    ensures r.Success? ==> r.value.0.0 == OutputPath(ft.filer.Key(), quarterText) && r.value.0.1.table == ft.table
    ensures r.Success? ==> r.value.1 == Summary(ft.filer.Key(), |ft.table.rows|, |ft.table.columns| - 2)
    ensures r.Failure? <==> d.Some? && !Describable(FieldsOf(ft.table.columns), d.value)
  {
    var fields := FieldsOf(ft.table.columns);
    var schema := if d.Some? then AnnotatedSchema(fields, d.value) else Success(fields);
    match schema
    case Failure(c) => Failure(c)
    case Success(s) =>
      Success(((OutputPath(ft.filer.Key(), quarterText), StoredTable(ft.table, s)), Summary(ft.filer.Key(), |ft.table.rows|, |ft.table.columns| - 2)))
  }

  datatype Writing = Writing(writes: seq<(string, StoredTable)>, summaries: seq<Summary>, failure: Option<string>)

  /** The tables written in order, stopping at the first failed write
      (the ones before it stay written). */
  function WriteTables(tables: seq<FilerTable>, quarterText: string, d: Option<Descriptions>): (w: Writing)
    requires forall k :: 0 <= k < |tables| ==> tables[k].filer != Unknown
    ensures |w.writes| == |w.summaries| <= |tables|
    ensures w.failure.None? ==> |w.writes| == |tables|
  {
    if tables == [] then Writing([], [], None)
    else
      var prev := WriteTables(tables[..|tables| - 1], quarterText, d);
      if prev.failure.Some? then prev
      else
        match TableWrite(tables[|tables| - 1], quarterText, d)
        case Failure(c) => Writing(prev.writes, prev.summaries, Some(c))
        case Success(ws) => Writing(prev.writes + [ws.0], prev.summaries + [ws.1], None)
  }

  /** The writes and summaries are those of the tables before the first
      failed write, in order. */
  lemma {:induction false} WriteTablesWritten(tables: seq<FilerTable>, quarterText: string, d: Option<Descriptions>)
    requires forall k :: 0 <= k < |tables| ==> tables[k].filer != Unknown
    ensures var w := WriteTables(tables, quarterText, d);
            forall k :: 0 <= k < |w.writes| ==> TableWrite(tables[k], quarterText, d) == Success((w.writes[k], w.summaries[k]))
    decreases |tables|
  {
    if tables != [] {
      var init := tables[..|tables| - 1];
      WriteTablesWritten(init, quarterText, d);
      var prev := WriteTables(init, quarterText, d);
      var w := WriteTables(tables, quarterText, d);
      forall k | 0 <= k < |w.writes|
        ensures TableWrite(tables[k], quarterText, d) == Success((w.writes[k], w.summaries[k]))
      {
        if k < |prev.writes| {
          assert tables[k] == init[k] && w.writes[k] == prev.writes[k] && w.summaries[k] == prev.summaries[k];
        }
      }
    }
  }

  /** A failure is that of the first table not written. */
  lemma {:induction false} WriteTablesFailure(tables: seq<FilerTable>, quarterText: string, d: Option<Descriptions>)
    requires forall k :: 0 <= k < |tables| ==> tables[k].filer != Unknown
    ensures var w := WriteTables(tables, quarterText, d);
            w.failure.Some? ==> |w.writes| < |tables| && TableWrite(tables[|w.writes|], quarterText, d) == Failure(w.failure.value)
    decreases |tables|
  {
    if tables != [] {
      var init := tables[..|tables| - 1];
      WriteTablesFailure(init, quarterText, d);
      var prev := WriteTables(init, quarterText, d);
      if prev.failure.Some? {
        assert tables[|prev.writes|] == init[|prev.writes|];
      }
    }
  }

  /** Writing fails exactly when some table cannot be written. */
  lemma WriteTablesFails(tables: seq<FilerTable>, quarterText: string, d: Option<Descriptions>)
    requires forall k :: 0 <= k < |tables| ==> tables[k].filer != Unknown
    ensures WriteTables(tables, quarterText, d).failure.Some?
            <==> exists k :: 0 <= k < |tables| && TableWrite(tables[k], quarterText, d).Failure?
  {
    WriteTablesWritten(tables, quarterText, d);
    WriteTablesFailure(tables, quarterText, d);
    var w := WriteTables(tables, quarterText, d);
    if w.failure.Some? {
      assert TableWrite(tables[|w.writes|], quarterText, d).Failure?;
    }
  }

  /** Every write lands at the path of its filer type and the file's
      quarter. */
  lemma WritesAtOutputPaths(tables: seq<FilerTable>, quarterText: string, d: Option<Descriptions>, k: nat)
    requires forall j :: 0 <= j < |tables| ==> tables[j].filer != Unknown
    requires k < |WriteTables(tables, quarterText, d).writes|
    ensures var w := WriteTables(tables, quarterText, d);
            k < |tables| && w.writes[k] == (OutputPath(tables[k].filer.Key(), quarterText), w.writes[k].1) && w.writes[k].1.table == tables[k].table
  {
    WriteTablesWritten(tables, quarterText, d);
  }

  /** The store after the writes, in order. */
  function ApplyWrites(m: map<string, StoredTable>, writes: seq<(string, StoredTable)>): map<string, StoredTable> {
    if writes == [] then m
    else ApplyWrites(m, writes[..|writes| - 1])[writes[|writes| - 1].0 := writes[|writes| - 1].1]
  }

  /** The file's outcome without its writes, as `process_file_wrapper`
      reports it. Exceptions raised while processing report no quarter;
      an empty result reports the quarter. */
  function FileOutcome(name: string, file: RawFile, reader: Reader, d: Option<Descriptions>): (r: (FileResult, seq<(string, StoredTable)>))
    ensures r.0.Done? ==> ExtractQuarter(name).Some? && r.0.quarter == ExtractQuarter(name).value.text
    ensures r.0.Done? ==> |r.0.summaries| == |r.1| && 1 <= |r.1| <= 3
    ensures r.0.Error? && r.0.reported.Some? ==> r.0.error == NoData && r.1 == []
    ensures r.0.Error? && r.0.error != NoData ==> r.0.reported.None?
    ensures r.0.Error? && !r.0.error.WriteFailed? ==> r.1 == []
  {
    match ExtractQuarter(name)
    case None => (Error(None, NoQuarter(name)), [])
    case Some(pq) =>
      if !file.TextFile? then (Error(None, NotText(name)), [])
      else
        match ProcessCsv(name, file.content, reader)
        case Failure(e) => (Error(None, ProcessingFailed(name, e)), [])
        case Success(tables) =>
          if tables == [] then (Error(Some(pq.text), NoData), [])
          else WrittenOutcome(name, pq.text, tables, d)
  }

  /** The wrapper's outcome once the file has parsed to some tables: done
      with every table's summary, or the failed write with the writes
      before it. */
  function WrittenOutcome(name: string, quarterText: string, tables: seq<FilerTable>, d: Option<Descriptions>)
    : (r: (FileResult, seq<(string, StoredTable)>))
    requires WellFormedSplit(tables)
    ensures r.0.Done? ==> r.0.quarter == quarterText && |r.0.summaries| == |r.1| == |tables|
    ensures r.0.Error? ==> r.0.reported.None?
  {
    var w := WriteTables(tables, quarterText, d);
    match w.failure
    case Some(c) => (Error(None, WriteFailed(name, c)), w.writes)
    case None => (Done(quarterText, w.summaries), w.writes)
  }

  /** A file whose name has a quarter but that is not text, or whose
      parse raises, is reported without a quarter, so `main` lists it by
      its name, and nothing is written. */
  lemma FileOutcomeUnprocessed(name: string, file: RawFile, reader: Reader, d: Option<Descriptions>)
    requires ExtractQuarter(name).Some?
    ensures !file.TextFile? ==> FileOutcome(name, file, reader, d) == (Error(None, NotText(name)), [])
    ensures file.TextFile? && ProcessCsv(name, file.content, reader).Failure? ==>
              FileOutcome(name, file, reader, d) == (Error(None, ProcessingFailed(name, ProcessCsv(name, file.content, reader).error)), [])
  {
  }

  /** The wrapper's outcome case by case: an unreadable name is reported
      without a quarter, an empty parse reports its quarter with "No data
      found", and a file succeeds exactly when it parses to some tables and
      every table's write succeeds, each table then written in order with
      its summary. */
  lemma FileOutcomeCases(name: string, file: RawFile, reader: Reader, d: Option<Descriptions>)
    ensures var r := FileOutcome(name, file, reader, d);
            && (ExtractQuarter(name).None? ==> r == (Error(None, NoQuarter(name)), []))
            && (r.0.Done? ==> file.TextFile? && ExtractQuarter(name).Some?)
    ensures file.TextFile? && ExtractQuarter(name).Some? ==>
              var r := FileOutcome(name, file, reader, d);
              var q, p := ExtractQuarter(name).value, ProcessCsv(name, file.content, reader);
              && (p.Success? && p.value == [] ==> r == (Error(Some(q.text), NoData), []))
              && (r.0.Done? <==> p.Success? && p.value != []
                                 && forall k :: 0 <= k < |p.value| ==> TableWrite(p.value[k], q.text, d).Success?)
              && (r.0.Done? ==> |r.1| == |p.value| && forall k :: 0 <= k < |p.value| ==>
                                  && TableWrite(p.value[k], q.text, d) == Success((r.1[k], r.0.summaries[k]))
                                  && r.0.summaries[k] == Summary(p.value[k].filer.Key(), |p.value[k].table.rows|, |p.value[k].table.columns| - 2))
  {
    if file.TextFile? && ExtractQuarter(name).Some? {
      var p := ProcessCsv(name, file.content, reader);
      if p.Success? {
        WriteTablesWritten(p.value, ExtractQuarter(name).value.text, d);
        WriteTablesFails(p.value, ExtractQuarter(name).value.text, d);
      }
    }
  }

  /** The dictionary `write_parquet_with_metadata` sees: none when the
      dictionary file was absent at start-up. */
  function DictionaryFor(file: DictionaryFile): Option<Descriptions> {
    if file.Missing? then None else Some(DescriptionsOf(file))
  }

  const DictionaryPath := "data_dictionary.parquet"

  /** One `write_parquet_with_metadata` call: load the dictionary (when
      one was found at start-up), annotate, write. */
  method WriteTable(ft: FilerTable, quarterText: string, dictionary: DictionaryFile,
                    store: ParquetStore, cache: DictionaryCache) returns (r: Result<((string, StoredTable), Summary), string>)
    requires ft.filer != Unknown
    requires cache.ConsistentWith(DictionaryPath, dictionary)
    modifies store, cache
    ensures r == TableWrite(ft, quarterText, DictionaryFor(dictionary))
    ensures store.files == if r.Success? then old(store.files)[r.value.0.0 := r.value.0.1] else old(store.files)
    ensures cache.ConsistentWith(DictionaryPath, dictionary)
  {
    var descriptions: Descriptions := map[];
    if !dictionary.Missing? {
      descriptions := cache.Load(DictionaryPath, dictionary);
    }
    var fields := FieldsOf(ft.table.columns);
    var schema := Success(fields);
    if descriptions != map[] {
      schema := AnnotateSchema(fields, descriptions);
    } else {
      EmptyDictionaryChangesNothing(fields);
    }
    if schema.Failure? {
      return Failure(schema.error);
    }
    var path := OutputPath(ft.filer.Key(), quarterText);
    store.Write(path, StoredTable(ft.table, schema.value));
    r := Success(((path, StoredTable(ft.table, schema.value)), Summary(ft.filer.Key(), |ft.table.rows|, |ft.table.columns| - 2)));
  }

  lemma WriteTablesSnoc(tables: seq<FilerTable>, quarterText: string, d: Option<Descriptions>, i: nat)
    requires forall k :: 0 <= k < |tables| ==> tables[k].filer != Unknown
    requires i < |tables|
    ensures var prev := WriteTables(tables[..i], quarterText, d);
            WriteTables(tables[..i + 1], quarterText, d) ==
              if prev.failure.Some? then prev
              else match TableWrite(tables[i], quarterText, d)
                case Failure(c) => Writing(prev.writes, prev.summaries, Some(c))
                case Success(ws) => Writing(prev.writes + [ws.0], prev.summaries + [ws.1], None)
  {
    assert tables[..i + 1][..i] == tables[..i];
  }

  lemma ApplyWritesSnoc(m: map<string, StoredTable>, writes: seq<(string, StoredTable)>, w: (string, StoredTable))
    ensures ApplyWrites(m, writes + [w]) == ApplyWrites(m, writes)[w.0 := w.1]
  {
    assert (writes + [w])[..|writes|] == writes;
  }

  /** One more table: a failed write ends the writing, a successful one
      extends it. */
  lemma WriteStep(tables: seq<FilerTable>, quarterText: string, d: Option<Descriptions>, i: nat)
    requires forall k :: 0 <= k < |tables| ==> tables[k].filer != Unknown
    requires i < |tables| && WriteTables(tables[..i], quarterText, d).failure.None?
    ensures var w, r := WriteTables(tables[..i], quarterText, d), TableWrite(tables[i], quarterText, d);
            && (r.Failure? ==> WriteTables(tables, quarterText, d) == Writing(w.writes, w.summaries, Some(r.error)))
            && (r.Success? ==> WriteTables(tables[..i + 1], quarterText, d) == Writing(w.writes + [r.value.0], w.summaries + [r.value.1], None))
  {
    WriteTablesSnoc(tables, quarterText, d, i);
    if TableWrite(tables[i], quarterText, d).Failure? {
      WriteTablesStops(tables, quarterText, d, i + 1);
    }
  }

  /** The `for filer_type, df in filer_dfs.items()` loop. */
  method WriteAllTables(tables: seq<FilerTable>, quarterText: string, dictionary: DictionaryFile,
                        store: ParquetStore, cache: DictionaryCache) returns (w: Writing)
    requires forall k :: 0 <= k < |tables| ==> tables[k].filer != Unknown
    requires cache.ConsistentWith(DictionaryPath, dictionary)
    modifies store, cache
    ensures w == WriteTables(tables, quarterText, DictionaryFor(dictionary))
    ensures store.files == ApplyWrites(old(store.files), w.writes)
    ensures cache.ConsistentWith(DictionaryPath, dictionary)
  {
    var d := DictionaryFor(dictionary);
    w := Writing([], [], None);
    var i := 0;
    assert tables[..0] == [];
    while i < |tables|
      invariant 0 <= i <= |tables|
      invariant w == WriteTables(tables[..i], quarterText, d) && w.failure.None?
      invariant store.files == ApplyWrites(old(store.files), w.writes)
      invariant cache.ConsistentWith(DictionaryPath, dictionary)
    {
      var r := WriteTable(tables[i], quarterText, dictionary, store, cache);
      WriteStep(tables, quarterText, d, i);
      if r.Failure? {
        w := Writing(w.writes, w.summaries, Some(r.error));
        return;
      }
      ApplyWritesSnoc(old(store.files), w.writes, r.value.0);
      w := Writing(w.writes + [r.value.0], w.summaries + [r.value.1], None);
      i := i + 1;
    }
    assert tables[..i] == tables;
  }

  /** `process_file_wrapper` on one CSV: the result is the one `FileOutcome`
      gives and the store receives its writes, in order; the dictionary
      cache stays consistent with the file. */
  method ProcessFile(name: string, file: RawFile, reader: Reader, dictionary: DictionaryFile,
                     store: ParquetStore, cache: DictionaryCache) returns (result: FileResult)
    requires cache.ConsistentWith(DictionaryPath, dictionary)
    modifies store, cache
    ensures result == FileOutcome(name, file, reader, DictionaryFor(dictionary)).0
    ensures store.files == ApplyWrites(old(store.files), FileOutcome(name, file, reader, DictionaryFor(dictionary)).1)
    ensures cache.ConsistentWith(DictionaryPath, dictionary)
  {
    assert ApplyWrites(store.files, []) == store.files;
    var pq := ExtractQuarter(name);
    if pq.None? {
      return Error(None, NoQuarter(name));
    }
    if !file.TextFile? {
      return Error(None, NotText(name));
    }
    var processed := ProcessCsv(name, file.content, reader);
    if processed.Failure? {
      return Error(None, ProcessingFailed(name, processed.error));
    }
    var tables := processed.value;
    if tables == [] {
      return Error(Some(pq.value.text), NoData);
    }
    result := WriteParsed(name, pq.value.text, tables, dictionary, store, cache);
  }

  /** The writes of a file that parsed to some tables, and its result. */
  method WriteParsed(name: string, quarterText: string, tables: seq<FilerTable>, dictionary: DictionaryFile,
                     store: ParquetStore, cache: DictionaryCache) returns (result: FileResult)
    requires WellFormedSplit(tables)
    requires cache.ConsistentWith(DictionaryPath, dictionary)
    modifies store, cache
    ensures result == WrittenOutcome(name, quarterText, tables, DictionaryFor(dictionary)).0
    ensures store.files == ApplyWrites(old(store.files), WrittenOutcome(name, quarterText, tables, DictionaryFor(dictionary)).1)
    ensures cache.ConsistentWith(DictionaryPath, dictionary)
  {
    var w := WriteAllTables(tables, quarterText, dictionary, store, cache);
    if w.failure.Some? {
      return Error(None, WriteFailed(name, w.failure.value));
    }
    return Done(quarterText, w.summaries);
  }

  /** Once a write fails, the later tables change nothing. */
  lemma {:induction false} WriteTablesStops(tables: seq<FilerTable>, quarterText: string, d: Option<Descriptions>, i: nat)
    requires forall k :: 0 <= k < |tables| ==> tables[k].filer != Unknown
    requires i <= |tables|
    requires WriteTables(tables[..i], quarterText, d).failure.Some?
    ensures WriteTables(tables, quarterText, d) == WriteTables(tables[..i], quarterText, d)
    decreases |tables| - i
  {
    if i < |tables| {
      assert tables[..i + 1][..i] == tables[..i];
      WriteTablesStops(tables, quarterText, d, i + 1);
    } else {
      assert tables[..i] == tables;
    }
  }

  // ---------------------------------------------------------------- run

  /** `--start-year` / `--end-year` as parsed; a value of zero is falsy and
      counts as not given. */
  datatype YearRange = YearRange(startYear: Option<int>, endYear: Option<int>)

  predicate Given(y: Option<int>) {
    y.Some? && y.value != 0
  }

  /** A file the year filter keeps: its name reads as a quarter within the
      given bounds. */
  predicate InYears(range: YearRange, name: string) {
    var pq := ExtractQuarter(name);
    && pq.Some?
    && (Given(range.startYear) ==> pq.value.year >= range.startYear.value)
    && (Given(range.endYear) ==> pq.value.year <= range.endYear.value)
  }

  function YearPass(range: YearRange): string -> bool {
    name => InYears(range, name)
  }

  /** The files the year filter keeps: all of them when no bound is given. */
  function YearFiltered(files: seq<string>, range: YearRange): seq<string> {
    if Given(range.startYear) || Given(range.endYear) then Filter(files, YearPass(range)) else files
  }

  lemma FilterSnoc(files: seq<string>, range: YearRange, i: nat)
    requires i < |files|
    ensures Filter(files[..i + 1], YearPass(range)) ==
            Filter(files[..i], YearPass(range)) + (if InYears(range, files[i]) then [files[i]] else [])
  {
    assert files[..i + 1] == files[..i] + [files[i]];
    FilterAppend(files[..i], [files[i]], YearPass(range));
    assert [files[i]][1..] == [];
  }

  /** The year-filter loop of `main`. */
  method FilterByYear(files: seq<string>, range: YearRange) returns (kept: seq<string>)
    ensures kept == YearFiltered(files, range)
  {
    if !(Given(range.startYear) || Given(range.endYear)) {
      return files;
    }
    kept := [];
    var i := 0;
    while i < |files|
      invariant 0 <= i <= |files|
      invariant kept == Filter(files[..i], YearPass(range))
    {
      FilterSnoc(files, range, i);
      var pq := ExtractQuarter(files[i]);
      if pq.Some?
         && !(Given(range.startYear) && pq.value.year < range.startYear.value)
         && !(Given(range.endYear) && pq.value.year > range.endYear.value)
      {
        kept := kept + [files[i]];
      }
      i := i + 1;
    }
    assert files[..i] == files;
  }

  /** `glob('bhcf*.csv') + glob('BHCF*.csv')`. */
  function CsvCandidates(names: seq<string>): seq<string> {
    Glob(names, "bhcf", ".csv") + Glob(names, "BHCF", ".csv")
  }

  /** `files_to_process` after the year filter and `sort()`. */
  function ToProcess(names: seq<string>, range: YearRange): seq<string> {
    Sort(YearFiltered(CsvCandidates(names), range), LexLe)
  }

  lemma LexOrderIsTotalPreorder()
    ensures TotalPreorder(LexLe)
  {
    forall a, b ensures LexLe(a, b) || LexLe(b, a) {
      LexLeTotal(a, b);
    }
    forall a, b, c | LexLe(a, b) && LexLe(b, c) ensures LexLe(a, c) {
      LexLeTransitive(a, b, c);
    }
  }

  /** The files a run processes are listed CSV names of either spelling,
      in code-point order, and within the year bounds when one is given. */
  lemma ToProcessSelects(names: seq<string>, range: YearRange)
    ensures SortedBy(ToProcess(names, range), LexLe)
    ensures forall n :: n in ToProcess(names, range) ==>
              && n in names
              && (Matches("bhcf", ".csv", n) || Matches("BHCF", ".csv", n))
              && (Given(range.startYear) || Given(range.endYear) ==> InYears(range, n))
  {
    LexOrderIsTotalPreorder();
    SortIsSorted(YearFiltered(CsvCandidates(names), range), LexLe);
    var filtered := YearFiltered(CsvCandidates(names), range);
    forall n | n in ToProcess(names, range)
      ensures n in filtered
    {
      assert n in multiset(ToProcess(names, range));
    }
  }

  /** What a run has gathered: the `successful` and `failed` lists. */
  datatype Tally = Tally(successful: seq<string>, failed: seq<string>)

  /** A listed name always names a file; an absent one reads as damaged. */
  function FileAt(files: map<string, RawFile>, name: string): RawFile {
    if name in files then files[name] else Damaged
  }

  /** The outcome `process_file_wrapper` gives each file. */
  function Outcomes(files: seq<string>, dirFiles: map<string, RawFile>, reader: Reader, d: Option<Descriptions>): (r: seq<(FileResult, seq<(string, StoredTable)>)>)
    ensures |r| == |files|
  {
    seq(|files|, k requires 0 <= k < |files| => FileOutcome(files[k], FileAt(dirFiles, files[k]), reader, d))
  }

  /** File `k`'s entry among the outcomes. Stated apart from `Outcomes`, so
      that proofs about the whole run do not unfold every file's outcome. */
  lemma OutcomeAt(files: seq<string>, dirFiles: map<string, RawFile>, reader: Reader, d: Option<Descriptions>, k: nat)
    requires k < |files|
    ensures Outcomes(files, dirFiles, reader, d)[k] == FileOutcome(files[k], FileAt(dirFiles, files[k]), reader, d)
  {
  }

  lemma OutcomesAll(files: seq<string>, dirFiles: map<string, RawFile>, reader: Reader, d: Option<Descriptions>)
    ensures forall k :: 0 <= k < |files| ==>
              Outcomes(files, dirFiles, reader, d)[k] == FileOutcome(files[k], FileAt(dirFiles, files[k]), reader, d)
  {
  }

  /** How a failed file is listed: by its quarter when the error reports
      one, by its name otherwise. */
  function FailureLabel(name: string, result: FileResult): string
    requires result.Error?
  {
    if result.reported.Some? then result.reported.value else name
  }

  /** The quarters of the successful files, in file order. */
  function Succeeded(outcomes: seq<(FileResult, seq<(string, StoredTable)>)>): seq<string> {
    if outcomes == [] then []
    else (if outcomes[0].0.Done? then [outcomes[0].0.quarter] else []) + Succeeded(outcomes[1..])
  }

  /** The labels of the failed files, in file order. */
  function Failed(names: seq<string>, outcomes: seq<(FileResult, seq<(string, StoredTable)>)>): seq<string>
    requires |names| == |outcomes|
  {
    if outcomes == [] then []
    else (if outcomes[0].0.Error? then [FailureLabel(names[0], outcomes[0].0)] else []) + Failed(names[1..], outcomes[1..])
  }

  lemma {:induction false} SucceededSnoc(outcomes: seq<(FileResult, seq<(string, StoredTable)>)>, o: (FileResult, seq<(string, StoredTable)>))
    ensures Succeeded(outcomes + [o]) == Succeeded(outcomes) + (if o.0.Done? then [o.0.quarter] else [])
    decreases |outcomes|
  {
    if outcomes == [] {
      assert [o][1..] == [];
    } else {
      assert (outcomes + [o])[1..] == outcomes[1..] + [o];
      SucceededSnoc(outcomes[1..], o);
    }
  }

  lemma {:induction false} FailedSnoc(names: seq<string>, outcomes: seq<(FileResult, seq<(string, StoredTable)>)>,
                                      name: string, o: (FileResult, seq<(string, StoredTable)>))
    requires |names| == |outcomes|
    ensures Failed(names + [name], outcomes + [o]) == Failed(names, outcomes) + (if o.0.Error? then [FailureLabel(name, o.0)] else [])
    decreases |outcomes|
  {
    if outcomes == [] {
      assert [o][1..] == [] && [name][1..] == [];
    } else {
      assert (outcomes + [o])[1..] == outcomes[1..] + [o];
      assert (names + [name])[1..] == names[1..] + [name];
      FailedSnoc(names[1..], outcomes[1..], name, o);
    }
  }

  /** The bookkeeping of the sequential loop of `main`: a success records
      the quarter, an error the quarter when reported and the file name
      otherwise. Every file lands in exactly one list, in file order, and
      `failed` is empty exactly when every file succeeded. */
  function Tallied(names: seq<string>, outcomes: seq<(FileResult, seq<(string, StoredTable)>)>): (t: Tally)
    requires |names| == |outcomes|
    ensures t.successful == Succeeded(outcomes)
    ensures t.failed == Failed(names, outcomes)
    ensures |t.successful| + |t.failed| == |names|
    ensures t.failed == [] <==> forall k :: 0 <= k < |outcomes| ==> outcomes[k].0.Done?
  {
    if names == [] then Tally([], [])
    else
      var n := |names| - 1;
      var prev := Tallied(names[..n], outcomes[..n]);
      assert forall k :: 0 <= k < n ==> outcomes[..n][k] == outcomes[k];
      assert names == names[..n] + [names[n]] && outcomes == outcomes[..n] + [outcomes[n]];
      SucceededSnoc(outcomes[..n], outcomes[n]);
      FailedSnoc(names[..n], outcomes[..n], names[n], outcomes[n]);
      Record(prev, names[n], outcomes[n].0)
  }

  /** One file's result entered in the tally. */
  function Record(t: Tally, name: string, result: FileResult): Tally {
    match result
    case Done(q, _) => Tally(t.successful + [q], t.failed)
    case Error(_, _) => Tally(t.successful, t.failed + [FailureLabel(name, result)])
  }

  /** All parquet writes of the run, in order. */
  function WritesOf(outcomes: seq<(FileResult, seq<(string, StoredTable)>)>): seq<(string, StoredTable)> {
    if outcomes == [] then []
    else WritesOf(outcomes[..|outcomes| - 1]) + outcomes[|outcomes| - 1].1
  }

  lemma TalliedSnoc(names: seq<string>, outcomes: seq<(FileResult, seq<(string, StoredTable)>)>, i: nat)
    requires |names| == |outcomes| && i < |names|
    ensures Tallied(names[..i + 1], outcomes[..i + 1]) == Record(Tallied(names[..i], outcomes[..i]), names[i], outcomes[i].0)
    ensures WritesOf(outcomes[..i + 1]) == WritesOf(outcomes[..i]) + outcomes[i].1
  {
    assert names[..i + 1][..i] == names[..i];
    assert outcomes[..i + 1][..i] == outcomes[..i];
  }

  /** The run over `files`: its tally, from each file's outcome. */
  function RunFiles(files: seq<string>, dirFiles: map<string, RawFile>, reader: Reader, d: Option<Descriptions>): (t: Tally)
    ensures t.successful == Succeeded(Outcomes(files, dirFiles, reader, d))
    ensures t.failed == Failed(files, Outcomes(files, dirFiles, reader, d))
    ensures |t.successful| + |t.failed| == |files|
    ensures t.failed == [] <==> forall k :: 0 <= k < |files| ==> FileOutcome(files[k], FileAt(dirFiles, files[k]), reader, d).0.Done?
  {
    OutcomesAll(files, dirFiles, reader, d);
    Tallied(files, Outcomes(files, dirFiles, reader, d))
  }

  lemma {:induction false} ApplyWritesAppend(m: map<string, StoredTable>, a: seq<(string, StoredTable)>, b: seq<(string, StoredTable)>)
    ensures ApplyWrites(m, a + b) == ApplyWrites(ApplyWrites(m, a), b)
    decreases |b|
  {
    if b == [] {
      assert a + b == a;
    } else {
      var c := b[..|b| - 1];
      assert (a + b)[..|a + b| - 1] == a + c;
      ApplyWritesAppend(m, a, c);
    }
  }

  /** One more file in the tally and in the writes. */
  lemma RunStep(names: seq<string>, outcomes: seq<(FileResult, seq<(string, StoredTable)>)>,
                store0: map<string, StoredTable>, i: nat)
    requires |names| == |outcomes| && i < |names|
    ensures Tallied(names[..i + 1], outcomes[..i + 1]) == Record(Tallied(names[..i], outcomes[..i]), names[i], outcomes[i].0)
    ensures ApplyWrites(store0, WritesOf(outcomes[..i + 1])) == ApplyWrites(ApplyWrites(store0, WritesOf(outcomes[..i])), outcomes[i].1)
  {
    TalliedSnoc(names, outcomes, i);
    ApplyWritesAppend(store0, WritesOf(outcomes[..i]), outcomes[i].1);
  }

  /** One pass of the loop below: file `i` is processed and entered in the
      tally. */
  method ProcessNext(files: seq<string>, i: nat, dirFiles: map<string, RawFile>, reader: Reader,
                     dictionary: DictionaryFile, store: ParquetStore, cache: DictionaryCache,
                     tally: Tally, ghost store0: map<string, StoredTable>,
                     ghost outcomes: seq<(FileResult, seq<(string, StoredTable)>)>)
    returns (tally': Tally)
    requires i < |files| && outcomes == Outcomes(files, dirFiles, reader, DictionaryFor(dictionary))
    requires tally == Tallied(files[..i], outcomes[..i])
    requires store.files == ApplyWrites(store0, WritesOf(outcomes[..i]))
    requires cache.ConsistentWith(DictionaryPath, dictionary)
    modifies store, cache
    ensures tally' == Tallied(files[..i + 1], outcomes[..i + 1])
    ensures store.files == ApplyWrites(store0, WritesOf(outcomes[..i + 1]))
    ensures cache.ConsistentWith(DictionaryPath, dictionary)
  {
    OutcomeAt(files, dirFiles, reader, DictionaryFor(dictionary), i);
    var result := ProcessFile(files[i], FileAt(dirFiles, files[i]), reader, dictionary, store, cache);
    RunStep(files, outcomes, store0, i);
    tally' := Record(tally, files[i], result);
  }

  /** The sequential `for file_path in files_to_process` loop. */
  method ProcessAll(files: seq<string>, dirFiles: map<string, RawFile>, reader: Reader, dictionary: DictionaryFile,
                    store: ParquetStore, cache: DictionaryCache) returns (tally: Tally)
    requires cache.ConsistentWith(DictionaryPath, dictionary)
    modifies store, cache
    ensures tally == RunFiles(files, dirFiles, reader, DictionaryFor(dictionary))
    ensures store.files == ApplyWrites(old(store.files), WritesOf(Outcomes(files, dirFiles, reader, DictionaryFor(dictionary))))
    ensures cache.ConsistentWith(DictionaryPath, dictionary)
  {
    var d := DictionaryFor(dictionary);
    var store0 := store.files;
    ghost var outcomes := Outcomes(files, dirFiles, reader, d);
    tally := Tally([], []);
    var i := 0;
    assert files[..0] == [] && outcomes[..0] == [];
    while i < |files|
      invariant 0 <= i <= |files|
      invariant tally == Tallied(files[..i], outcomes[..i])
      invariant store.files == ApplyWrites(store0, WritesOf(outcomes[..i]))
      invariant cache.ConsistentWith(DictionaryPath, dictionary)
    {
      tally := ProcessNext(files, i, dirFiles, reader, dictionary, store, cache, tally, store0, outcomes);
      i := i + 1;
    }
    assert files[..i] == files && outcomes[..i] == outcomes;
  }

  /** `main` run sequentially (`--no-parallel` or one worker): exit 1 when
      the input directory is missing or nothing is left to process;
      otherwise the archives are extracted, each selected file processed in
      order, and the exit code is 0 exactly when no file failed. */
  method RunParse(inputExists: bool, dir: RawDirectory, store: ParquetStore, cache: DictionaryCache,
                  range: YearRange, reader: Reader, dictionary: DictionaryFile) returns (code: int, tally: Tally)
    requires dir.Valid()
    requires cache.ConsistentWith(DictionaryPath, dictionary)
    modifies dir, store, cache
    ensures !inputExists ==> code == 1 && dir.names == old(dir.names) && dir.files == old(dir.files) && store.files == old(store.files)
    ensures inputExists ==>
              var ex := ExtractAll(old(dir.names), old(dir.files), ZipCandidates(old(dir.names)));
              var files := ToProcess(ex.names, range);
              && dir.names == ex.names && dir.files == ex.files
              && (files == [] ==> code == 1 && store.files == old(store.files))
              && (files != [] ==>
                    && tally == RunFiles(files, ex.files, reader, DictionaryFor(dictionary))
                    && store.files == ApplyWrites(old(store.files), WritesOf(Outcomes(files, ex.files, reader, DictionaryFor(dictionary))))
                    && code == (if tally.failed == [] then 0 else 1))
  {
    tally := Tally([], []);
    if !inputExists {
      return 1, tally;
    }
    var extracted := ExtractZipFiles(dir);
    var candidates := CsvCandidates(dir.names);
    var kept := FilterByYear(candidates, range);
    var files := Sort(kept, LexLe);
    if files == [] {
      return 1, tally;
    }
    tally := ProcessAll(files, dir.files, reader, dictionary, store, cache);
    code := if tally.failed == [] then 0 else 1;
  }
}
