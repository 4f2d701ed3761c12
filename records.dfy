/** The row pipeline of `process_fry9c_csv` in 04_parse_data.py: delimiter
    choice, separator-row removal, column-name normalisation, identifier
    resolution and coercion, per-row filer classification and the split
    into one projected table per filer type. */
module Records {
  import opened Wrappers
  import opened Text
  import opened Seqs
  import opened Quarters

  /** One data row as the reader returns it: `None` is a missing (NaN) field. */
  type Row = seq<Option<string>>

  /** The reader's result: the header line and the data rows, all text. */
  datatype RawTable = RawTable(header: seq<string>, rows: seq<Row>)

  /** Field `j` of a row; a short row is padded with missing fields. */
  function Cell(row: Row, j: nat): Option<string> {
    if j < |row| then row[j] else None
  }

  // ---------------------------------------------------------------- reading

  /** Python's text mode ends a line at `\n` or `\r` (universal newlines). */
  predicate IsLineBreak(c: char) {
    c == '\n' || c == '\r'
  }

  /** `f.readline()` without its line break. */
  function FirstLine(content: string): (r: string)
    ensures |r| <= |content| && r == content[..|r|]
    ensures forall i :: 0 <= i < |r| ==> !IsLineBreak(r[i])
    ensures |r| < |content| ==> IsLineBreak(content[|r|])
  {
    if content == [] || IsLineBreak(content[0]) then []
    else [content[0]] + FirstLine(content[1..])
  }

  /** `'^' if '^' in first_line else ','`. */
  function ChooseDelimiter(content: string): (d: char)
    ensures d == '^' || d == ','
  {
    if '^' in FirstLine(content) then '^' else ','
  }

  /** The delimiter is a caret exactly when a caret comes before the first
      line break. */
  lemma ChooseDelimiterCaret(content: string)
    ensures ChooseDelimiter(content) == '^' <==>
            exists i :: 0 <= i < |content| && content[i] == '^' && forall j :: 0 <= j < i ==> !IsLineBreak(content[j])
  {
    var line := FirstLine(content);
    if ChooseDelimiter(content) == '^' {
      var i :| 0 <= i < |line| && line[i] == '^';
      assert content[i] == '^';
    } else {
      forall i | 0 <= i < |content| && content[i] == '^'
        ensures exists j :: 0 <= j < i && IsLineBreak(content[j])
      {
        if i >= |line| {
          assert IsLineBreak(content[|line|]);
        }
      }
    }
  }

  const Separator := "--------"

  /** A row the publisher did not inject as a table rule. */
  predicate IsDataRow(row: Row) {
    Cell(row, 0) != Some(Separator)
  }

  /** `df[df[first_col] != '--------']`. */
  function DropSeparators(rows: seq<Row>): (r: seq<Row>)
    ensures forall row :: row in r <==> row in rows && IsDataRow(row)
  {
    Filter(rows, IsDataRow)
  }

  /** Removing separator rows keeps the others in order: it distributes
      over any split of the input. */
  lemma DropSeparatorsKeepsOrder(a: seq<Row>, b: seq<Row>)
    ensures DropSeparators(a + b) == DropSeparators(a) + DropSeparators(b)
  {
    FilterAppend(a, b, IsDataRow);
  }

  lemma DropSeparatorsIdempotent(rows: seq<Row>)
    ensures DropSeparators(DropSeparators(rows)) == DropSeparators(rows)
  {
    FilterIdempotent(rows, IsDataRow);
  }

  // ---------------------------------------------------------------- schema

  /** `str(col).upper().strip()`. */
  function CanonicalName(name: string): string {
    Strip(Upper(name))
  }

  function NormalizeColumns(header: seq<string>): (cols: seq<string>)
    ensures |cols| == |header|
    ensures forall i :: 0 <= i < |header| ==> cols[i] == CanonicalName(header[i])
  {
    seq(|header|, i requires 0 <= i < |header| => CanonicalName(header[i]))
  }

  predicate NoLowerCase(s: string) {
    forall i :: 0 <= i < |s| ==> !('a' <= s[i] <= 'z')
  }

  lemma UpperOfNoLowerCase(s: string)
    requires NoLowerCase(s)
    ensures Upper(s) == s
  {
  }

  lemma NoLowerCaseSlice(s: string, i: nat, n: nat)
    requires NoLowerCase(s) && i <= |s| && n <= |s| - i
    ensures NoLowerCase(s[i..][..n])
  {
    assert forall k :: 0 <= k < n ==> s[i..][..n][k] == s[i + k];
  }

  /** A canonical name has no lower-case ASCII letter and no surrounding
      whitespace, and normalising it again changes nothing. */
  lemma CanonicalNameIsCanonical(name: string)
    ensures var c := CanonicalName(name);
            && NoLowerCase(c)
            && (c == [] || (!IsSpace(c[0]) && !IsSpace(c[|c| - 1])))
            && CanonicalName(c) == c
  {
    var u := Upper(name);
    var c := Strip(u);
    NoLowerCaseSlice(u, |u| - |TrimLeft(u)|, |c|);
    UpperOfNoLowerCase(c);
  }

  /** `df.rename(columns={'RSSD9001': 'RSSD_ID'})`. */
  function RenameIdentifier(cols: seq<string>): (r: seq<string>)
    ensures |r| == |cols|
    ensures forall i :: 0 <= i < |cols| ==> r[i] == (if cols[i] == "RSSD9001" then "RSSD_ID" else cols[i])
  {
    seq(|cols|, i requires 0 <= i < |cols| => if cols[i] == "RSSD9001" then "RSSD_ID" else cols[i])
  }

  /** The positions `j >= from` whose column name passes `p`, ascending. */
  function Positions(cols: seq<string>, p: string -> bool, from: nat): (r: seq<nat>)
    requires from <= |cols|
    ensures forall k :: 0 <= k < |r| ==> from <= r[k] < |cols| && p(cols[r[k]])
    ensures forall j :: from <= j < |cols| && p(cols[j]) ==> j in r
    ensures forall a, b :: 0 <= a < b < |r| ==> r[a] < r[b]
    decreases |cols| - from
  {
    if from == |cols| then []
    else
      var head: seq<nat> := if p(cols[from]) then [from] else [];
      var rest := Positions(cols, p, from + 1);
      PositionsJoin(cols, p, from, head, rest);
      head + rest
  }

  lemma PositionsJoin(cols: seq<string>, p: string -> bool, from: nat, head: seq<nat>, rest: seq<nat>)
    requires from < |cols| && head == (if p(cols[from]) then [from] else [])
    requires forall k :: 0 <= k < |rest| ==> from + 1 <= rest[k] < |cols| && p(cols[rest[k]])
    requires forall j :: from + 1 <= j < |cols| && p(cols[j]) ==> j in rest
    requires forall a, b :: 0 <= a < b < |rest| ==> rest[a] < rest[b]
    ensures forall k :: 0 <= k < |head + rest| ==> from <= (head + rest)[k] < |cols| && p(cols[(head + rest)[k]])
    ensures forall j :: from <= j < |cols| && p(cols[j]) ==> j in head + rest
    ensures forall a, b :: 0 <= a < b < |head + rest| ==> (head + rest)[a] < (head + rest)[b]
  {
    assert forall k :: 0 <= k < |rest| ==> (head + rest)[|head| + k] == rest[k];
  }

  /** The names at the given positions. */
  function Names(cols: seq<string>, positions: seq<nat>): (r: seq<string>)
    requires forall k :: 0 <= k < |positions| ==> positions[k] < |cols|
    ensures |r| == |positions|
  {
    seq(|positions|, k requires 0 <= k < |positions| => cols[positions[k]])
  }

  lemma NamesCons(cols: seq<string>, j: nat, rest: seq<nat>)
    requires j < |cols| && forall k :: 0 <= k < |rest| ==> rest[k] < |cols|
    ensures Names(cols, [j] + rest) == [cols[j]] + Names(cols, rest)
  {
  }

  lemma FilterFrom(cols: seq<string>, p: string -> bool, from: nat)
    requires from < |cols|
    ensures Filter(cols[from..], p) == (if p(cols[from]) then [cols[from]] else []) + Filter(cols[from + 1..], p)
  {
    assert cols[from..][1..] == cols[from + 1..];
  }

  /** The names picked by `Positions` are the list comprehension
      `[c for c in cols if p(c)]`: same names, same order. */
  lemma {:induction false} NamesOfPositions(cols: seq<string>, p: string -> bool, from: nat)
    requires from <= |cols|
    ensures Names(cols, Positions(cols, p, from)) == Filter(cols[from..], p)
    decreases |cols| - from
  {
    if from < |cols| {
      NamesOfPositions(cols, p, from + 1);
      FilterFrom(cols, p, from);
      var rest := Positions(cols, p, from + 1);
      if p(cols[from]) {
        NamesCons(cols, from, rest);
      }
    }
  }

  predicate IsIdentifierName(c: string) {
    c == "RSSD_ID"
  }

  datatype ParseError =
    | ReadFailed(reason: string)
    | MissingIdentifier(file: string)
    | DuplicateIdentifier
    | BadFilename(stem: string)

  /** The column that holds `RSSD_ID` once `RSSD9001` is renamed. None gives
      the `ValueError` naming the file; two of them make `df['RSSD_ID']` a
      frame, which `pd.to_numeric` rejects. */
  function IdentifierColumn(fileName: string, cols: seq<string>): (r: Result<nat, ParseError>)
    ensures r.Success? ==> r.value < |cols| && RenameIdentifier(cols)[r.value] == "RSSD_ID"
    ensures r.Success? ==> forall j :: 0 <= j < |cols| && j != r.value ==> cols[j] != "RSSD9001" && cols[j] != "RSSD_ID"
    ensures r == Failure(MissingIdentifier(fileName)) <==> "RSSD9001" !in cols && "RSSD_ID" !in cols
    ensures r.Failure? ==> r.error in {MissingIdentifier(fileName), DuplicateIdentifier}
  {
    var renamed := RenameIdentifier(cols);
    var ids := Positions(renamed, IsIdentifierName, 0);
    if |ids| == 0 then
      assert forall j :: 0 <= j < |cols| ==> cols[j] != "RSSD9001" && cols[j] != "RSSD_ID" by {
        forall j | 0 <= j < |cols| ensures cols[j] != "RSSD9001" && cols[j] != "RSSD_ID" {
          assert renamed[j] != "RSSD_ID";
        }
      }
      Failure(MissingIdentifier(fileName))
    else if |ids| > 1 then
      assert renamed[ids[0]] == "RSSD_ID";
      Failure(DuplicateIdentifier)
    else
      assert forall j :: 0 <= j < |cols| && j != ids[0] ==> renamed[j] != "RSSD_ID";
      Success(ids[0])
  }

  // ---------------------------------------------------------------- identifier

  /** `pd.to_numeric(..., errors='coerce')` on a field, restricted to plain
      decimal numerals; anything else is not a number. */
  function IdentifierValue(cell: Option<string>): (r: Option<int>)
    ensures r.Some? ==> cell.Some? && cell.value != [] && AllDigits(cell.value)
    ensures r.Some? ==> r.value >= 0
  {
    match cell
    case Some(s) => if s != [] && AllDigits(s) then Some(DigitsValue(s)) else None
    case None => None
  }

  /** A row whose identifier was coerced to an integer. */
  datatype IdRow = IdRow(id: int, cells: Row)

  predicate HasIdentifier(idCol: nat, row: Row) {
    IdentifierValue(Cell(row, idCol)).Some?
  }

  /** `to_numeric` + `dropna(subset=['RSSD_ID'])` + `astype(int)`: rows
      without a numeric identifier are dropped, the others keep their
      place and carry the integer. */
  function CoerceIdentifiers(rows: seq<Row>, idCol: nat): (r: seq<IdRow>)
    ensures |r| == |Filter(rows, row => HasIdentifier(idCol, row))|
    ensures forall x :: x in r ==> x.cells in rows && IdentifierValue(Cell(x.cells, idCol)) == Some(x.id)
    ensures forall row :: row in rows && HasIdentifier(idCol, row) ==>
              IdRow(IdentifierValue(Cell(row, idCol)).value, row) in r
  {
    if rows == [] then []
    else
      var rest := CoerceIdentifiers(rows[1..], idCol);
      match IdentifierValue(Cell(rows[0], idCol))
      case Some(v) => [IdRow(v, rows[0])] + rest
      case None => rest
  }

  // ---------------------------------------------------------------- classification

  datatype FilerType = FrY9C | FrY9LP | FrY9SP | Unknown {
    /** The column prefix of the schedule. */
    function Prefix(): string
      requires !Unknown?
    {
      match this
      case FrY9C => "BHCK"
      case FrY9LP => "BHCP"
      case FrY9SP => "BHSP"
    }

    /** The key of the result dictionary and the output sub-directory. */
    function Key(): string
      requires !Unknown?
    {
      match this
      case FrY9C => "y_9c"
      case FrY9LP => "y_9lp"
      case FrY9SP => "y_9sp"
    }
  }

  /** `df[cols].notna().sum(axis=1)`: the populated fields of a row at the
      given positions. */
  function PopulatedCount(row: Row, positions: seq<nat>): (n: nat)
    ensures n <= |positions|
    ensures n == 0 <==> forall k :: 0 <= k < |positions| ==> Cell(row, positions[k]).None?
  {
    if positions == [] then 0
    else (if Cell(row, positions[0]).Some? then 1 else 0) + PopulatedCount(row, positions[1..])
  }

  /** `classify_filer`: `max` over the dictionary `{FR_Y9C, FR_Y9LP, FR_Y9SP}`
      returns the first key with the largest count; a largest count of
      zero is `UNKNOWN`. */
  function Classify(bhck: nat, bhcp: nat, bhsp: nat): (t: FilerType)
    ensures t == Unknown <==> bhck == 0 && bhcp == 0 && bhsp == 0
    ensures t == FrY9C ==> bhck > 0 && bhck >= bhcp && bhck >= bhsp
    ensures t == FrY9LP ==> bhcp > 0 && bhcp > bhck && bhcp >= bhsp
    ensures t == FrY9SP ==> bhsp > 0 && bhsp > bhck && bhsp > bhcp
  {
    var (best, count) := (FrY9C, bhck);
    var (best, count) := if bhcp > count then (FrY9LP, bhcp) else (best, count);
    var (best, count) := if bhsp > count then (FrY9SP, bhsp) else (best, count);
    if count > 0 then best else Unknown
  }

  /** The classification of one row of a table with columns `cols`. */
  function ClassifyRow(cols: seq<string>, row: Row): FilerType {
    Classify(
      PopulatedCount(row, PrefixPositions(cols, "BHCK")),
      PopulatedCount(row, PrefixPositions(cols, "BHCP")),
      PopulatedCount(row, PrefixPositions(cols, "BHSP")))
  }

  /** `[c for c in df.columns if c.startswith(prefix)]`, by position. */
  function PrefixPositions(cols: seq<string>, prefix: string): seq<nat> {
    Positions(cols, c => StartsWith(c, prefix), 0)
  }

  /** A prefix count is zero exactly when every column with that prefix is
      missing in the row. */
  lemma PrefixCountZero(cols: seq<string>, row: Row, prefix: string)
    ensures PopulatedCount(row, PrefixPositions(cols, prefix)) == 0 <==>
            forall j :: 0 <= j < |cols| && StartsWith(cols[j], prefix) ==> Cell(row, j).None?
  {
    var ps := PrefixPositions(cols, prefix);
    if PopulatedCount(row, ps) > 0 {
      var i :| 0 <= i < |ps| && Cell(row, ps[i]).Some?;
      assert StartsWith(cols[ps[i]], prefix);
    } else {
      forall j | 0 <= j < |cols| && StartsWith(cols[j], prefix) ensures Cell(row, j).None? {
        assert j in ps;
      }
    }
  }

  /** A row with no populated field under any of the three prefixes is
      `UNKNOWN`, and only such a row is. */
  lemma UnknownExactlyWhenEmpty(cols: seq<string>, row: Row)
    ensures ClassifyRow(cols, row) == Unknown <==>
            forall j :: 0 <= j < |cols| && (StartsWith(cols[j], "BHCK") || StartsWith(cols[j], "BHCP") || StartsWith(cols[j], "BHSP"))
              ==> Cell(row, j).None?
  {
    PrefixCountZero(cols, row, "BHCK");
    PrefixCountZero(cols, row, "BHCP");
    PrefixCountZero(cols, row, "BHSP");
  }

  // ---------------------------------------------------------------- split

  /** A row once `df['FILER_TYPE'] = df.apply(classify_filer, axis=1)` ran. */
  datatype TypedRow = TypedRow(id: int, cells: Row, filer: FilerType)

  function ClassifyRows(cols: seq<string>, rows: seq<IdRow>): (r: seq<TypedRow>)
    ensures |r| == |rows|
    ensures forall k :: 0 <= k < |rows| ==> r[k] == TypedRow(rows[k].id, rows[k].cells, ClassifyRow(cols, rows[k].cells))
  {
    seq(|rows|, k requires 0 <= k < |rows| => TypedRow(rows[k].id, rows[k].cells, ClassifyRow(cols, rows[k].cells)))
  }

  /** One row of an output table: `RSSD_ID`, `REPORTING_PERIOD`, then the
      schedule's fields. */
  datatype OutRow = OutRow(id: int, period: Date, values: seq<Option<string>>)

  datatype OutputTable = OutputTable(columns: seq<string>, rows: seq<OutRow>)

  /** An entry `result[filer.Key()] = table` of the returned dictionary. */
  datatype FilerTable = FilerTable(filer: FilerType, table: OutputTable)

  predicate OfType(t: FilerType, x: TypedRow) {
    x.filer == t
  }

  /** `df[df['FILER_TYPE'] == t]`. */
  function Kept(rows: seq<TypedRow>, t: FilerType): (r: seq<TypedRow>)
    ensures forall x :: x in r <==> x in rows && x.filer == t
  {
    Filter(rows, x => OfType(t, x))
  }

  /** Every row has exactly one filer type, so the four selections share
      out the rows. */
  lemma {:induction false} KeptPartition(rows: seq<TypedRow>)
    ensures |Kept(rows, FrY9C)| + |Kept(rows, FrY9LP)| + |Kept(rows, FrY9SP)| + |Kept(rows, Unknown)| == |rows|
  {
    if rows != [] {
      KeptPartition(rows[1..]);
    }
  }

  /** The fields of a row at the given positions. */
  function Values(row: Row, positions: seq<nat>): (v: seq<Option<string>>)
    ensures |v| == |positions|
    ensures forall k :: 0 <= k < |positions| ==> v[k] == Cell(row, positions[k])
  {
    seq(|positions|, k requires 0 <= k < |positions| => Cell(row, positions[k]))
  }

  /** `df[df['FILER_TYPE'] == t][metadata_cols + relevant_cols]`: the
      identifier, the period and the fields whose column carries the
      schedule's prefix, in column order. */
  function TableFor(rows: seq<TypedRow>, cols: seq<string>, period: Date, t: FilerType): (r: OutputTable)
    requires !t.Unknown?
    ensures |r.columns| >= 2 && r.columns[..2] == ["RSSD_ID", "REPORTING_PERIOD"]
    ensures r.columns[2..] == Filter(cols, c => StartsWith(c, t.Prefix()))
    ensures |r.rows| == |Kept(rows, t)|
    ensures forall k :: 0 <= k < |r.rows| ==>
              && r.rows[k].id == Kept(rows, t)[k].id
              && r.rows[k].period == period
              && r.rows[k].values == Values(Kept(rows, t)[k].cells, PrefixPositions(cols, t.Prefix()))
              && |r.rows[k].values| == |r.columns| - 2
  {
    var positions := PrefixPositions(cols, t.Prefix());
    var kept := Kept(rows, t);
    NamesOfPositions(cols, c => StartsWith(c, t.Prefix()), 0);
    assert cols[0..] == cols;
    var columns := ["RSSD_ID", "REPORTING_PERIOD"] + Names(cols, positions);
    assert columns[2..] == Names(cols, positions);
    OutputTable(columns,
      seq(|kept|, k requires 0 <= k < |kept| => OutRow(kept[k].id, period, Values(kept[k].cells, positions))))
  }

  /** Each value of an output row is the input field under the column of
      the same name. */
  lemma TableValuesUnderColumns(rows: seq<TypedRow>, cols: seq<string>, period: Date, t: FilerType, k: nat, j: nat)
    requires !t.Unknown?
    requires k < |TableFor(rows, cols, period, t).rows|
    requires j < |TableFor(rows, cols, period, t).columns| - 2
    ensures var ps := PrefixPositions(cols, t.Prefix());
            var table := TableFor(rows, cols, period, t);
            && j < |ps| && ps[j] < |cols|
            && table.columns[2 + j] == cols[ps[j]]
            && table.rows[k].values[j] == Cell(Kept(rows, t)[k].cells, ps[j])
  {
    var ps := PrefixPositions(cols, t.Prefix());
    NamesOfPositions(cols, c => StartsWith(c, t.Prefix()), 0);
    assert cols[0..] == cols;
    var table := TableFor(rows, cols, period, t);
    assert table.columns[2..] == Names(cols, ps);
    assert table.columns[2 + j] == table.columns[2..][j];
  }

  /** Some row of the table is classified as `t`. */
  predicate HasRowsOf(rows: seq<TypedRow>, t: FilerType) {
    exists x :: x in rows && x.filer == t
  }

  /** The entry of one filer type: present exactly when a row has that type. */
  function Entry(rows: seq<TypedRow>, cols: seq<string>, period: Date, t: FilerType): (r: seq<FilerTable>)
    requires !t.Unknown?
    ensures |r| <= 1
    ensures |r| == 1 <==> HasRowsOf(rows, t)
    ensures |r| == 1 ==> r[0] == FilerTable(t, TableFor(rows, cols, period, t))
  {
    var table := TableFor(rows, cols, period, t);
    var kept := Kept(rows, t);
    assert HasRowsOf(rows, t) ==> |kept| > 0 by {
      if HasRowsOf(rows, t) {
        var x :| x in rows && x.filer == t;
        assert x in kept;
      }
    }
    assert |kept| > 0 ==> kept[0] in kept;
    if |table.rows| > 0 then [FilerTable(t, table)] else []
  }

  /** The position of a filer type's entry in the result dictionary. */
  function Rank(t: FilerType): nat {
    match t
    case FrY9C => 0
    case FrY9LP => 1
    case FrY9SP => 2
    case Unknown => 3
  }

  /** Filer types listed in strictly increasing rank, none `UNKNOWN`. */
  predicate RankedTypes(types: seq<FilerType>) {
    && (forall k :: 0 <= k < |types| ==> !types[k].Unknown?)
    && (forall a, b :: 0 <= a < b < |types| ==> Rank(types[a]) < Rank(types[b]))
  }

  /** The entries of the given filer types, in that order. */
  function Entries(rows: seq<TypedRow>, cols: seq<string>, period: Date, types: seq<FilerType>): (r: seq<FilerTable>)
    requires RankedTypes(types)
    ensures forall k :: 0 <= k < |r| ==> r[k].filer in types
    ensures forall a, b :: 0 <= a < b < |r| ==> Rank(r[a].filer) < Rank(r[b].filer)
  {
    if types == [] then []
    else
      RankedTail(types);
      var rest := Entries(rows, cols, period, types[1..]);
      var e := Entry(rows, cols, period, types[0]);
      JoinRanked(e, rest, types);
      e + rest
  }

  lemma RankedTail(types: seq<FilerType>)
    requires RankedTypes(types) && types != []
    ensures RankedTypes(types[1..])
    ensures forall t :: t in types[1..] ==> Rank(types[0]) < Rank(t)
  {
    assert forall k :: 0 <= k < |types| - 1 ==> types[1..][k] == types[k + 1];
  }

  /** An entry for the first type, then entries of later types in rank
      order, stays in rank order. */
  lemma JoinRanked(e: seq<FilerTable>, rest: seq<FilerTable>, types: seq<FilerType>)
    requires types != [] && |e| <= 1 && (|e| == 1 ==> e[0].filer == types[0])
    requires forall k :: 0 <= k < |rest| ==> rest[k].filer in types[1..]
    requires forall a, b :: 0 <= a < b < |rest| ==> Rank(rest[a].filer) < Rank(rest[b].filer)
    requires forall t :: t in types[1..] ==> Rank(types[0]) < Rank(t)
    ensures forall k :: 0 <= k < |e + rest| ==> (e + rest)[k].filer in types
    ensures forall a, b :: 0 <= a < b < |e + rest| ==> Rank((e + rest)[a].filer) < Rank((e + rest)[b].filer)
  {
    assert forall k :: 0 <= k < |rest| ==> (e + rest)[|e| + k] == rest[k];
  }

  /** Every entry holds the table of its own filer type. */
  lemma {:induction false} EntriesTables(rows: seq<TypedRow>, cols: seq<string>, period: Date, types: seq<FilerType>, k: nat)
    requires RankedTypes(types)
    requires k < |Entries(rows, cols, period, types)|
    ensures var ft := Entries(rows, cols, period, types)[k];
            !ft.filer.Unknown? && ft.table == TableFor(rows, cols, period, ft.filer)
  {
    EntriesOwnTables(rows, cols, period, types);
  }

  /** Every entry of `r` holds the table of its own filer type. */
  predicate OwnTables(rows: seq<TypedRow>, cols: seq<string>, period: Date, r: seq<FilerTable>) {
    forall k :: 0 <= k < |r| ==> !r[k].filer.Unknown? && r[k].table == TableFor(rows, cols, period, r[k].filer)
  }

  lemma {:induction false} EntriesOwnTables(rows: seq<TypedRow>, cols: seq<string>, period: Date, types: seq<FilerType>)
    requires RankedTypes(types)
    ensures OwnTables(rows, cols, period, Entries(rows, cols, period, types))
  {
    if types != [] {
      RankedTail(types);
      var e := Entry(rows, cols, period, types[0]);
      var rest := Entries(rows, cols, period, types[1..]);
      assert Entries(rows, cols, period, types) == e + rest;
      EntriesOwnTables(rows, cols, period, types[1..]);
      OwnTablesJoin(rows, cols, period, e, rest);
    }
  }

  lemma OwnTablesJoin(rows: seq<TypedRow>, cols: seq<string>, period: Date, e: seq<FilerTable>, rest: seq<FilerTable>)
    requires OwnTables(rows, cols, period, e) && OwnTables(rows, cols, period, rest)
    ensures OwnTables(rows, cols, period, e + rest)
  {
    forall k | 0 <= k < |e + rest|
      ensures !(e + rest)[k].filer.Unknown? && (e + rest)[k].table == TableFor(rows, cols, period, (e + rest)[k].filer)
    {
      if k >= |e| { assert (e + rest)[k] == rest[k - |e|]; }
    }
  }

  const FilerOrder := [FrY9C, FrY9LP, FrY9SP]

  lemma FilerOrderRanked()
    ensures RankedTypes(FilerOrder)
  {
  }

  /** At most one entry per schedule, none for `UNKNOWN`. */
  predicate WellFormedSplit(r: seq<FilerTable>) {
    && |r| <= 3
    && (forall k :: 0 <= k < |r| ==> !r[k].filer.Unknown?)
  }

  /** The three `if len(...) > 0: result[key] = ...` blocks, in order: every
      entry is one schedule's table, no schedule twice, in the order
      `y_9c`, `y_9lp`, `y_9sp`. */
  function SplitByFiler(rows: seq<TypedRow>, cols: seq<string>, period: Date): (r: seq<FilerTable>)
    ensures forall k :: 0 <= k < |r| ==> r[k].filer in FilerOrder
    ensures forall a, b :: 0 <= a < b < |r| ==> Rank(r[a].filer) < Rank(r[b].filer)
    ensures WellFormedSplit(r)
  {
    FilerOrderRanked();
    var r := Entries(rows, cols, period, FilerOrder);
    RankedAtMostThree(r);
    r
  }

  lemma RankedAtMostThree(r: seq<FilerTable>)
    requires forall k :: 0 <= k < |r| ==> r[k].filer in FilerOrder
    requires forall a, b :: 0 <= a < b < |r| ==> Rank(r[a].filer) < Rank(r[b].filer)
    ensures |r| <= 3
  {
    if r != [] {
      RankAtLeastIndex(r, |r| - 1);
    }
  }

  lemma {:induction false} RankAtLeastIndex(r: seq<FilerTable>, k: nat)
    requires k < |r|
    requires forall a, b :: 0 <= a < b < |r| ==> Rank(r[a].filer) < Rank(r[b].filer)
    ensures Rank(r[k].filer) >= k
  {
    if k > 0 {
      RankAtLeastIndex(r, k - 1);
    }
  }

  /** Every entry of the split holds the table of its own filer type. */
  lemma SplitTables(rows: seq<TypedRow>, cols: seq<string>, period: Date, k: nat)
    requires k < |SplitByFiler(rows, cols, period)|
    ensures var ft := SplitByFiler(rows, cols, period)[k];
            !ft.filer.Unknown? && ft.table == TableFor(rows, cols, period, ft.filer)
  {
    FilerOrderRanked();
    EntriesOwnTables(rows, cols, period, FilerOrder);
  }

  /** The result has an entry for `t`. */
  predicate Lists(r: seq<FilerTable>, t: FilerType) {
    exists k :: 0 <= k < |r| && r[k].filer == t
  }

  lemma ListsAppend(a: seq<FilerTable>, b: seq<FilerTable>, t: FilerType)
    ensures Lists(a + b, t) <==> Lists(a, t) || Lists(b, t)
  {
    if Lists(a + b, t) {
      var k :| 0 <= k < |a + b| && (a + b)[k].filer == t;
      if k >= |a| {
        assert b[k - |a|] == (a + b)[k];
      }
    }
    if Lists(b, t) {
      var k :| 0 <= k < |b| && b[k].filer == t;
      assert (a + b)[|a| + k] == b[k];
    }
    if Lists(a, t) {
      var k :| 0 <= k < |a| && a[k].filer == t;
      assert (a + b)[k] == a[k];
    }
  }

  lemma EntryLists(rows: seq<TypedRow>, cols: seq<string>, period: Date, u: FilerType, t: FilerType)
    requires !u.Unknown?
    ensures Lists(Entry(rows, cols, period, u), t) <==> t == u && HasRowsOf(rows, t)
  {
    var e := Entry(rows, cols, period, u);
    if |e| == 1 {
      assert e[0].filer == u;
    }
  }

  lemma {:induction false} EntriesHaveTableExactly(rows: seq<TypedRow>, cols: seq<string>, period: Date, types: seq<FilerType>, t: FilerType)
    requires RankedTypes(types) && !t.Unknown?
    ensures Lists(Entries(rows, cols, period, types), t) <==> t in types && HasRowsOf(rows, t)
  {
    if types != [] {
      var e := Entry(rows, cols, period, types[0]);
      var rest := Entries(rows, cols, period, types[1..]);
      EntriesHaveTableExactly(rows, cols, period, types[1..], t);
      assert Entries(rows, cols, period, types) == e + rest;
      ListsAppend(e, rest, t);
      EntryLists(rows, cols, period, types[0], t);
      assert types == [types[0]] + types[1..];
    }
  }

  /** A schedule has a table exactly when some row is classified as it. */
  lemma SplitHasTableExactly(rows: seq<TypedRow>, cols: seq<string>, period: Date, t: FilerType)
    requires !t.Unknown?
    ensures Lists(SplitByFiler(rows, cols, period), t) <==> HasRowsOf(rows, t)
  {
    FilerOrderRanked();
    EntriesHaveTableExactly(rows, cols, period, FilerOrder, t);
  }

  /** The number of rows over all tables of a result. */
  function TotalRows(r: seq<FilerTable>): nat {
    if r == [] then 0 else |r[0].table.rows| + TotalRows(r[1..])
  }

  lemma {:induction false} TotalRowsAppend(a: seq<FilerTable>, b: seq<FilerTable>)
    ensures TotalRows(a + b) == TotalRows(a) + TotalRows(b)
  {
    if a != [] {
      assert (a + b)[1..] == a[1..] + b;
      TotalRowsAppend(a[1..], b);
    } else {
      assert a + b == b;
    }
  }

  lemma EntryRows(rows: seq<TypedRow>, cols: seq<string>, period: Date, t: FilerType)
    requires !t.Unknown?
    ensures TotalRows(Entry(rows, cols, period, t)) == |Kept(rows, t)|
  {
    var kept := Kept(rows, t);
    var e := Entry(rows, cols, period, t);
    if |kept| > 0 {
      assert kept[0] in kept;
      assert HasRowsOf(rows, t);
      assert e[1..] == [];
    }
  }

  /** Every classified row lands in exactly one table and every `UNKNOWN`
      row in none: the tables hold all the rows but the unknown ones. */
  lemma SplitKeepsClassifiedRows(rows: seq<TypedRow>, cols: seq<string>, period: Date)
    ensures TotalRows(SplitByFiler(rows, cols, period)) + |Kept(rows, Unknown)| == |rows|
  {
    var c := Entry(rows, cols, period, FrY9C);
    var l := Entry(rows, cols, period, FrY9LP);
    var s := Entry(rows, cols, period, FrY9SP);
    assert FilerOrder[1..] == [FrY9LP, FrY9SP];
    assert FilerOrder[1..][1..] == [FrY9SP];
    assert [FrY9SP][1..] == [];
    assert Entries(rows, cols, period, [FrY9SP]) == s + [];
    assert Entries(rows, cols, period, [FrY9LP, FrY9SP]) == l + (s + []);
    assert SplitByFiler(rows, cols, period) == c + (l + (s + []));
    TotalRowsAppend(c, l + (s + []));
    TotalRowsAppend(l, s + []);
    TotalRowsAppend(s, []);
    EntryRows(rows, cols, period, FrY9C);
    EntryRows(rows, cols, period, FrY9LP);
    EntryRows(rows, cols, period, FrY9SP);
    KeptPartition(rows);
  }

  // ---------------------------------------------------------------- pipeline

  /** The text reader (`pd.read_csv(..., dtype=str)`) with its encoding and
      bad-line fallbacks is outside the model: it is a parameter. */
  type Reader = (string, char) -> Result<RawTable, string>

  /** `pd.read_csv` with the delimiter the first line suggests. */
  function ReadTable(content: string, reader: Reader): Result<RawTable, string> {
    reader(content, ChooseDelimiter(content))
  }

  /** The columns after normalising and renaming the identifier. */
  function ColumnsOf(raw: RawTable): seq<string> {
    RenameIdentifier(NormalizeColumns(raw.header))
  }

  /** The data rows with a numeric identifier, in order, each classified. */
  function TypedRowsOf(raw: RawTable, idCol: nat): seq<TypedRow> {
    ClassifyRows(ColumnsOf(raw), CoerceIdentifiers(DropSeparators(raw.rows), idCol))
  }

  /** `process_fry9c_csv`: read, drop separators, normalise and resolve the
      identifier, coerce it, read the period from the stem, classify and
      split. The errors arrive in the order the code raises them: the
      reader's, the identifier's, then the file name's. */
  function ProcessCsv(name: string, content: string, reader: Reader): (r: Result<seq<FilerTable>, ParseError>)
    ensures r.Success? ==> ExtractQuarter(Stem(name)).Some? && WellFormedSplit(r.value)
  {
    match ReadTable(content, reader)
    case Failure(msg) => Failure(ReadFailed(msg))
    case Success(raw) =>
      match IdentifierColumn(name, NormalizeColumns(raw.header))
      case Failure(e) => Failure(e)
      case Success(idCol) =>
        match ExtractQuarter(Stem(name))
        case None => Failure(BadFilename(Stem(name)))
        case Some(pq) => Success(SplitByFiler(TypedRowsOf(raw, idCol), ColumnsOf(raw), ReportingPeriod(pq.year, pq.quarter)))
  }

  /** The error of each stage, in the order the code raises them: the
      reader's, then the identifier's (none or several identifier columns),
      then the file name's; a success passed all three. */
  lemma ProcessCsvErrors(name: string, content: string, reader: Reader)
    ensures var r := ProcessCsv(name, content, reader);
            var read := ReadTable(content, reader);
            && (read.Failure? ==> r == Failure(ReadFailed(read.error)))
            && (read.Success? ==>
                  var id := IdentifierColumn(name, NormalizeColumns(read.value.header));
                  && (id.Failure? ==> r == Failure(id.error))
                  && (id.Success? && ExtractQuarter(Stem(name)).None? ==> r == Failure(BadFilename(Stem(name))))
                  && (r.Success? <==> id.Success? && ExtractQuarter(Stem(name)).Some?))
            && (r.Success? ==> read.Success?)
  {
  }

  /** A parsed file is the split of its classified rows under the period
      its name gives. */
  lemma ProcessCsvSplits(name: string, content: string, reader: Reader)
    requires ProcessCsv(name, content, reader).Success?
    ensures ReadTable(content, reader).Success?
    ensures IdentifierColumn(name, NormalizeColumns(ReadTable(content, reader).value.header)).Success?
    ensures var raw := ReadTable(content, reader).value;
            var idCol := IdentifierColumn(name, NormalizeColumns(raw.header)).value;
            var pq := ExtractQuarter(Stem(name)).value;
            ProcessCsv(name, content, reader).value
              == SplitByFiler(TypedRowsOf(raw, idCol), ColumnsOf(raw), ReportingPeriod(pq.year, pq.quarter))
  {
  }

  /** A classified row of type `t` is exactly a data row of the file with a
      numeric identifier whose populated columns classify it as `t`. */
  lemma TypedRowsOfType(raw: RawTable, idCol: nat, t: FilerType)
    ensures HasRowsOf(TypedRowsOf(raw, idCol), t)
            <==> exists row :: row in raw.rows && IsDataRow(row) && HasIdentifier(idCol, row) && ClassifyRow(ColumnsOf(raw), row) == t
  {
    var typed := TypedRowsOf(raw, idCol);
    if HasRowsOf(typed, t) {
      var x :| x in typed && x.filer == t;
      TypedRowOrigin(raw, idCol, x);
    }
    if row :| row in raw.rows && IsDataRow(row) && HasIdentifier(idCol, row) && ClassifyRow(ColumnsOf(raw), row) == t {
      TypedRowPresent(raw, idCol, row);
    }
  }

  lemma TypedRowOrigin(raw: RawTable, idCol: nat, x: TypedRow)
    requires x in TypedRowsOf(raw, idCol)
    ensures x.cells in raw.rows && IsDataRow(x.cells) && HasIdentifier(idCol, x.cells) && x.filer == ClassifyRow(ColumnsOf(raw), x.cells)
  {
    var idRows := CoerceIdentifiers(DropSeparators(raw.rows), idCol);
    var k :| 0 <= k < |idRows| && TypedRowsOf(raw, idCol)[k] == x;
    assert idRows[k] in idRows;
  }

  lemma TypedRowPresent(raw: RawTable, idCol: nat, row: Row)
    requires row in raw.rows && IsDataRow(row) && HasIdentifier(idCol, row)
    ensures HasRowsOf(TypedRowsOf(raw, idCol), ClassifyRow(ColumnsOf(raw), row))
  {
    var idRows := CoerceIdentifiers(DropSeparators(raw.rows), idCol);
    var y := IdRow(IdentifierValue(Cell(row, idCol)).value, row);
    assert y in idRows;
    var k :| 0 <= k < |idRows| && idRows[k] == y;
    assert TypedRowsOf(raw, idCol)[k] in TypedRowsOf(raw, idCol);
  }

  /** A file's split has a table for filer type `t` exactly when one of its
      data rows with a numeric identifier is classified as `t`. */
  lemma ProcessCsvHasTable(name: string, content: string, reader: Reader, t: FilerType)
    requires ProcessCsv(name, content, reader).Success? && !t.Unknown?
    requires ReadTable(content, reader).Success?
    requires IdentifierColumn(name, NormalizeColumns(ReadTable(content, reader).value.header)).Success?
    ensures var raw := ReadTable(content, reader).value;
            var idCol := IdentifierColumn(name, NormalizeColumns(raw.header)).value;
            Lists(ProcessCsv(name, content, reader).value, t)
            <==> exists row :: row in raw.rows && IsDataRow(row) && HasIdentifier(idCol, row) && ClassifyRow(ColumnsOf(raw), row) == t
  {
    var raw := ReadTable(content, reader).value;
    var idCol := IdentifierColumn(name, NormalizeColumns(raw.header)).value;
    var pq := ExtractQuarter(Stem(name)).value;
    ProcessCsvSplits(name, content, reader);
    SplitHasTableExactly(TypedRowsOf(raw, idCol), ColumnsOf(raw), ReportingPeriod(pq.year, pq.quarter), t);
    TypedRowsOfType(raw, idCol, t);
  }

  /** Each table holds the classified rows of its type, in file order,
      under the period the file name gives, and with the unclassified rows
      the tables account for every row with a numeric identifier. */
  lemma ProcessCsvRows(name: string, content: string, reader: Reader)
    requires ProcessCsv(name, content, reader).Success?
    requires ReadTable(content, reader).Success?
    requires IdentifierColumn(name, NormalizeColumns(ReadTable(content, reader).value.header)).Success?
    ensures var r := ProcessCsv(name, content, reader).value;
            var raw := ReadTable(content, reader).value;
            var typed := TypedRowsOf(raw, IdentifierColumn(name, NormalizeColumns(raw.header)).value);
            var pq := ExtractQuarter(Stem(name)).value;
            && (forall k :: 0 <= k < |r| ==>
                  !r[k].filer.Unknown? && r[k].table == TableFor(typed, ColumnsOf(raw), ReportingPeriod(pq.year, pq.quarter), r[k].filer))
            && TotalRows(r) + |Kept(typed, Unknown)| == |typed|
  {
    var r := ProcessCsv(name, content, reader).value;
    var raw := ReadTable(content, reader).value;
    var typed := TypedRowsOf(raw, IdentifierColumn(name, NormalizeColumns(raw.header)).value);
    var pq := ExtractQuarter(Stem(name)).value;
    var period := ReportingPeriod(pq.year, pq.quarter);
    ProcessCsvSplits(name, content, reader);
    forall k | 0 <= k < |r|
      ensures !r[k].filer.Unknown? && r[k].table == TableFor(typed, ColumnsOf(raw), period, r[k].filer)
    {
      SplitTables(typed, ColumnsOf(raw), period, k);
    }
    SplitKeepsClassifiedRows(typed, ColumnsOf(raw), period);
  }
}
