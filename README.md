# FR Y-9 data pipeline — a verified model

This project models the decision-making core of a small pipeline that
collects the Federal Reserve's FR Y-9 bank holding company reports and turns
them into per-schedule parquet tables:

- `download.py` fetches the quarterly `bhcfYYMM.csv` files of the Chicago
  Fed archive (1986 Q3 to 2021 Q1): the quarter code, the availability
  window, the quarter list and the success/failure bookkeeping of a range.
- `03_parse_dictionary.py` builds the data dictionary from the MDRM
  listing: it cleans description whitespace, keeps the BHCK, BHCP and BHSP
  mnemonics, forms `Variable = Mnemonic + strip(Item Code)`, keeps the latest
  definition of every variable and sorts by variable.
- `04_parse_data.py` parses the quarterly CSV files:
  - it reads the period from the file name and picks the delimiter;
  - it drops the separator row, normalises the column names and resolves
    the `RSSD_ID` column;
  - it classifies every filer as FR Y-9C, FR Y-9LP or FR Y-9SP by its
    populated columns and splits the table per schedule;
  - it attaches dictionary descriptions to the written columns;
  - its driver extracts ZIP archives, filters by year and tallies results.
- `cleanup.py` deletes extracted CSVs, raw files or processed parquet files
  and reports what it removed.

The model is split into modules that follow the scripts:

| file | module | models |
|---|---|---|
| `wrappers.dfy` | `Wrappers` | `Option` (Python `None`/NaN) and `Result` (raised errors) |
| `text.dfy` | `Text` | ASCII case mapping, Python's whitespace set, `str.strip`, decimal rendering, code-point string order |
| `seqs.dfy` | `Seqs` | list comprehensions as `Filter`, and a stable insertion sort |
| `glob.dfy` | `Globs` | `Path.glob('<prefix>*<suffix>')` over a directory listing |
| `quarters.dfy` | `Quarters` | the `bhcfYYMM` period codec, the quarter-end date, the ZIP-to-CSV renaming and the archive member choice |
| `records.dfy` | `Records` | the row pipeline of `process_fry9c_csv` |
| `metadata.dfy` | `Metadata` | the dictionary cache and the schema annotation |
| `batch.dfy` | `Batch` | `extract_zip_files`, `process_file_wrapper` and the sequential `main` |
| `download.dfy` | `Download` | `download.py` |
| `mdrm.dfy` | `Mdrm` | `clean_description` and `parse_mdrm` |
| `cleanup.dfy` | `Cleanup` | `cleanup.py` |

Functions with loops that accumulate state are methods with loop
invariants, each proved equal to a specification function.
`get_processed_files`, whose loop only concatenates three globs, is the
function `Cleanup.ProcessedFilesIn`. Objects whose state the source
updates are classes:
- the downloader's output directory;
- the dictionary cache;
- the raw-data directory and the parquet store;
- the file system the cleanup utility deletes from.

Whole-table pandas steps are functions over sequences.

Where the documentation and the code disagree, the model follows the code:
- `process_file_wrapper` never reports `skipped`. The code has no
  skip-if-output-exists step, so a rerun rewrites every table.
- A file whose identifiers are all non-numeric yields no tables. The wrapper
  then reports "No data found for any filer type"; it does not write an
  empty table.
- `clean_description` does not truncate long text, although its docstring
  says so.

Some behaviours are proved and worth knowing:
- A download that fails part-way leaves its partial file behind, and a later
  run then counts that quarter as downloaded
  (`Download.PartialFileCountsAsDownloaded`).
- The cleanup utility's dry run over-reports when two ZIPs map to the same
  CSV. It counts that CSV twice, while the real run deletes it once
  (`Cleanup.RepeatedPathOverReported`). On lists without repeats the dry
  run reports exactly what the real run deletes (`Cleanup.DryRunPredictsDelete`).
- `format_size` can show one byte short of a gigabyte as `1024.00 MB`
  (`Cleanup.FormatSizeJustBelowGB`).

## Model

| member | source | states |
|---|---|---|
| Quarters.FindTag | 04_parse_data.py:208 | the result is the leftmost position of `bhcf` followed by the digits, or None when there is none |
| Quarters.QuarterOfMonth | 04_parse_data.py:221-222 | a month code maps to a quarter exactly when it is 03/06/09/12, and the quarter's month code is that code |
| Quarters.PivotYear | 04_parse_data.py:216-218 | a two-digit year becomes the year in 1950..2049 with those last two digits |
| Quarters.ExtractQuarter | 04_parse_data.py:196-229 | a parsed period has a year in 1950..2049, a quarter in 1..4 and the label `{year}Q{quarter}` |
| Quarters.ExtractQuarterLeftmost | 04_parse_data.py:208-211 | the period is read at the leftmost `bhcfDDDD` of the lower-cased name |
| Quarters.ExtractQuarterNoTag | 04_parse_data.py:208-211 | a name without `bhcfDDDD` gives no period |
| Quarters.ExtractQuarterExamples | 04_parse_data.py:200-229 | `bhcf2103` is (2021, 1, "2021Q1") and `bhcf8609` is (1986, 3, "1986Q3") |
| Quarters.ExtractQuarterBadMonth | 04_parse_data.py:221-225 | a month code other than 03/06/09/12 at the first match gives no period |
| Quarters.ReportingPeriod | 04_parse_data.py:298-300 | the reporting date is the last day of month 3*quarter of the parsed year |
| Quarters.ReportingPeriodDates | 04_parse_data.py:298-300 | the four reporting dates are 03-31, 06-30, 09-30 and 12-31 |
| Quarters.Stem | 04_parse_data.py:292 | the stem is a prefix of the name |
| Quarters.StemAgreesOnCsv | 04_parse_data.py:292-293 | for a `.csv` name the stem and the full name read as the same period |
| Quarters.ZipStamp | 04_parse_data.py:138-145 | a matched ZIP name yields a four-digit year and a two-digit month |
| Quarters.ZipCsvName | 04_parse_data.py:138-157 | a ZIP gets a CSV name exactly when its `bhcfYYYYMMDD` stamp is found and its month ends a quarter; the name is `bhcf` + 4 characters + `.csv`, 12 characters in all |
| Quarters.ZipCsvNameReadsBack | 04_parse_data.py:144-157 | the extracted CSV reads back as the quarter ending in the ZIP's month, in the ZIP's year whenever it lies in 1950..2049 |
| Quarters.FirstReportMember | 04_parse_data.py:169-173 | the chosen member is the first whose upper-case name starts with `BHCF` and ends with `.TXT`; None when no member does |
| Quarters.FindReportMember | 04_parse_data.py:170-173 | the `for … break` loop returns that first member |
| Records.FirstLine | 04_parse_data.py:255-256 | the first line is the longest prefix without a line break |
| Records.ChooseDelimiterCaret | 04_parse_data.py:255-257 | the delimiter is `^` exactly when a caret occurs before the first line break, otherwise `,` |
| Records.DropSeparators | 04_parse_data.py:271-275 | a row is kept exactly when its first field is not `--------` |
| Records.DropSeparatorsKeepsOrder | 04_parse_data.py:271-275 | separator removal distributes over concatenation, so kept rows stay in order |
| Records.DropSeparatorsIdempotent | 04_parse_data.py:275 | removing separators twice equals removing them once |
| Records.NormalizeColumns | 04_parse_data.py:278 | every column name becomes `upper(name).strip()`, position by position |
| Records.CanonicalNameIsCanonical | 04_parse_data.py:278 | a normalised name has no lower-case letter and no surrounding whitespace, so normalising again changes nothing |
| Records.RenameIdentifier | 04_parse_data.py:281-282 | `RSSD9001` becomes `RSSD_ID` and every other name is unchanged |
| Records.IdentifierColumn | 04_parse_data.py:280-284 | the missing-identifier error, naming the file, occurs exactly when neither `RSSD9001` nor `RSSD_ID` is present; a success is the unique identifier column |
| Records.CoerceIdentifiers | 04_parse_data.py:286-289 | as many rows survive as have a numeric identifier; each is an input row carrying that identifier as its integer id, and every such row is there |
| Records.NamesOfPositions | 04_parse_data.py:306-308 | the prefix columns picked by position are the list comprehension over the columns |
| Records.PopulatedCount | 04_parse_data.py:310-313 | the count is zero exactly when every field under the prefix is missing |
| Records.Classify | 04_parse_data.py:315-320 | the type has the largest count, ties go to FR_Y9C, then FR_Y9LP, and UNKNOWN exactly when all counts are 0 |
| Records.UnknownExactlyWhenEmpty | 04_parse_data.py:306-322 | a row is UNKNOWN exactly when it has no populated BHCK, BHCP or BHSP field |
| Records.KeptPartition | 04_parse_data.py:322-350 | the four type selections together hold every row once |
| Records.TableFor | 04_parse_data.py:329-333 | a table's columns are `RSSD_ID`, `REPORTING_PERIOD`, then the prefix's columns in source order, and it has one row per row of the type |
| Records.TableValuesUnderColumns | 04_parse_data.py:331-333 | each output value is the input field under the column of the same name |
| Records.Entry | 04_parse_data.py:329-334 | a schedule's entry is present exactly when some row has that type |
| Records.SplitByFiler | 04_parse_data.py:325-352 | the result lists y_9c, y_9lp and y_9sp in that order, each at most once and never UNKNOWN |
| Records.SplitHasTableExactly | 04_parse_data.py:325-352 | a schedule has a table exactly when some row is classified as it |
| Records.SplitTables | 04_parse_data.py:325-352 | every entry holds the table of its own filer type |
| Records.SplitKeepsClassifiedRows | 04_parse_data.py:325-352 | the tables' rows plus the UNKNOWN rows are all the rows |
| Records.ProcessCsv | 04_parse_data.py:232-352 | a successful parse has a readable period and a well-formed split: at most three tables, none for unclassified rows |
| Records.ProcessCsvErrors | 04_parse_data.py:259-296 | a read failure gives `ReadFailed`, a missing or repeated identifier column its error, an unreadable stem `BadFilename`, in that order; success exactly when all three stages pass |
| Records.TypedRowsOfType | 04_parse_data.py:275-322 | a classified row of a type exists exactly when a data row of the file with a numeric identifier is classified as that type |
| Records.TypedRowOrigin | 04_parse_data.py:275-322 | every classified row is a data row of the file with a numeric identifier, carrying its own classification |
| Records.TypedRowPresent | 04_parse_data.py:275-322 | every data row with a numeric identifier is among the classified rows |
| Records.ProcessCsvHasTable | 04_parse_data.py:326-352 | a filer type has a table exactly when some data row with a numeric identifier is classified as that type |
| Records.ProcessCsvRows | 04_parse_data.py:298-352 | a parsed file's tables are exactly the per-filer split of its identified data rows: each table holds its type's rows in file order under the stem's period, and the tables plus the unclassified rows account for every identified row |
| Metadata.DictOf | 04_parse_data.py:69 | the dictionary's keys are exactly the listed variables |
| Metadata.DictOfLastWins | 04_parse_data.py:69 | a later pair for the same variable overrides an earlier one |
| Metadata.DictionaryCache.Load | 04_parse_data.py:57-73 | a hit on the same path returns the cache; otherwise a readable file is loaded and cached, and a missing or unreadable one gives `{}` and leaves the cache |
| Metadata.FieldsOf | 04_parse_data.py:91 | the table's fields are its columns, without metadata |
| Metadata.AnnotatedSchema | 04_parse_data.py:93-109 | a field the dictionary names gets its description, others and the order stay, and a missing description fails on that field |
| Metadata.AnnotateSchema | 04_parse_data.py:96-105 | the schema loop computes `AnnotatedSchema` |
| Metadata.EmptyDictionaryChangesNothing | 04_parse_data.py:94 | an empty dictionary leaves the schema unchanged |
| Metadata.AnnotateIdempotent | 04_parse_data.py:93-109 | annotating an annotated schema again changes nothing |
| Batch.ReportOf | 04_parse_data.py:167-177 | a report exists exactly when the file is an archive with a `BHCF*.TXT` member, and it is the content of the first such member |
| Batch.ExtractOne | 04_parse_data.py:136-191 | one archive changes the state exactly when it has a stamp, its CSV is absent, it exists and it holds a report; the CSV is then added with that report |
| Batch.ExtractAll | 04_parse_data.py:127-193 | extraction adds only new CSVs, each holding an archive's report, keeps existing files and lists each new CSV once |
| Batch.ExtractAllComplete | 04_parse_data.py:127-193 | the first archive that yields a CSV not already present has its report extracted under that name |
| Batch.ExtractOneKeeps | 04_parse_data.py:158-163 | a later archive never overwrites a CSV already extracted |
| Batch.ExtractLast | 04_parse_data.py:136-191 | the last archive yields its CSV when no earlier archive did |
| Batch.ExtractArchive | 04_parse_data.py:134-191 | one loop pass changes the directory as `ExtractOne` says, so as its contract states |
| Batch.ExtractZipFiles | 04_parse_data.py:115-193 | the directory ends as `ExtractAll` says and the returned list is its new CSVs, so it is sound and, by `ExtractAllComplete`, complete |
| Batch.ValidAfterExtraction | 04_parse_data.py:115-193 | the listing and the files agree after extraction |
| Batch.ExtractedQuarter | 04_parse_data.py:155-157 | every extracted CSV reads back as a quarter |
| Batch.ParquetStore.Write | 04_parse_data.py:112 | writing replaces the table at that path |
| Batch.TableWrite | 04_parse_data.py:386-395 | the table goes to `<key>/<quarter>.parquet` with `columns − 2` variables, and fails exactly when a named field lacks a description |
| Batch.WriteTables | 04_parse_data.py:384-396 | tables are written in order, all of them unless a write fails |
| Batch.WriteTablesWritten | 04_parse_data.py:386-396 | each write and summary is the successful `TableWrite` of the table at its position |
| Batch.WriteTablesFailure | 04_parse_data.py:386-396 | a failure is the failed `TableWrite` of the first table not written |
| Batch.WriteTablesFails | 04_parse_data.py:386-396 | writing fails exactly when some table cannot be written |
| Batch.WriteStep | 04_parse_data.py:386-396 | one more table either ends the writing with its failure or extends the writes and summaries |
| Batch.WritesAtOutputPaths | 04_parse_data.py:388-393 | every write lands at its filer type's path |
| Batch.FileOutcome | 04_parse_data.py:355-403 | success carries the name's quarter and 1 to 3 writes with a summary each; a reported error is "No data found" and writes nothing; every other error reports no quarter, and only a failed write leaves writes behind |
| Batch.FileOutcomeUnprocessed | 04_parse_data.py:355-403 | a file that is not text, or whose parse fails, is reported without a quarter (so `main` lists its name) and writes nothing |
| Batch.WrittenOutcome | 04_parse_data.py:384-403 | after the writes, success carries the quarter and one write and summary per table; a write error reports no quarter |
| Batch.FileOutcomeCases | 04_parse_data.py:355-403 | an unreadable name is reported without a quarter; an empty parse reports the quarter and "No data found"; success exactly when the parse gives tables and every write succeeds, each write then the table's with summary (key, rows, columns - 2) |
| Batch.WriteTable | 04_parse_data.py:76-112 | one call stores `TableWrite`'s table and keeps the cache consistent |
| Batch.WriteAllTables | 04_parse_data.py:386-396 | the write loop performs `WriteTables` |
| Batch.ProcessFile | 04_parse_data.py:355-403 | the wrapper's result and writes are `FileOutcome`'s |
| Batch.WriteParsed | 04_parse_data.py:384-398 | the writes of a parsed file and its result are `WrittenOutcome`'s |
| Batch.WriteTablesStops | 04_parse_data.py:386-403 | after a failed write the later tables change nothing |
| Batch.FilterByYear | 04_parse_data.py:504-516 | the year loop keeps exactly the files `YearFiltered` keeps |
| Batch.ToProcessSelects | 04_parse_data.py:499-518 | the files processed are sorted, are listed CSVs of either spelling and pass the year filter |
| Batch.Tallied | 04_parse_data.py:557-567 | successful is the quarters of the successful files and failed the labels (reported quarter or file name) of the failed ones, both in file order; every file lands in one list; failed is empty exactly when all succeed |
| Batch.SucceededSnoc | 04_parse_data.py:557-561 | a further file adds its quarter to the successes exactly when it succeeded |
| Batch.FailedSnoc | 04_parse_data.py:557-567 | a further file adds its label to the failures exactly when it failed |
| Batch.RunFiles | 04_parse_data.py:554-568 | the run's successful and failed lists are those of the files' outcomes in order; every file counted once; no failures exactly when every outcome succeeds |
| Batch.ProcessAll | 04_parse_data.py:557-568 | the sequential loop computes `RunFiles` and performs the writes |
| Batch.RunParse | 04_parse_data.py:480-636 | exit 1 without input directory or files, otherwise exit 0 exactly when no file failed |
| Download.FormatQuarterCode | download.py:94-107 | the code is 3 or 4 characters and ends with the quarter's month code |
| Download.FormatQuarterCodeDigits | download.py:105-107 | for a year of two or more digits the code is year mod 100 then the month code |
| Download.FormatQuarterCodeExamples | download.py:103-107 | (1986, 3) gives "8609" and (2021, 1) gives "2103" |
| Download.MonthCodeReadsBack | download.py:55 | a quarter's month code is read back as that quarter |
| Download.FormatQuarterCodeRoundTrip | download.py:136-137 | for 1950..2049 the file name reads back as (year, quarter, "{year}Q{quarter}") |
| Download.ExtractedQuarterFormatsBack | download.py:105-107 | a period read from `bhcfYYMM` formats back to `YYMM` |
| Download.QuarterFileReadsBack | download.py:136-137 | in the window the file name reads back as its quarter |
| Download.QuarterFileInjective | download.py:136-138 | two quarters of the window never share a file |
| Download.QuarterDownload | download.py:109-170 | False without change outside the window; True without change when the file exists; otherwise the request's outcome as `Retrieve` states; True only with the file present; never overwrites; writes only the quarter's file |
| Download.PartialFileCountsAsDownloaded | download.py:141-156 | after a stream error the partial file makes the next attempt return True |
| Download.QuarterListMembers | download.py:172-213 | the list holds exactly the quarters from start to end inclusive, other than 1986 Q1 and Q2 |
| Download.QuarterListIncreasing | download.py:193-211 | the list is strictly increasing in (year, quarter) order |
| Download.QuarterListEmptyAndEarly | download.py:193-211 | a start year after the end year gives [], and 1986 Q1 and Q2 are never listed |
| Download.GenerateQuarterList | download.py:172-213 | the nested loops produce `QuarterList` |
| Download.RunQuarters | download.py:254-262 | one outcome per quarter, and no existing file is changed |
| Download.RunQuartersNewFiles | download.py:254-262 | every new file is the file of a listed quarter of the window |
| Download.SelectPartition | download.py:248-262 | successful and failed together hold every quarter exactly once |
| Download.SelectMembers | download.py:259-262 | a quarter is in a list exactly when one of its attempts had that outcome |
| Download.OutsideWindowAllFail | download.py:121-133 | quarters outside the window all fail and write nothing |
| Download.DefaultRangeIsWindow | download.py:234-241 | without years the range is exactly the data window |
| Download.RangeQuarters | download.py:234-244 | the defaults are applied and the list is `QuarterList` of the bounds |
| Download.Downloader.DownloadQuarter | download.py:109-170 | the method does what `QuarterDownload` says to the output directory |
| Download.Retrieve | download.py:150-170 | a full body is written and gives True; an HTTP or request error gives False and writes nothing; a broken stream gives False and leaves what arrived; no other file changes |
| Download.Downloader.RetrieveFile | download.py:150-170 | the request and the write change the output directory as `Retrieve` says |
| Download.Downloader.DownloadRange | download.py:215-268 | successful and failed are the split of the run over the range, skipped is [] |
| Download.Downloader.DownloadEach | download.py:254-262 | the loop downloads the quarters in order as `RunQuarters` says |
| Mdrm.Replace | 03_parse_dictionary.py:48-51 | replacing by a text no longer than the pattern does not lengthen the text |
| Mdrm.Collapse | 03_parse_dictionary.py:54 | after `\s+`→space every whitespace is a single space and none is doubled |
| Mdrm.CleanDescription | 03_parse_dictionary.py:27-56 | every result has no `\r`, `\n` or `&#x0D;`, no whitespace at either end, no whitespace other than single spaces |
| Mdrm.NormalizeNormalized | 03_parse_dictionary.py:48-54 | the whitespace steps always produce a normalised text |
| Mdrm.NormalizeIdempotent | 03_parse_dictionary.py:48-54 | the whitespace steps applied twice equal them applied once |
| Mdrm.NormalizeFixes | 03_parse_dictionary.py:48-54 | a normalised text is left unchanged |
| Mdrm.ReplaceAbsent | 03_parse_dictionary.py:48-51 | replacing a pattern that does not occur changes nothing |
| Mdrm.CollapseSingleSpaces | 03_parse_dictionary.py:54 | text whose whitespace is single spaces is left alone |
| Mdrm.VariableOf | 03_parse_dictionary.py:95 | the variable exists exactly when mnemonic and item code do, and starts with the mnemonic |
| Mdrm.Candidates | 03_parse_dictionary.py:90-102 | exactly the BHCK/BHCP/BHSP rows of the listing are candidates, each with its variable and parsed end date |
| Mdrm.ByEndDateOrder | 03_parse_dictionary.py:98-106 | end dates never increase along the sorted rows, and unparsable dates come last |
| Mdrm.KeepFirst | 03_parse_dictionary.py:107 | the kept rows come from the input and no two share a variable |
| Mdrm.KeepFirstKeepsLatest | 03_parse_dictionary.py:104-107 | on a latest-first list every variable is kept through a row no older than any duplicate |
| Mdrm.LatestDefinitionKept | 03_parse_dictionary.py:98-107 | every FR Y-9 row's variable is kept with an end date no earlier than that row's |
| Mdrm.LatestDefinitionsFromRows | 03_parse_dictionary.py:90-107 | every kept row is a BHCK/BHCP/BHSP row of the listing |
| Mdrm.EntryOf | 03_parse_dictionary.py:111-134 | an output row keeps the variable and mnemonic and has cleaned name and description |
| Mdrm.VariableOrderIsTotalPreorder | 03_parse_dictionary.py:136 | ordering by variable is total and transitive |
| Mdrm.Dictionary | 03_parse_dictionary.py:88-136 | the dictionary is a permutation of the cleaned latest definitions |
| Mdrm.DictionarySortedUnique | 03_parse_dictionary.py:106-136 | the dictionary is sorted by variable and each variable appears once |
| Mdrm.DictionaryEntries | 03_parse_dictionary.py:90-136 | every entry has mnemonic BHCK, BHCP or BHSP, a variable starting with it, and cleaned texts |
| Mdrm.DictionaryComplete | 03_parse_dictionary.py:90-136 | every FR Y-9 row's variable has an entry |
| Mdrm.DictionaryCounts | 03_parse_dictionary.py:158-167 | the per-mnemonic counts add up to the total |
| Globs.Glob | cleanup.py:42 | a name is listed exactly when the directory holds it and it matches the pattern |
| Cleanup.GlobIn | cleanup.py:75-78 | a path is listed exactly when it is in the directory and its name matches the pattern |
| Cleanup.ExtractedCsvName | cleanup.py:46-55 | a ZIP name maps to a CSV exactly when its year and month can be read, and the CSV is `bhcf` + 4 characters + `.csv` |
| Cleanup.ExtractedCsvNameReadsBack | cleanup.py:50-55 | the CSV name carries the year modulo 100 and the month as two digits each |
| Cleanup.ExtractedCsvNameAgrees | cleanup.py:46-55 | for quarter-end months the CSV is the one extraction writes |
| Cleanup.ExtractedCsvNameAnyMonth | cleanup.py:50-55 | a month outside 03/06/09/12 is still mapped to a CSV, unlike extraction |
| Cleanup.ZipsIn | cleanup.py:42 | the ZIPs are the listed `BHCF*.zip` and `bhcf*.zip` names |
| Cleanup.ExtractedFromMembers | cleanup.py:40-61 | a path is returned exactly when it exists and is the CSV of a listed ZIP |
| Cleanup.ExtractedFromAreCsvs | cleanup.py:53-59 | every returned path is an existing `.csv` of the raw directory |
| Cleanup.RawFilesIn | cleanup.py:64-79 | the raw files are the listed `bhcf*`/`BHCF*` `.csv` and `.zip` names |
| Cleanup.ProcessedFilesIn | cleanup.py:82-97 | every processed file is a `.parquet` of y_9c, y_9lp or y_9sp |
| Cleanup.ProcessedFilesComplete | cleanup.py:92-96 | every `.parquet` listed in an existing y_9c, y_9lp or y_9sp subdirectory is found |
| Cleanup.DeleteRun | cleanup.py:111-134 | the count never exceeds the number of listed paths |
| Cleanup.DryRunKeepsFiles | cleanup.py:125-132 | a dry run leaves the file map unchanged |
| Cleanup.DeleteRemovesListed | cleanup.py:125-132 | a real run removes exactly the listed paths and leaves every other file and size |
| Cleanup.DryRunReports | cleanup.py:122-134 | a dry run reports the listed paths that exist and the sum of their sizes |
| Cleanup.DryRunPredictsDelete | cleanup.py:111-134 | without repeated paths the dry run's count and bytes equal the real run's |
| Cleanup.RepeatedPathOverReported | cleanup.py:125-132 | a path listed twice is counted twice by a dry run but once by a real run |
| Cleanup.UnitOf | cleanup.py:100-108 | the unit is the largest the size reaches, and below a gigabyte the size is under 1024 of it |
| Cleanup.RoundHalfEven | cleanup.py:103-107 | the result is the nearest integer to the quotient, ties to even |
| Cleanup.FormatSizeReadsBack | cleanup.py:100-108 | the shown figure reads back as the size in its unit to within half a hundredth; below 1 KB it is the exact byte count |
| Cleanup.FormatSizeJustBelowGB | cleanup.py:102-105 | one byte short of a gigabyte is shown in MB as 1024.00 |
| Cleanup.RawSupersedesExtracted | cleanup.py:220 | with `--raw`, `--extracted` makes no difference |
| Cleanup.DryRunChangesNothing | cleanup.py:213-284 | `--dry-run` leaves every file in place |
| Cleanup.ExtractedKeepsZips | cleanup.py:219-239 | `--extracted` alone keeps every ZIP and every file outside the raw directory |
| Cleanup.FileSystem.GetExtractedCsvs | cleanup.py:27-61 | the loop returns `ExtractedFrom` of the listed ZIPs |
| Cleanup.FileSystem.DeleteFiles | cleanup.py:111-134 | count, bytes and the new file map are those of `DeleteRun` |
| Cleanup.FileSystem.CleanCategory | cleanup.py:219-284 | one category deletes its batch as `DeleteRun` says |
| Cleanup.FileSystem.Clean | cleanup.py:200-294 | exit 1 and nothing touched exactly when no category is given; otherwise totals and files are `Outcome`'s |

## Left out

- Printing, logging, `argparse` wiring, `mkdir`, progress messages and the
  summary prints of every script are not modelled.
- `pd.read_csv` is a parameter of the model (`Records.Reader`). Its
  UTF-8/latin-1 fallback, the malformed-row retry and `low_memory` are the
  library's behaviour.
- pyarrow and parquet I/O are not modelled: the schema cast, Snappy
  compression and the writes of the dictionary's parquet and CSV files.
  Written tables are values in a map.
- `ProcessPoolExecutor` / `as_completed` are not modelled. `Batch.RunParse`
  models `main` with one worker, the sequential loop of
  04_parse_data.py:557-568. The parallel loop of 04_parse_data.py:570-606 is
  the default (`cpu_count()` workers unless `--no-parallel`,
  04_parse_data.py:525-530), and it differs from the model in three ways:
  - its successful and failed lists follow completion order, not the sorted
    file order;
  - an exception from `future.result()` (a worker that dies, or a result
    that cannot be returned) is caught and the file is listed as failed by
    name, a path the sequential loop and the model do not have;
  - two files of the same quarter (`bhcf2103.csv` and `BHCF2103.csv`, both
    globbed at 04_parse_data.py:500-501) write the same
    `y_9c/2021Q1.parquet` concurrently, so which table remains is not
    fixed, while in the model the later name in sorted order wins.
- The HTTP session, its retry adapter, timeouts and `time.sleep` are not
  modelled. A request's outcome is a parameter (`Download.Network`).
- The `zipfile` reading and writing is not modelled. An archive is the list
  of its members.
- `html.unescape` and `pd.to_datetime` are parameters of the model
  (`Mdrm.CleanDescription`, `Mdrm.DateParser`). Idempotence is claimed for
  the whitespace steps only, since unescaping twice can decode twice.
- Text.IsDigit: only `0`-`9` count as digits. Python's `\d` also matches
  the other Unicode decimal digits, which the ZIP and CSV name patterns
  would then accept.
- Text.LowerChar: maps only `A`-`Z`. Python's `str.lower` also maps
  non-ASCII letters; file names are ASCII in practice.
- Text.UpperChar: maps only `a`-`z`. Python's `str.upper` also maps
  non-ASCII letters and can lengthen a string (`ß` becomes `SS`).
- Text.Lower: the ASCII mapping of `Text.LowerChar`, not Unicode's.
- Text.Upper: the ASCII mapping of `Text.UpperChar`, not Unicode's, so
  column names with non-ASCII letters are normalised differently.
- Records.IdentifierValue: only non-empty ASCII digit strings count as
  numeric. `pd.to_numeric` also accepts signs, decimals and exponents, which
  go through floats.
- Mdrm.ByEndDate: pandas' default sort is not stable. The model sorts
  stably, so which of several rows with the same end date survives
  deduplication is a choice of the model. The final sort by variable is not
  affected, because variables are unique by then.
- Cleanup.FormatSize: the figure is the exact quotient rounded half to even.
  That matches Python's float formatting only while the byte count is below
  2^53.
- Cleanup.FileSystem.Clean: directory listings are taken as they stand at
  the start. No category deletes files another category lists later.
- Download.Downloader.DownloadRange: the quarters must be in 1..4, as
  `main`'s `choices` guarantee. A direct call with `end_quarter=None` and an
  end year raises in `range`, which is not modelled.
- download.py's `main` exit code and summary are not modelled.
- `03_parse_dictionary.py`'s check for a missing input file and its `main`
  are not modelled. `02_download_dictionary.py` and `summarize.py` are not
  part of this model.
