# Spreadsheet import, header normalisation and CSV export — a Dafny model

This project models the decision-making core of a small spreadsheet-to-CSV converter:

- **Import.** `src/importer.ts` takes a raw cell matrix and does four things:
  - it guesses which of the first 40 rows is the header row, scoring each row as a header candidate and keeping the first best score;
  - it names the columns of the chosen row, refusing a row with no name at all and naming each blank name by its 1-based position, `Колонка i+1`;
  - it turns the rows below the header into records keyed by those names;
  - it drops blank-named columns and rows with no non-blank value.
- **Normalisation.** `src/normalize.ts` takes a table whose header row was already chosen:
  - it cleans the names, removing `__empty` placeholders;
  - it re-scans the first 25 rows for a row that scores as a confident header;
  - when it finds one, it re-bases the table onto that row;
  - otherwise it falls back to the cleaned names.
  - Either way it drops rows that are mostly empty.
- **Export.** `src/exporter.ts` writes a table as CSV text:
  - cells are quoted as items 6 and 7 of section 2 of RFC 4180 describe, with a configurable delimiter;
  - lines are separated by CRLF;
  - the text may start with a byte order mark.

Every operation the source writes as a loop is a Dafny `method` with a loop. Each is proved against a specification function. Properties of that function are then proved as lemmas:

- argmax scans keep the first maximum;
- filters keep order and lose nothing;
- records are built by sequential insertion, so with duplicate names the last column wins;
- escaping is undone by decoding.

A small RFC 4180 reader, `CsvReader`, is defined as the partner of the exporter. The round trip `CsvRoundTrip` proves that reading the exported text gives back the header row and every row's values under the headers.

Files:

| file | module | contents |
|---|---|---|
| `text.dfy` | `Text` | `String.prototype.trim`, blank tests, decimal rendering, the positional name `Колонка n` |
| `vocabulary.dfy` | `Vocabulary` | the domain-keyword regex, the `^__empty` test, the 80-character "long" test |
| `seqs.dfy` | `Seqs` | `map`, `filter`, kept positions, counting, first maximum and the scan that finds it |
| `records.dfy` | `Records` | records (`map<string,string>`), tables, and records built by sequential insertion |
| `importer.dfy` | `Importer` | `ensureHeaders`, `scoreRowAsHeader`, `guessHeaderRowIndex`, `postProcessTable`, `matrixToTable` |
| `normalize.dfy` | `Normalize` | `isMostlyEmptyRow`, `scoreHeaderRow`, `cleanHeader`, `normalizeTable` |
| `exporter.dfy` | `Exporter` | `escapeCsvCell`, `tableToCsv` |
| `csv_reader.dfy` | `CsvReader` | an RFC 4180 reader and the round trip through the exporter |

Modelling notes:

- Cells are `string`s. A missing cell, or a key a record lacks, reads as `""`, which is how `?? ""` behaves.
- Thrown errors become `Result.Err` with one constructor per message:
  - `NoHeaders` when there are no headers to choose;
  - `EmptySheet` when the sheet is empty.
- `-Infinity` in the scans becomes `BestScore.NegInfinity`.
- The two scoring functions share their per-value adjustments (`Importer.Adjustments`). They differ only in the long-text penalty and in the early rejection.
- In the fallback branch of `normalizeTable`, the returned header names are the cleaned (trimmed) names. The rows, however, are keyed by the original, untrimmed names (src/normalize.ts:101). The model keeps this behaviour. `Normalize.FallbackKeysMatchTrimmedHeaders` proves the two agree when every input name is already trimmed, which holds for tables built by `matrixToTable`.

## Model

| member | source | states |
|---|---|---|
| `Importer.EnsureHeaders` | src/importer.ts:13-19 | it fails (with `NoHeaders`) exactly when the list is empty or every trimmed name is empty; otherwise there is one name per input position: the trimmed name, or `Колонка i+1` when it is blank |
| `Importer.EnsureHeadersNamesClean` | src/importer.ts:14-18 | every accepted name is non-empty and already trimmed |
| `Importer.EnsureHeadersOfTrimmed` | src/importer.ts:114-115 | trimming the header row first (as `matrixToTable` does) changes neither the outcome of `ensureHeaders` nor whether the row is all blank |
| `Importer.AdjustmentsSnoc` | src/importer.ts:28-33 | one more value in the loop adds exactly its keyword bonus (+6), placeholder penalty (−10) and long-text penalty |
| `Importer.ScoreRowAsHeader` | src/importer.ts:21-35 | the loop computes −999 for fewer than 3 non-blank values, otherwise min(distinct values, 24) + 6·keyword hits − 10·`__empty` hits − 3·(values longer than 80) |
| `Importer.RowAsHeaderScoreBound` | src/importer.ts:21-35 | the score is at most 24 + 6·(non-blank values) |
| `Importer.CleanRowBeatsSparseRow` | src/importer.ts:22-26 | a row with at least 3 non-blank values, none a placeholder or long, scores at least 1, so it beats any row rejected as sparse |
| `Importer.GuessHeaderRowIndex` | src/importer.ts:94-109 | 0 for an empty matrix; otherwise the first position of the maximal score among the first min(len, 40) rows (an index below that bound, scoring at least every scanned row, and strictly more than every earlier one) |
| `Importer.ProjectRowSpec` | src/importer.ts:46-49 | the record `postProcessTable` builds for a row has exactly the kept names as keys, each holding the row's value or "" |
| `Importer.KeepNamedColumns` | src/importer.ts:39-43 | the `keepIdx` loop yields the trimmed non-blank names, in order |
| `Importer.KeepFilledRows` | src/importer.ts:45-51 | the rows loop yields the re-keyed rows that keep a non-blank value, in order |
| `Importer.PostProcessTable` | src/importer.ts:37-54 | the method computes `postProcessTable`; its output is no larger than its input, and every row has a non-blank value and exactly the output names as keys |
| `Importer.PostProcessedRowsKeyed` | src/importer.ts:45-51 | every output row has a non-blank value and is keyed by exactly the output names |
| `Importer.PostProcessHeaders` | src/importer.ts:39-43 | the output names are exactly the trimmed non-blank input names, in their original order, none lost |
| `Importer.PostProcessRows` | src/importer.ts:45-51 | the output rows are exactly the re-keyed input rows with a non-blank value, in their original order, none lost |
| `Importer.DataRecordCells` | src/importer.ts:119-123 | under each name, a data record holds the cell of the last column with that name, or "" when the row is too short |
| `Importer.PostProcessAfterImport` | src/importer.ts:127 | on the names and rows `matrixToTable` builds, `postProcessTable` changes nothing |
| `Importer.ImportedTableShape` | src/importer.ts:111-128 | an accepted import has an in-range header row and keeps the filled records of the rows below it unchanged |
| `Importer.ImportedRowsFromData` | src/importer.ts:117-125 | the imported rows are the records of rows strictly after the header row that hold a non-blank value, in matrix order, none lost, at most len − index − 1 of them |
| `Importer.ImportedTableOutcome` | src/importer.ts:111-128 | the import fails exactly when the matrix is empty (`EmptySheet`, and only then), the index is out of range, or the chosen row is all blank; otherwise there is one name per header cell, and every row has content and exactly those names as keys |
| `Importer.CollectDataRows` | src/importer.ts:119-125 | the record loop yields the records of the data rows that have a non-blank value, in order |
| `Importer.MatrixToTable` | src/importer.ts:111-128 | the method computes the import outcome, errors included |
| `Records.FillRecord` | src/importer.ts:121-123 | filling a record name by name gives exactly the names as keys, the later of two equal names overwriting the earlier |
| `Records.BuildRecordSpec` | src/importer.ts:122 | a record built by insertion has exactly the names as keys, and under each name the value at its last occurrence |
| `Text.FallbackNameInjective` | src/importer.ts:18 | distinct positions get distinct `Колонка n` names |
| `Normalize.FillThreshold` | src/normalize.ts:9 | the threshold is at least 1 and at most max(1, 6% of the names); it is 1 exactly for fewer than 34 names |
| `Normalize.CountFilled` | src/normalize.ts:4-8 | the loop counts the names under which the row holds a non-blank value |
| `Normalize.IsMostlyEmptyRow` | src/normalize.ts:3-10 | the method decides `filled <= max(1, floor(0.06·n))`; a row with 0 or 1 filled cells is always mostly empty |
| `Normalize.FullRowIsKept` | src/normalize.ts:3-10 | a row filled under all of at least two names is never mostly empty |
| `Normalize.ScoreHeaderRow` | src/normalize.ts:12-31 | the loop computes min(distinct values, 24) + 6·keyword hits − 4·(values longer than 80) − 10·`__empty` hits, with no early rejection |
| `Normalize.HeaderRowScoreBound` | src/normalize.ts:12-31 | the score is at most 24 + 6·(non-blank values), and 0 for a row with no non-blank value |
| `Normalize.ScorersAgree` | src/normalize.ts:12-31 | on a row with at least 3 values, this score is the importer's score less one point per long value, so never above it |
| `Normalize.DiverseRowIsConfident` | src/normalize.ts:69 | a row with at least 8 distinct non-blank values, none a placeholder or long, reaches the acceptance score 8 |
| `Normalize.CleanHeader` | src/normalize.ts:33-37 | the result is "" exactly when the trimmed name is blank or starts with `__empty` (any case); otherwise it is the trimmed name; it is never a placeholder |
| `Normalize.CleanHeaderIdempotent` | src/normalize.ts:33-37 | cleaning twice equals cleaning once, and a cleaned name is trimmed |
| `Normalize.HeaderMapValid` | src/normalize.ts:43-45 | each kept column points into the input names, and its title is that name cleaned and non-empty |
| `Normalize.HeaderMapTitles` | src/normalize.ts:43-47 | the titles are the non-empty cleaned names, in order |
| `Normalize.ChosenHeaderRow` | src/normalize.ts:54-69 | a row is chosen only if it is the first maximum among the first min(rows, 25) scores and scores at least 8; none is chosen exactly when every scanned score is below 8 |
| `Normalize.ScanForHeaderRow` | src/normalize.ts:54-66 | the scan yields −1 and `-Infinity` for no rows; otherwise the first position of the maximal score among the first min(rows, 25) rows, and that score |
| `Normalize.RebasedName` | src/normalize.ts:72-75 | a re-based name is never empty: the trimmed value, or `Колонка j+1` when it is blank or a placeholder |
| `Normalize.Rebased` | src/normalize.ts:69-94 | the re-based table has one non-empty name per kept column and no more rows than follow the header row |
| `Normalize.RebasedHeadersSpec` | src/normalize.ts:70-75 | name j is the trimmed value the chosen row holds under kept column j's source name, or `Колонка j+1`, where j counts kept columns, not original positions |
| `Normalize.RebasedRows` | src/normalize.ts:77-88 | the output rows are exactly the rows after the chosen one that are not mostly empty, in order; each is keyed by exactly the new names and holds under each name the value of the last kept column with that name (read through that column's source name `input.headers[headerMap[j].idx]`) |
| `Normalize.Fallback` | src/normalize.ts:96-105 | the fallback table has one non-empty name per kept column and no more rows than its input |
| `Normalize.FallbackHeaders` | src/normalize.ts:96-105 | the fallback names are the non-empty cleaned names, in order |
| `Normalize.FallbackRows` | src/normalize.ts:97-103 | the fallback rows are exactly the rows that are not mostly empty, in order, keyed by the original uncleaned names of the kept columns |
| `Normalize.FallbackKeysMatchTrimmedHeaders` | src/normalize.ts:101-105 | the row keys equal the returned names when every input name is already trimmed |
| `Normalize.DropMostlyEmptyRows` | src/normalize.ts:77-79 | the filter keeps the rows that are not mostly empty, in order |
| `Normalize.RekeyRows` | src/normalize.ts:81-88 | the record loop fills one record per row under the given names from the given source names |
| `Normalize.RebaseTable` | src/normalize.ts:69-94 | the re-basing branch computes the re-based table |
| `Normalize.FallbackTable` | src/normalize.ts:96-105 | the fallback branch computes the fallback table |
| `Normalize.NormalizeTable` | src/normalize.ts:39-106 | the input is returned unchanged when fewer than 3 names survive cleaning; otherwise the result has one non-empty name per kept column and no more rows than the input, by re-basing or by fallback |
| `Exporter.ChosenDelimiter` | src/exporter.ts:19 | the delimiter is `;` when none is given, otherwise the one given |
| `Exporter.DoubleQuotes` | src/exporter.ts:10 | doubling never shortens, and a value without `"` is unchanged |
| `Exporter.EscapeCsvCell` | src/exporter.ts:6-12 | the cell is wrapped in double quotes exactly when the value holds `"`, LF, CR or the delimiter; inside are the value's characters with `"` doubled; otherwise it is the value unchanged |
| `Exporter.DecodeEscapedCell` | src/exporter.ts:6-12 | stripping the quotes of a quoted cell and undoubling `""` gives back the value |
| `Exporter.CsvText` | src/exporter.ts:29-31 | with `includeBom` the text is U+FEFF followed by the header line and one line per row joined by CRLF; without it, exactly those joined lines |
| `Exporter.TableToCsv` | src/exporter.ts:14-32 | the loop collects the header line and one line per row (each the escaped values under the headers, in header order, joined by the delimiter) and the method returns the specified text |
| `Exporter.MissingKeyEmptyCell` | src/exporter.ts:25 | a header the row lacks yields an empty cell in its line |
| `CsvReader.FieldRoundTrip` | src/exporter.ts:6-12 | reading an escaped cell followed by a delimiter, CR or end of text gives back the value |
| `CsvReader.RecordRoundTrip` | src/exporter.ts:22-25 | reading a line gives back its values |
| `CsvReader.RecordsRoundTrip` | src/exporter.ts:29 | reading lines joined by CRLF gives back every record |
| `CsvReader.CsvRoundTrip` | src/exporter.ts:14-32 | reading the exported text after its optional byte order mark gives the header row, then each row's values under the headers, when there is at least one header |

## Left out

- `parseCsv`, `getXlsxMeta`, `readXlsxMatrix` and `parseFileSmart` (src/importer.ts) are not modelled. They do asynchronous `File` I/O and wrap the `papaparse` and `xlsx` libraries; the model takes their result, the raw cell matrix, as input.
- `downloadTextFile` (src/exporter.ts) is not modelled; it is Blob, URL and DOM plumbing.
- src/app/App.tsx (the user interface) is not part of this model.
- Cells of any type: JavaScript's `toString` coercion of non-string cells is not modelled. Cells are strings, and `null`/`undefined` cells and missing rows are `""`/`[]`.
- `Normalize.FillThreshold`: `Math.floor(n * 0.06)` is computed in exact integers as `(n * 6) / 100`; floating-point arithmetic itself is not modelled. The two agree for every possible array length (below 2^32). When n is a multiple of 50, the product rounds back to the exact integer 6n/100. For any other n, 6n/100 is at least 0.02 away from an integer, far more than the rounding error.
- String length is counted in Unicode scalar values, not UTF-16 code units. The 80-character "long" test therefore differs for characters outside the Basic Multilingual Plane.
- The case-insensitive keyword and `^__empty` regexes fold case only for the characters that can match their letters: ASCII, basic Cyrillic and U+1C80–U+1C86. Other case-folding rules of the regex engine are not modelled.
- `String.prototype.trim` strips the JavaScript white-space and line-terminator set, written out in `Text.IsTrimmable`.
- Records are plain maps. Keys with special meaning on JavaScript objects (`__proto__` and the like) are not modelled.
- Filtering of "helper text" rows and dropping of long-text rows are not modelled, because the code does not do them (src/normalize.ts:90-91).
- The CSV text has no CRLF after its last line: the code only joins the lines with CRLF (src/exporter.ts:29), and the model follows the code. Section 2 items 1 and 2 of RFC 4180 allow the last record to end with or without a line break.
- `CsvReader.CsvRoundTrip`: the reader is specified only on text the exporter writes, with at least one header. A header list of no names writes an empty line that reads back as one empty cell.
