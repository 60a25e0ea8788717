/** The import side of src/importer.ts: naming the columns of a chosen header
    row, scoring rows as header candidates, guessing the header row of a raw
    cell matrix, and building the canonical table from the matrix. */
module Importer {
  import opened Text
  import opened Vocabulary
  import opened Seqs
  import opened Records

  /** The two conditions src/importer.ts raises as exceptions. */
  datatype ImportError =
    | NoHeaders   // "there are no headers in the file (choose the header row)"
    | EmptySheet  // "the XLSX sheet is empty: no data"

  datatype Result<T> = Ok(value: T) | Err(error: ImportError)

  /** Every value is empty after trimming (vacuously true of no values). */
  predicate AllBlank(cells: seq<string>) {
    forall i :: 0 <= i < |cells| ==> IsBlank(cells[i])
  }

  // ---------------------------------------------------------------------------
  // ensureHeaders

  /** `ensureHeaders`: trims every name and refuses a header row with no name
      at all; a blank name is replaced by the 1-based positional name. */
  function EnsureHeaders(headers: seq<string>): (r: Result<seq<string>>)
    ensures r.Err? <==> |headers| == 0 || AllBlank(headers)
    ensures r.Err? ==> r.error == NoHeaders
    ensures r.Ok? ==> |r.value| == |headers|
    ensures r.Ok? ==> forall i :: 0 <= i < |headers| ==>
      if IsBlank(headers[i]) then r.value[i] == FallbackName(i) else r.value[i] == Trim(headers[i])
  {
    var clean := Map(Trim, headers);
    if |clean| == 0 || forall i :: 0 <= i < |clean| ==> clean[i] == [] then Err(NoHeaders)
    else Ok(seq(|clean|, i requires 0 <= i < |clean| => if clean[i] != [] then clean[i] else FallbackName(i)))
  }

  /** Every accepted name is non-empty and already trimmed. */
  lemma EnsureHeadersNamesClean(headers: seq<string>)
    requires EnsureHeaders(headers).Ok?
    ensures forall i :: 0 <= i < |headers| ==>
      EnsureHeaders(headers).value[i] != [] && Trim(EnsureHeaders(headers).value[i]) == EnsureHeaders(headers).value[i]
  {
    var names := EnsureHeaders(headers).value;
    forall i | 0 <= i < |headers| ensures names[i] != [] && Trim(names[i]) == names[i] {
      if IsBlank(headers[i]) {
        FallbackNameTrimmed(i);
      } else {
        TrimIdempotent(headers[i]);
      }
    }
  }

  /** Trimming the names first (as `matrixToTable` does) changes nothing. */
  lemma EnsureHeadersOfTrimmed(headers: seq<string>)
    ensures EnsureHeaders(Map(Trim, headers)) == EnsureHeaders(headers)
    ensures AllBlank(Map(Trim, headers)) <==> AllBlank(headers)
  {
    forall i | 0 <= i < |headers| ensures Trim(Map(Trim, headers)[i]) == Trim(headers[i]) {
      TrimIdempotent(headers[i]);
    }
    assert Map(Trim, Map(Trim, headers)) == Map(Trim, headers);
  }

  // ---------------------------------------------------------------------------
  // scoreRowAsHeader

  /** Score of a row with fewer than three non-blank cells. */
  const SparseRowScore: int := -999
  /** Ceiling of the distinct-value reward. */
  const DiversityCap: nat := 24
  const KeywordBonus: nat := 6
  const PlaceholderPenalty: nat := 10
  const LongCellPenalty: nat := 3

  /** The bonuses and penalties of a row's non-blank values: a bonus per
      value naming a known field, a penalty per placeholder and per value
      longer than `LongCellLength`, the last weighted by `longPenalty`. */
  function Adjustments(vals: seq<string>, longPenalty: int): int {
    KeywordBonus * Count(vals, IsKeyword)
    - PlaceholderPenalty * Count(vals, IsPlaceholder)
    - longPenalty * Count(vals, IsLong)
  }

  /** The adjustments of one value more. */
  lemma AdjustmentsSnoc(vals: seq<string>, i: nat, longPenalty: int)
    requires i < |vals|
    ensures Adjustments(vals[..i + 1], longPenalty) == Adjustments(vals[..i], longPenalty)
      + (if IsKeyword(vals[i]) then KeywordBonus else 0)
      - (if IsPlaceholder(vals[i]) then PlaceholderPenalty else 0)
      - (if IsLong(vals[i]) then longPenalty else 0)
  {
    FilterPrefixSnoc(vals, i, IsKeyword);
    FilterPrefixSnoc(vals, i, IsPlaceholder);
    FilterPrefixSnoc(vals, i, IsLong);
    var c := Count(vals[..i], IsLong);
    if IsLong(vals[i]) {
      assert Count(vals[..i + 1], IsLong) == c + 1;
      assert longPenalty * (c + 1) == longPenalty * c + longPenalty;
    } else {
      assert Count(vals[..i + 1], IsLong) == c;
    }
  }

  /** The header plausibility of a raw row, as `scoreRowAsHeader` computes it. */
  function RowAsHeaderScore(cells: seq<string>): int {
    var vals := NonBlankValues(cells);
    if |vals| < 3 then SparseRowScore
    else Min(|Distinct(vals)|, DiversityCap) + Adjustments(vals, LongCellPenalty)
  }

  /** `scoreRowAsHeader`: accumulates the per-cell bonuses and penalties. */
  method ScoreRowAsHeader(cells: seq<string>) returns (score: int)
    ensures score == RowAsHeaderScore(cells)
  {
    var vals := NonBlankValues(cells);
    if |vals| < 3 {
      return SparseRowScore;
    }
    var base := Min(|Distinct(vals)|, DiversityCap);
    score := 0;
    score := score + base;
    var i := 0;
    while i < |vals|
      invariant 0 <= i <= |vals|
      invariant score == base + Adjustments(vals[..i], LongCellPenalty)
    {
      var v := vals[i];
      AdjustmentsSnoc(vals, i, LongCellPenalty);
      if IsKeyword(v) {
        score := score + KeywordBonus;
      }
      if IsPlaceholder(v) {
        score := score - PlaceholderPenalty;
      }
      if |v| > LongCellLength {
        score := score - LongCellPenalty;
      }
      i := i + 1;
    }
    assert vals[..i] == vals;
  }

  /** No row scores above the diversity cap plus a keyword bonus per
      non-blank cell. */
  lemma RowAsHeaderScoreBound(cells: seq<string>)
    ensures RowAsHeaderScore(cells) <= DiversityCap + KeywordBonus * |NonBlankValues(cells)|
  {
  }

  /** A row with at least three non-blank cells, none a placeholder or free
      text, scores at least 1, so it always beats a sparse row. */
  lemma {:induction false} CleanRowBeatsSparseRow(cells: seq<string>)
    requires |NonBlankValues(cells)| >= 3
    requires forall v :: v in NonBlankValues(cells) ==> !IsPlaceholder(v) && !IsLong(v)
    ensures RowAsHeaderScore(cells) >= 1 > SparseRowScore
  {
    var vals := NonBlankValues(cells);
    assert forall i :: 0 <= i < |vals| ==> vals[i] in vals;
    FilterNone(vals, IsPlaceholder);
    FilterNone(vals, IsLong);
    assert vals[0] in Distinct(vals);
  }

  // ---------------------------------------------------------------------------
  // guessHeaderRowIndex

  /** How many leading rows are considered as header candidates. */
  const HeaderScanLimit: nat := 40

  /** The scores of the scanned rows. */
  function ScanScores(matrix: seq<seq<string>>): (s: seq<int>)
    ensures |s| == Min(|matrix|, HeaderScanLimit)
  {
    seq(Min(|matrix|, HeaderScanLimit), i requires 0 <= i < Min(|matrix|, HeaderScanLimit) => RowAsHeaderScore(matrix[i]))
  }

  /** `guessHeaderRowIndex`: the first row with the highest score among the
      first 40 rows, or 0 for an empty matrix. */
  method GuessHeaderRowIndex(matrix: seq<seq<string>>) returns (bestIdx: nat)
    ensures |matrix| == 0 ==> bestIdx == 0
    ensures |matrix| > 0 ==> bestIdx == FirstMax(ScanScores(matrix))
  {
    var scan := Min(|matrix|, HeaderScanLimit);
    ghost var scores := ScanScores(matrix);
    bestIdx := 0;
    var bestScore := NegInfinity;
    var i := 0;
    while i < scan
      invariant Scanned(scores, i, bestIdx, bestScore)
      invariant bestIdx <= i
    {
      var s := ScoreRowAsHeader(matrix[i]);
      ScanStep(scores, i, s, bestIdx, bestScore);
      if Beats(s, bestScore) {
        bestScore := Finite(s);
        bestIdx := i;
      }
      i := i + 1;
    }
    if |matrix| > 0 {
      ScanDone(scores, i, bestIdx, bestScore);
    }
  }

  // ---------------------------------------------------------------------------
  // postProcessTable

  /** A row re-keyed by `hs`: `out[h] = (row[h] ?? "")` for each `h` in turn. */
  function ProjectRow(row: Record, hs: seq<string>): Record {
    BuildRecord(hs, LookupAll(row, hs))
  }

  function ProjectRows(rows: seq<Record>, hs: seq<string>): (r: seq<Record>)
    ensures |r| == |rows|
  {
    seq(|rows|, k requires 0 <= k < |rows| => ProjectRow(rows[k], hs))
  }

  /** The table `postProcessTable` returns. */
  function PostProcessed(t: Table): Table {
    var hs := NonBlankValues(t.headers);
    Table(hs, Filter(ProjectRows(t.rows, hs), HasContent))
  }

  /** A projected row holds, under each kept name, the value the input row
      holds under that name, or "" when it holds none. */
  lemma ProjectRowSpec(row: Record, hs: seq<string>)
    ensures ProjectRow(row, hs) == map h | h in KeySet(hs) :: Lookup(row, h)
  {
    var f := (h: string) => Lookup(row, h);
    assert LookupAll(row, hs) == Map(f, hs);
    BuildRecordByKey(hs, f);
  }

  /** The `keepIdx` loop of `postProcessTable`: the positions of the non-empty
      names, read back as the final names. */
  method KeepNamedColumns(headers: seq<string>) returns (finalHeaders: seq<string>)
    ensures finalHeaders == Filter(headers, NonEmpty)
  {
    var keepIdx: seq<nat> := [];
    var i := 0;
    while i < |headers|
      invariant 0 <= i <= |headers|
      invariant forall k :: 0 <= k < |keepIdx| ==> keepIdx[k] < i
      invariant seq(|keepIdx|, k requires 0 <= k < |keepIdx| => headers[keepIdx[k]]) == Filter(headers[..i], NonEmpty)
    {
      assert headers[..i + 1] == headers[..i] + [headers[i]];
      FilterSnoc(headers[..i], headers[i], NonEmpty);
      if headers[i] != [] {
        keepIdx := keepIdx + [i];
      }
      i := i + 1;
    }
    assert headers[..i] == headers;
    finalHeaders := seq(|keepIdx|, k requires 0 <= k < |keepIdx| => headers[keepIdx[k]]);
  }

  /** The row loop of `postProcessTable`: re-key each row by the final names
      and keep it when a value is non-blank. */
  method KeepFilledRows(rows: seq<Record>, finalHeaders: seq<string>) returns (out: seq<Record>)
    ensures out == Filter(ProjectRows(rows, finalHeaders), HasContent)
  {
    ghost var all := ProjectRows(rows, finalHeaders);
    out := [];
    var j := 0;
    while j < |rows|
      invariant 0 <= j <= |rows|
      invariant out == Filter(all[..j], HasContent)
    {
      var rec := FillRecord(finalHeaders, LookupAll(rows[j], finalHeaders));
      assert rec == all[j];
      FilterPrefixSnoc(all, j, HasContent);
      if HasContent(rec) {
        out := out + [rec];
      }
      j := j + 1;
    }
    assert all[..j] == all;
  }

  /** `postProcessTable`: drops blank column names and rows left without a
      non-blank value. */
  method PostProcessTable(t: Table) returns (r: Table)
    ensures r == PostProcessed(t)
    ensures |r.headers| <= |t.headers| && |r.rows| <= |t.rows|
    ensures forall k :: 0 <= k < |r.rows| ==> HasContent(r.rows[k]) && r.rows[k].Keys == KeySet(r.headers)
  {
    var headers := Map(Trim, t.headers);
    var finalHeaders := KeepNamedColumns(headers);
    var rows := KeepFilledRows(t.rows, finalHeaders);
    r := Table(finalHeaders, rows);
    PostProcessedRowsKeyed(t);
  }

  /** Every row `postProcessTable` returns has a non-blank value and exactly
      the returned names as keys. */
  lemma PostProcessedRowsKeyed(t: Table)
    ensures var r := PostProcessed(t);
      forall k :: 0 <= k < |r.rows| ==> HasContent(r.rows[k]) && r.rows[k].Keys == KeySet(r.headers)
  {
    var hs := NonBlankValues(t.headers);
    var all := ProjectRows(t.rows, hs);
    var rows := Filter(all, HasContent);
    FilterSound(all, HasContent);
    forall k | 0 <= k < |rows| ensures HasContent(rows[k]) && rows[k].Keys == KeySet(hs) {
      assert rows[k] in all;
      var m :| 0 <= m < |t.rows| && all[m] == rows[k];
      ProjectRowSpec(t.rows[m], hs);
    }
  }

  /** The output names are exactly the trimmed non-blank input names, each at
      the position of its source column relative to the others. */
  lemma PostProcessHeaders(t: Table)
    ensures var idx := KeptIndices(Map(Trim, t.headers), NonEmpty);
      var hs := PostProcessed(t).headers;
      && |idx| == |hs|
      && (forall k :: 0 <= k < |idx| ==> idx[k] < |t.headers| && hs[k] == Trim(t.headers[idx[k]]) && hs[k] != [])
      && (forall k, l :: 0 <= k < l < |idx| ==> idx[k] < idx[l])
      && (forall i :: 0 <= i < |t.headers| && !IsBlank(t.headers[i]) ==> i in idx)
  {
    FilterKeepsOrder(Map(Trim, t.headers), NonEmpty);
  }

  /** The output rows are the re-keyed input rows that keep a non-blank value,
      in their original relative order; no such row is lost. */
  lemma PostProcessRows(t: Table)
    ensures var hs := NonBlankValues(t.headers);
      var idx := KeptIndices(ProjectRows(t.rows, hs), HasContent);
      var rows := PostProcessed(t).rows;
      && |idx| == |rows|
      && (forall k :: 0 <= k < |idx| ==> idx[k] < |t.rows| && rows[k] == ProjectRow(t.rows[idx[k]], hs) && HasContent(rows[k]))
      && (forall k, l :: 0 <= k < l < |idx| ==> idx[k] < idx[l])
      && (forall i :: 0 <= i < |t.rows| && HasContent(ProjectRow(t.rows[i], hs)) ==> i in idx)
  {
    FilterKeepsOrder(ProjectRows(t.rows, NonBlankValues(t.headers)), HasContent);
  }

  // ---------------------------------------------------------------------------
  // matrixToTable

  /** `(matrix[headerRowIndex] || []).map(trim)`: an index outside the matrix
      yields no names at all. */
  function HeaderRowOf(matrix: seq<seq<string>>, headerRowIndex: int): seq<string> {
    if 0 <= headerRowIndex < |matrix| then Map(Trim, matrix[headerRowIndex]) else []
  }

  /** `(r?.[i] ?? "")`: a cell missing from a short row reads as "". */
  function Cell(row: seq<string>, i: nat): string {
    if i < |row| then row[i] else ""
  }

  /** The first `n` cells of a row, padded with "". */
  function Cells(row: seq<string>, n: nat): (vs: seq<string>)
    ensures |vs| == n
  {
    seq(n, i requires 0 <= i < n => Cell(row, i))
  }

  /** The record of one data row: `obj[headers[i]] = cell i` for each i in turn. */
  function DataRecord(headers: seq<string>, row: seq<string>): Record {
    BuildRecord(headers, Cells(row, |headers|))
  }

  function DataRecords(headers: seq<string>, rows: seq<seq<string>>): (r: seq<Record>)
    ensures |r| == |rows|
  {
    seq(|rows|, k requires 0 <= k < |rows| => DataRecord(headers, rows[k]))
  }

  /** The outcome of `matrixToTable(matrix, headerRowIndex)`. */
  function ImportedTable(matrix: seq<seq<string>>, headerRowIndex: int): Result<Table> {
    if |matrix| == 0 then Err(EmptySheet)
    else
      var hs := EnsureHeaders(HeaderRowOf(matrix, headerRowIndex));
      if hs.Err? then Err(hs.error)
      else Ok(PostProcessed(Table(hs.value, Filter(DataRecords(hs.value, matrix[headerRowIndex + 1..]), HasContent))))
  }

  /** Under each name a data record holds the cell of the last column with that
      name, and "" where the row is too short. */
  lemma DataRecordCells(headers: seq<string>, row: seq<string>, j: nat)
    requires IsLastOccurrence(headers, j)
    ensures headers[j] in DataRecord(headers, row)
    ensures DataRecord(headers, row)[headers[j]] == if j < |row| then row[j] else ""
  {
    BuildRecordLastWins(headers, Cells(row, |headers|), j);
  }

  /** Names that are already trimmed and non-empty are all kept. */
  lemma NonBlankOfClean(hs: seq<string>)
    requires forall i :: 0 <= i < |hs| ==> hs[i] != [] && Trim(hs[i]) == hs[i]
    ensures NonBlankValues(hs) == hs
  {
    assert Map(Trim, hs) == hs;
    FilterAll(hs, NonEmpty);
  }

  /** Re-keying a data record by its own names gives it back. */
  lemma ProjectDataRecord(hs: seq<string>, row: seq<string>)
    ensures ProjectRow(DataRecord(hs, row), hs) == DataRecord(hs, row)
  {
    BuildRecordKeys(hs, Cells(row, |hs|));
    ProjectRowSpec(DataRecord(hs, row), hs);
  }

  /** With names that are already trimmed and non-empty, the final
      `postProcessTable` pass of `matrixToTable` changes nothing. */
  lemma PostProcessAfterImport(hs: seq<string>, data: seq<seq<string>>)
    requires forall i :: 0 <= i < |hs| ==> hs[i] != [] && Trim(hs[i]) == hs[i]
    ensures var rows := Filter(DataRecords(hs, data), HasContent);
      PostProcessed(Table(hs, rows)) == Table(hs, rows)
  {
    NonBlankOfClean(hs);
    var all := DataRecords(hs, data);
    var rows := Filter(all, HasContent);
    FilterSound(all, HasContent);
    forall k | 0 <= k < |rows| ensures ProjectRow(rows[k], hs) == rows[k] {
      assert rows[k] in all;
      var m :| 0 <= m < |data| && all[m] == rows[k];
      ProjectDataRecord(hs, data[m]);
    }
    assert ProjectRows(rows, hs) == rows;
    FilterIdempotent(all, HasContent);
  }

  /** An accepted import names its columns from the chosen row and keeps, as
      they are, the records of the rows below it that have a non-blank value. */
  lemma ImportedTableShape(matrix: seq<seq<string>>, headerRowIndex: int)
    requires ImportedTable(matrix, headerRowIndex).Ok?
    ensures 0 <= headerRowIndex < |matrix|
    ensures EnsureHeaders(matrix[headerRowIndex]).Ok?
    ensures var hs := EnsureHeaders(matrix[headerRowIndex]).value;
      ImportedTable(matrix, headerRowIndex).value
        == Table(hs, Filter(DataRecords(hs, matrix[headerRowIndex + 1..]), HasContent))
  {
    EnsureHeadersOfTrimmed(matrix[headerRowIndex]);
    EnsureHeadersNamesClean(matrix[headerRowIndex]);
    var hs := EnsureHeaders(matrix[headerRowIndex]).value;
    PostProcessAfterImport(hs, matrix[headerRowIndex + 1..]);
  }

  /** The kept data records are those of the rows with a non-blank value, in
      row order. */
  lemma DataRowsKept(hs: seq<string>, data: seq<seq<string>>)
    ensures var all := DataRecords(hs, data);
      var idx := KeptIndices(all, HasContent);
      var rows := Filter(all, HasContent);
      && |idx| == |rows| <= |data|
      && (forall k :: 0 <= k < |idx| ==> idx[k] < |data| && rows[k] == DataRecord(hs, data[idx[k]]))
      && (forall k, l :: 0 <= k < l < |idx| ==> idx[k] < idx[l])
      && (forall i :: 0 <= i < |data| && HasContent(DataRecord(hs, data[i])) ==> i in idx)
  {
    FilterKeepsOrder(DataRecords(hs, data), HasContent);
  }

  /** The imported rows are the records of the rows strictly below the header
      row that have a non-blank value, in matrix order. */
  lemma ImportedRowsFromData(matrix: seq<seq<string>>, headerRowIndex: int)
    requires ImportedTable(matrix, headerRowIndex).Ok?
    ensures 0 <= headerRowIndex < |matrix|
    ensures var t := ImportedTable(matrix, headerRowIndex).value;
      var data := matrix[headerRowIndex + 1..];
      var idx := KeptIndices(DataRecords(t.headers, data), HasContent);
      && |idx| == |t.rows| <= |data|
      && (forall k :: 0 <= k < |idx| ==> idx[k] < |data| && t.rows[k] == DataRecord(t.headers, data[idx[k]]))
      && (forall k, l :: 0 <= k < l < |idx| ==> idx[k] < idx[l])
      && (forall i :: 0 <= i < |data| && HasContent(DataRecord(t.headers, data[i])) ==> i in idx)
  {
    ImportedTableShape(matrix, headerRowIndex);
    var t := ImportedTable(matrix, headerRowIndex).value;
    DataRowsKept(t.headers, matrix[headerRowIndex + 1..]);
  }

  /** The outcome of `matrixToTable`: an empty matrix is refused as an empty
      sheet; a header row outside the matrix or without a non-blank name has
      no headers; otherwise there is one name per cell of the header row and
      at most one record per row below it, each with a non-blank value and
      keyed by exactly the names. */
  lemma ImportedTableOutcome(matrix: seq<seq<string>>, headerRowIndex: int)
    ensures var r := ImportedTable(matrix, headerRowIndex);
      && (r.Err? <==> |matrix| == 0 || !(0 <= headerRowIndex < |matrix|) || AllBlank(matrix[headerRowIndex]))
      && (r.Err? ==> (r.error == EmptySheet <==> |matrix| == 0))
      && (r.Ok? ==> |r.value.headers| == |matrix[headerRowIndex]| && |r.value.rows| <= |matrix| - headerRowIndex - 1)
      && (r.Ok? ==> forall k :: 0 <= k < |r.value.rows| ==>
        HasContent(r.value.rows[k]) && r.value.rows[k].Keys == KeySet(r.value.headers))
  {
    if 0 <= headerRowIndex < |matrix| {
      EnsureHeadersOfTrimmed(matrix[headerRowIndex]);
      var hs := EnsureHeaders(HeaderRowOf(matrix, headerRowIndex));
      if hs.Ok? {
        var data := matrix[headerRowIndex + 1..];
        PostProcessedRowsKeyed(Table(hs.value, Filter(DataRecords(hs.value, data), HasContent)));
        ImportedTableShape(matrix, headerRowIndex);
      }
    }
  }

  /** The row loop of `matrixToTable`: one record per data row, keyed by the
      names, kept when a value is non-blank. */
  method CollectDataRows(headers: seq<string>, data: seq<seq<string>>) returns (rows: seq<Record>)
    ensures rows == Filter(DataRecords(headers, data), HasContent)
  {
    ghost var all := DataRecords(headers, data);
    rows := [];
    var k := 0;
    while k < |data|
      invariant 0 <= k <= |data|
      invariant rows == Filter(all[..k], HasContent)
    {
      var obj := FillRecord(headers, Cells(data[k], |headers|));
      assert obj == all[k];
      FilterPrefixSnoc(all, k, HasContent);
      if HasContent(obj) {
        rows := rows + [obj];
      }
      k := k + 1;
    }
    assert all[..k] == all;
  }

  /** `matrixToTable`: refuses an empty matrix, names the columns from the
      chosen row, and keeps the non-blank rows below it. */
  method MatrixToTable(matrix: seq<seq<string>>, headerRowIndex: int) returns (r: Result<Table>)
    ensures r == ImportedTable(matrix, headerRowIndex)
  {
    if |matrix| == 0 {
      return Err(EmptySheet);
    }
    var headerRow := HeaderRowOf(matrix, headerRowIndex);
    var named := EnsureHeaders(headerRow);
    if named.Err? {
      return Err(named.error);
    }
    var headers := named.value;
    var rows := CollectDataRows(headers, matrix[headerRowIndex + 1..]);
    var table := PostProcessTable(Table(headers, rows));
    r := Ok(table);
  }
}
