/** src/normalize.ts: a second pass over an imported table that drops
    placeholder column names, looks among the first rows for a better header
    row, and drops rows that are mostly empty. */
module Normalize {
  import opened Text
  import opened Vocabulary
  import opened Seqs
  import opened Records
  import Importer

  // ---------------------------------------------------------------------------
  // isMostlyEmptyRow

  predicate IsFilled(v: string) {
    !IsBlank(v)
  }

  /** How many of `headers`, counted with repetition, name a non-blank value
      of the row. */
  function FilledCount(row: Record, headers: seq<string>): nat {
    Count(LookupAll(row, headers), IsFilled)
  }

  /** `Math.max(1, Math.floor(n * 0.06))`, in exact arithmetic: 1 below 34
      columns, 6% of the columns from there on. */
  function FillThreshold(n: nat): (t: nat)
    ensures t >= 1 && t * 100 <= Max(100, n * 6)
    ensures t == 1 <==> n < 34
  {
    Max(1, (n * 6) / 100)
  }

  /** The row has no more filled values than the threshold allows. */
  predicate MostlyEmpty(row: Record, headers: seq<string>) {
    FilledCount(row, headers) <= FillThreshold(|headers|)
  }

  /** The counting loop of `isMostlyEmptyRow`. */
  method CountFilled(row: Record, headers: seq<string>) returns (filled: nat)
    ensures filled == FilledCount(row, headers)
  {
    ghost var vals := LookupAll(row, headers);
    filled := 0;
    var i := 0;
    while i < |headers|
      invariant 0 <= i <= |headers|
      invariant filled == Count(vals[..i], IsFilled)
    {
      var v := Trim(Lookup(row, headers[i]));
      FilterPrefixSnoc(vals, i, IsFilled);
      if v != [] {
        filled := filled + 1;
      }
      i := i + 1;
    }
    assert vals[..i] == vals;
  }

  /** `isMostlyEmptyRow`: at most `FillThreshold` filled values under `headers`. */
  method IsMostlyEmptyRow(row: Record, headers: seq<string>) returns (b: bool)
    ensures b == MostlyEmpty(row, headers)
    ensures FilledCount(row, headers) <= 1 ==> b
  {
    var filled := CountFilled(row, headers);
    b := filled <= Max(1, (|headers| * 6) / 100);
  }

  /** A row filled under every one of at least two columns is never mostly
      empty. */
  lemma FullRowIsKept(row: Record, headers: seq<string>)
    requires |headers| >= 2
    requires forall i :: 0 <= i < |headers| ==> IsFilled(Lookup(row, headers[i]))
    ensures !MostlyEmpty(row, headers)
  {
    FilterAll(LookupAll(row, headers), IsFilled);
    assert FilledCount(row, headers) == |headers|;
    var t := FillThreshold(|headers|);
    if |headers| >= 34 {
      assert t * 100 <= |headers| * 6;
    }
  }

  // ---------------------------------------------------------------------------
  // scoreHeaderRow

  /** Penalty per non-blank value longer than `LongCellLength`. */
  const LongTextPenalty: nat := 4

  /** The header plausibility of a row of values, as `scoreHeaderRow`
      computes it: no rejection of sparse rows, and a heavier long-text
      penalty than the importer's scorer. */
  function HeaderRowScore(values: seq<string>): int {
    var vals := NonBlankValues(values);
    Min(|Distinct(vals)|, Importer.DiversityCap) + Importer.Adjustments(vals, LongTextPenalty)
  }

  /** `scoreHeaderRow`: accumulates the per-value bonuses and penalties. */
  method ScoreHeaderRow(values: seq<string>) returns (score: int)
    ensures score == HeaderRowScore(values)
  {
    score := 0;
    var vals := NonBlankValues(values);
    var uniq := Distinct(vals);
    score := score + Min(|uniq|, Importer.DiversityCap);
    ghost var base := score;
    var i := 0;
    while i < |vals|
      invariant 0 <= i <= |vals|
      invariant score == base + Importer.Adjustments(vals[..i], LongTextPenalty)
    {
      var v := vals[i];
      Importer.AdjustmentsSnoc(vals, i, LongTextPenalty);
      if IsKeyword(v) {
        score := score + Importer.KeywordBonus;
      }
      if |v| > LongCellLength {
        score := score - LongTextPenalty;
      }
      if IsPlaceholder(v) {
        score := score - Importer.PlaceholderPenalty;
      }
      i := i + 1;
    }
    assert vals[..i] == vals;
  }

  /** No row scores above the diversity cap plus a keyword bonus per
      non-blank value, and a row without one scores 0. */
  lemma HeaderRowScoreBound(values: seq<string>)
    ensures HeaderRowScore(values) <= Importer.DiversityCap + Importer.KeywordBonus * |NonBlankValues(values)|
    ensures NonBlankValues(values) == [] ==> HeaderRowScore(values) == 0
  {
    if NonBlankValues(values) == [] {
      assert Distinct(NonBlankValues(values)) == {};
    }
  }

  /** On a row the importer's scorer does not reject, the two scorers differ
      only by one point per long value. */
  lemma ScorersAgree(values: seq<string>)
    requires |NonBlankValues(values)| >= 3
    ensures HeaderRowScore(values) == Importer.RowAsHeaderScore(values) - Count(NonBlankValues(values), IsLong)
    ensures HeaderRowScore(values) <= Importer.RowAsHeaderScore(values)
  {
  }

  /** Score at or above which a scanned row is taken as the real header row. */
  const AcceptScore: int := 8

  /** Eight distinct non-blank values, none a placeholder or free text, make a
      row confident enough to become the header row. */
  lemma {:induction false} DiverseRowIsConfident(values: seq<string>)
    requires |Distinct(NonBlankValues(values))| >= 8
    requires forall v :: v in NonBlankValues(values) ==> !IsPlaceholder(v) && !IsLong(v)
    ensures HeaderRowScore(values) >= AcceptScore
  {
    var vals := NonBlankValues(values);
    assert forall i :: 0 <= i < |vals| ==> vals[i] in vals;
    FilterNone(vals, IsPlaceholder);
    FilterNone(vals, IsLong);
  }

  // ---------------------------------------------------------------------------
  // cleanHeader

  /** `cleanHeader`: the trimmed name, or "" for a placeholder. */
  function CleanHeader(h: string): (r: string)
    ensures r == [] || r == Trim(h)
    ensures r == [] <==> IsBlank(h) || IsPlaceholder(Trim(h))
    ensures !IsPlaceholder(r)
  {
    var s := Trim(h);
    if IsPlaceholder(s) then [] else s
  }

  /** Trimming before cleaning changes nothing. */
  lemma CleanHeaderOfTrimmed(h: string)
    ensures CleanHeader(Trim(h)) == CleanHeader(h)
  {
    TrimIdempotent(h);
  }

  /** A cleaned name is trimmed, and cleaning it again changes nothing. */
  lemma CleanHeaderIdempotent(h: string)
    ensures Trim(CleanHeader(h)) == CleanHeader(h)
    ensures CleanHeader(CleanHeader(h)) == CleanHeader(h)
  {
    TrimIdempotent(h);
  }

  // ---------------------------------------------------------------------------
  // normalizeTable

  /** An entry of `headerMap`: a cleaned name and the position of its column. */
  datatype Column = Column(title: string, idx: nat)

  predicate HasTitle(c: Column) {
    c.title != []
  }

  /** `names.map((t, idx) => ({ title: t, idx }))`, numbering from `start`. */
  function Numbered(names: seq<string>, start: nat): (cs: seq<Column>)
    ensures |cs| == |names|
  {
    seq(|names|, i requires 0 <= i < |names| => Column(names[i], start + i))
  }

  /** `headerMap`: the columns whose cleaned name is non-empty, in order. */
  function HeaderMap(headers: seq<string>): seq<Column> {
    Filter(Numbered(Map(CleanHeader, headers), 0), HasTitle)
  }

  function Titles(hm: seq<Column>): (ts: seq<string>)
    ensures |ts| == |hm|
  {
    seq(|hm|, j requires 0 <= j < |hm| => hm[j].title)
  }

  /** Every entry of `headerMap` names a column of the input by its cleaned,
      non-empty name. */
  lemma HeaderMapValid(headers: seq<string>)
    ensures forall j :: 0 <= j < |HeaderMap(headers)| ==>
      var c := HeaderMap(headers)[j];
      c.idx < |headers| && c.title == CleanHeader(headers[c.idx]) && c.title != []
  {
    var names := Map(CleanHeader, headers);
    var all := Numbered(names, 0);
    var hm := Filter(all, HasTitle);
    FilterSound(all, HasTitle);
    forall j | 0 <= j < |hm|
      ensures hm[j].idx < |headers| && hm[j].title == names[hm[j].idx] && hm[j].title != []
    {
      assert hm[j] in all;
    }
  }

  /** The titles of the columns kept from `names` are the non-empty names. */
  lemma {:induction false} TitlesOfKept(names: seq<string>, start: nat)
    ensures Titles(Filter(Numbered(names, start), HasTitle)) == Filter(names, NonEmpty)
  {
    if names != [] {
      var cs := Numbered(names, start);
      assert cs[1..] == Numbered(names[1..], start + 1);
      TitlesOfKept(names[1..], start + 1);
      var rest := Filter(cs[1..], HasTitle);
      if HasTitle(cs[0]) {
        assert Filter(cs, HasTitle) == [cs[0]] + rest;
        assert Titles([cs[0]] + rest) == [names[0]] + Titles(rest);
      } else {
        assert Filter(cs, HasTitle) == rest;
      }
    }
  }

  /** `headers`: the non-empty cleaned names, in their original order. */
  lemma HeaderMapTitles(headers: seq<string>)
    ensures Titles(HeaderMap(headers)) == Filter(Map(CleanHeader, headers), NonEmpty)
  {
    TitlesOfKept(Map(CleanHeader, headers), 0);
  }

  /** `input.headers[h.idx]` for each entry `h` of `headerMap`: the original,
      uncleaned name of each kept column. */
  function SourceNames(headers: seq<string>): (srcs: seq<string>)
    ensures |srcs| == |HeaderMap(headers)|
  {
    var hm := HeaderMap(headers);
    HeaderMapValid(headers);
    seq(|hm|, j requires 0 <= j < |hm| => headers[hm[j].idx])
  }

  /** How many leading rows the re-scan considers. */
  const RescanLimit: nat := 25

  /** The scores of the re-scanned rows, each read through the kept columns. */
  function RescanScores(input: Table): (s: seq<int>)
    ensures |s| == Min(|input.rows|, RescanLimit)
  {
    var srcs := SourceNames(input.headers);
    seq(Min(|input.rows|, RescanLimit), i requires 0 <= i < Min(|input.rows|, RescanLimit) =>
      HeaderRowScore(LookupAll(input.rows[i], srcs)))
  }

  /** Whether the re-scan found a row to take as the header row. */
  datatype HeaderChoice = HeaderRow(index: nat) | KeepHeaders

  /** The first best-scoring scanned row, when it scores at least
      `AcceptScore`. */
  function ChosenHeaderRow(input: Table): (c: HeaderChoice)
    ensures c.HeaderRow? ==>
      && c.index < Min(|input.rows|, RescanLimit)
      && IsFirstMax(RescanScores(input), c.index)
      && RescanScores(input)[c.index] >= AcceptScore
    ensures c.KeepHeaders? <==> forall i :: 0 <= i < |RescanScores(input)| ==> RescanScores(input)[i] < AcceptScore
  {
    var s := RescanScores(input);
    if |s| > 0 && s[FirstMax(s)] >= AcceptScore then HeaderRow(FirstMax(s)) else KeepHeaders
  }

  /** The name a rebase gives the kept column at position `j` whose value in
      the header row is `v`: the trimmed value, or the positional fallback
      name when that is empty or a placeholder. */
  function RebasedName(v: string, j: nat): (h: string)
    ensures h != []
    ensures h == if IsBlank(v) || IsPlaceholder(Trim(v)) then FallbackName(j) else Trim(v)
  {
    CleanHeaderOfTrimmed(v);
    var c := CleanHeader(Trim(v));
    if c != [] then c else FallbackName(j)
  }

  /** `newHeaders`: the names taken from header row `b`, one per kept column. */
  function RebasedHeaders(input: Table, b: nat): (hs: seq<string>)
    requires b < |input.rows|
    ensures |hs| == |HeaderMap(input.headers)|
    ensures forall j :: 0 <= j < |hs| ==> hs[j] != []
  {
    var vals := LookupAll(input.rows[b], SourceNames(input.headers));
    seq(|vals|, j requires 0 <= j < |vals| => RebasedName(vals[j], j))
  }

  /** The rows `isMostlyEmptyRow` lets through. */
  function KeepRow(headers: seq<string>): Record -> bool {
    r => !MostlyEmpty(r, headers)
  }

  /** Each row re-keyed: `out[keys[j]] = row[srcs[j]] ?? ""` for j = 0, 1, ... */
  function Rekeyed(rows: seq<Record>, keys: seq<string>, srcs: seq<string>): (out: seq<Record>)
    requires |keys| == |srcs|
    ensures |out| == |rows|
  {
    seq(|rows|, k requires 0 <= k < |rows| => BuildRecord(keys, LookupAll(rows[k], srcs)))
  }

  /** The table re-based onto header row `b`: the names taken from that row,
      and the rows below it that are not mostly empty, re-keyed by those
      names with the values of the kept source columns. */
  function Rebased(input: Table, b: nat): (t: Table)
    requires b < |input.rows|
    ensures |t.headers| == |HeaderMap(input.headers)| && |t.rows| < |input.rows| - b
    ensures forall j :: 0 <= j < |t.headers| ==> t.headers[j] != []
  {
    var hs := RebasedHeaders(input, b);
    Table(hs, Rekeyed(Filter(input.rows[b + 1..], KeepRow(input.headers)), hs, SourceNames(input.headers)))
  }

  /** The fallback table: the cleaned names, and the rows that are not mostly
      empty, each keyed by the original names of the kept columns. */
  function Fallback(input: Table): (t: Table)
    ensures |t.headers| == |HeaderMap(input.headers)| && |t.rows| <= |input.rows|
    ensures forall j :: 0 <= j < |t.headers| ==> t.headers[j] != []
  {
    HeaderMapValid(input.headers);
    var srcs := SourceNames(input.headers);
    Table(Titles(HeaderMap(input.headers)), Rekeyed(Filter(input.rows, KeepRow(input.headers)), srcs, srcs))
  }

  /** The table `normalizeTable` returns. */
  function Normalized(input: Table): Table {
    if |HeaderMap(input.headers)| < 3 then input
    else
      match ChosenHeaderRow(input)
      case HeaderRow(b) => Rebased(input, b)
      case KeepHeaders => Fallback(input)
  }

  /** Filtering then re-keying: one output record per row that passes, in
      row order, and none lost. */
  lemma RekeyedFiltered(rows: seq<Record>, p: Record -> bool, keys: seq<string>, srcs: seq<string>)
    requires |keys| == |srcs|
    ensures var out := Rekeyed(Filter(rows, p), keys, srcs);
      var idx := KeptIndices(rows, p);
      && |idx| == |out|
      && (forall k :: 0 <= k < |idx| ==>
            idx[k] < |rows| && p(rows[idx[k]]) && out[k] == BuildRecord(keys, LookupAll(rows[idx[k]], srcs)))
      && (forall k, l :: 0 <= k < l < |idx| ==> idx[k] < idx[l])
      && (forall i :: 0 <= i < |rows| && p(rows[i]) ==> i in idx)
  {
    FilterKeepsOrder(rows, p);
  }

  /** The re-based names: one per kept column, the trimmed value the header
      row holds in that column's source, or `Колонка j+1` for position `j`
      among the kept columns where that value is blank or a placeholder. */
  lemma RebasedHeadersSpec(input: Table, b: nat)
    requires b < |input.rows|
    ensures var t := Rebased(input, b);
      var hm := HeaderMap(input.headers);
      && |t.headers| == |hm|
      && forall j :: 0 <= j < |hm| ==>
        hm[j].idx < |input.headers|
        && var v := Trim(Lookup(input.rows[b], input.headers[hm[j].idx]));
        t.headers[j] == (if v == [] || IsPlaceholder(v) then FallbackName(j) else v)
        && t.headers[j] != []
  {
    HeaderMapValid(input.headers);
  }

  /** The re-based rows: exactly the rows after the header row that are not
      mostly empty (judged over all the input names), in order, each keyed by
      the re-based names. */
  lemma RebasedRows(input: Table, b: nat)
    requires b < |input.rows|
    ensures var t := Rebased(input, b);
      var data := input.rows[b + 1..];
      var idx := KeptIndices(data, KeepRow(input.headers));
      && |idx| == |t.rows|
      && (forall k :: 0 <= k < |idx| ==>
            && idx[k] < |data|
            && !MostlyEmpty(data[idx[k]], input.headers)
            && t.rows[k] == BuildRecord(t.headers, LookupAll(data[idx[k]], SourceNames(input.headers)))
            && t.rows[k].Keys == KeySet(t.headers))
      && (forall k, l :: 0 <= k < l < |idx| ==> idx[k] < idx[l])
      && (forall i :: 0 <= i < |data| && !MostlyEmpty(data[i], input.headers) ==> i in idx)
  {
    var t := Rebased(input, b);
    var data := input.rows[b + 1..];
    var srcs := SourceNames(input.headers);
    RekeyedFiltered(data, KeepRow(input.headers), t.headers, srcs);
    var idx := KeptIndices(data, KeepRow(input.headers));
    forall k | 0 <= k < |idx| ensures t.rows[k].Keys == KeySet(t.headers) {
      BuildRecordKeys(t.headers, LookupAll(data[idx[k]], srcs));
    }
  }

  /** The fallback names are the non-empty cleaned input names, in order. */
  lemma FallbackHeaders(input: Table)
    ensures Fallback(input).headers == Filter(Map(CleanHeader, input.headers), NonEmpty)
  {
    HeaderMapTitles(input.headers);
  }

  /** The fallback rows: exactly the rows that are not mostly empty, in order,
      each holding under the original name of every kept column the value the
      row has there ("" when absent). */
  lemma FallbackRows(input: Table)
    ensures var t := Fallback(input);
      var srcs := SourceNames(input.headers);
      var idx := KeptIndices(input.rows, KeepRow(input.headers));
      && |idx| == |t.rows|
      && (forall k :: 0 <= k < |idx| ==>
            && idx[k] < |input.rows|
            && !MostlyEmpty(input.rows[idx[k]], input.headers)
            && t.rows[k] == map s | s in KeySet(srcs) :: Lookup(input.rows[idx[k]], s))
      && (forall k, l :: 0 <= k < l < |idx| ==> idx[k] < idx[l])
      && (forall i :: 0 <= i < |input.rows| && !MostlyEmpty(input.rows[i], input.headers) ==> i in idx)
  {
    var srcs := SourceNames(input.headers);
    RekeyedFiltered(input.rows, KeepRow(input.headers), srcs, srcs);
    var idx := KeptIndices(input.rows, KeepRow(input.headers));
    forall k | 0 <= k < |idx|
      ensures Fallback(input).rows[k] == map s | s in KeySet(srcs) :: Lookup(input.rows[idx[k]], s)
    {
      FallbackRowAt(input, k);
    }
  }

  /** One fallback row: the `k`-th kept row, holding under the original name
      of every kept column the value the row has there. */
  lemma FallbackRowAt(input: Table, k: nat)
    requires k < |Fallback(input).rows|
    ensures var idx := KeptIndices(input.rows, KeepRow(input.headers));
      && k < |idx| && idx[k] < |input.rows|
      && Fallback(input).rows[k] == map s | s in KeySet(SourceNames(input.headers)) :: Lookup(input.rows[idx[k]], s)
  {
    var srcs := SourceNames(input.headers);
    RekeyedFiltered(input.rows, KeepRow(input.headers), srcs, srcs);
    var idx := KeptIndices(input.rows, KeepRow(input.headers));
    Importer.ProjectRowSpec(input.rows[idx[k]], srcs);
  }

  /** The fallback rows are keyed by the original names, so they agree with
      the returned names only when every input name is already trimmed. */
  lemma FallbackKeysMatchTrimmedHeaders(input: Table)
    requires forall i :: 0 <= i < |input.headers| ==> Trim(input.headers[i]) == input.headers[i]
    ensures SourceNames(input.headers) == Fallback(input).headers
  {
    var hm := HeaderMap(input.headers);
    HeaderMapValid(input.headers);
    var srcs := SourceNames(input.headers);
    forall j | 0 <= j < |hm| ensures srcs[j] == hm[j].title {
      assert hm[j].title == CleanHeader(input.headers[hm[j].idx]);
    }
  }

  /** The scan of `normalizeTable`: the first best-scoring row among the first
      25, and its score; -1 and `-Infinity` when there are no rows. */
  method ScanForHeaderRow(input: Table) returns (bestIndex: int, bestScore: BestScore)
    ensures input.rows == [] ==> bestIndex == -1 && bestScore == NegInfinity
    ensures input.rows != [] ==>
      && bestIndex == FirstMax(RescanScores(input))
      && bestScore == Finite(RescanScores(input)[bestIndex])
  {
    var srcs := SourceNames(input.headers);
    var scanCount := Min(|input.rows|, RescanLimit);
    ghost var scores := RescanScores(input);
    bestIndex := -1;
    bestScore := NegInfinity;
    var i := 0;
    while i < scanCount
      invariant Scanned(scores, i, bestIndex, bestScore)
      invariant -1 <= bestIndex < i
    {
      var vals := LookupAll(input.rows[i], srcs);
      var score := ScoreHeaderRow(vals);
      ScanStep(scores, i, score, bestIndex, bestScore);
      if Beats(score, bestScore) {
        bestScore := Finite(score);
        bestIndex := i;
      }
      i := i + 1;
    }
    if input.rows != [] {
      ScanDone(scores, i, bestIndex, bestScore);
    }
  }

  /** `rows.filter((r) => !isMostlyEmptyRow(r, headers))`. */
  method DropMostlyEmptyRows(rows: seq<Record>, headers: seq<string>) returns (kept: seq<Record>)
    ensures kept == Filter(rows, KeepRow(headers))
  {
    kept := [];
    var k := 0;
    while k < |rows|
      invariant 0 <= k <= |rows|
      invariant kept == Filter(rows[..k], KeepRow(headers))
    {
      var empty := IsMostlyEmptyRow(rows[k], headers);
      FilterPrefixSnoc(rows, k, KeepRow(headers));
      if !empty {
        kept := kept + [rows[k]];
      }
      k := k + 1;
    }
    assert rows[..k] == rows;
  }

  /** The `map` that fills one `out` record per row. */
  method RekeyRows(rows: seq<Record>, keys: seq<string>, srcs: seq<string>) returns (out: seq<Record>)
    requires |keys| == |srcs|
    ensures out == Rekeyed(rows, keys, srcs)
  {
    out := [];
    var k := 0;
    while k < |rows|
      invariant 0 <= k <= |rows|
      invariant out == Rekeyed(rows[..k], keys, srcs)
    {
      var rec := FillRecord(keys, LookupAll(rows[k], srcs));
      out := out + [rec];
      k := k + 1;
    }
    assert rows[..k] == rows;
  }

  /** The re-basing branch of `normalizeTable`. */
  method RebaseTable(input: Table, bestIndex: nat) returns (out: Table)
    requires bestIndex < |input.rows|
    ensures out == Rebased(input, bestIndex)
  {
    var srcs := SourceNames(input.headers);
    var newHeaders := RebasedHeaders(input, bestIndex);
    var dataRows := DropMostlyEmptyRows(input.rows[bestIndex + 1..], input.headers);
    var finalRows := RekeyRows(dataRows, newHeaders, srcs);
    out := Table(newHeaders, finalRows);
  }

  /** The fallback branch of `normalizeTable`. */
  method FallbackTable(input: Table, headers: seq<string>) returns (out: Table)
    requires headers == Titles(HeaderMap(input.headers))
    ensures out == Fallback(input)
  {
    var srcs := SourceNames(input.headers);
    var compactRows := DropMostlyEmptyRows(input.rows, input.headers);
    var rows := RekeyRows(compactRows, srcs, srcs);
    out := Table(headers, rows);
  }

  /** `normalizeTable`: keeps a table with fewer than three usable names,
      otherwise re-bases it onto a confidently scored row or falls back to
      the cleaned names. */
  method NormalizeTable(input: Table) returns (out: Table)
    ensures out == Normalized(input)
    ensures |HeaderMap(input.headers)| < 3 ==> out == input
    ensures |HeaderMap(input.headers)| >= 3 ==>
      && |out.headers| == |HeaderMap(input.headers)|
      && |out.rows| <= |input.rows|
      && (forall j :: 0 <= j < |out.headers| ==> out.headers[j] != [])
  {
    var rawHeaders := Map(CleanHeader, input.headers);
    var headerMap := Filter(Numbered(rawHeaders, 0), HasTitle);
    var headers := Titles(headerMap);
    if |headers| < 3 {
      return input;
    }
    var bestIndex, bestScore := ScanForHeaderRow(input);
    ghost var scores := RescanScores(input);
    if bestIndex >= 0 && bestScore.Finite? && bestScore.value >= AcceptScore {
      assert scores[FirstMax(scores)] >= AcceptScore;
      out := RebaseTable(input, bestIndex);
    } else {
      assert |scores| > 0 ==> scores[FirstMax(scores)] < AcceptScore;
      out := FallbackTable(input, headers);
    }
  }
}
