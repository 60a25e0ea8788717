/** src/exporter.ts: CSV text from a table. A cell is quoted as items 6 and 7
    of section 2 of RFC 4180 describe, with the delimiter configurable; lines
    are separated by CRLF (items 1 and 2), with no line break after the last
    one, and the text may be prefixed with a byte order mark. */
module Exporter {
  import opened Seqs
  import opened Records

  /** The delimiters `CsvOptions` admits. */
  datatype Delimiter = Comma | Semicolon | Tab

  function DelimiterChar(d: Delimiter): char {
    match d
    case Comma => ','
    case Semicolon => ';'
    case Tab => '\t'
  }

  datatype Option<T> = None | Some(value: T)

  /** `CsvOptions`; an absent `includeBom` is `false`. */
  datatype CsvOptions = CsvOptions(delimiter: Option<Delimiter>, includeBom: bool)

  /** `opts.delimiter ?? ";"`. */
  function ChosenDelimiter(opts: CsvOptions): (d: char)
    ensures opts.delimiter.None? ==> d == ';'
    ensures opts.delimiter.Some? ==> d == DelimiterChar(opts.delimiter.value)
  {
    match opts.delimiter
    case None => ';'
    case Some(d) => DelimiterChar(d)
  }

  const Quote: char := '"'
  const ByteOrderMark: char := '\U{FEFF}'
  const LineBreak: string := "\r\n"

  /** A value that has to be quoted: it holds a double quote, a line feed, a
      carriage return or the delimiter. */
  predicate MustQuote(s: string, d: char) {
    Quote in s || '\n' in s || '\r' in s || d in s
  }

  /** `s.replace(/"/g, '""')`. */
  function DoubleQuotes(s: string): (r: string)
    ensures |r| >= |s|
    ensures Quote !in s ==> r == s
  {
    if s == [] then []
    else (if s[0] == Quote then [Quote, Quote] else [s[0]]) + DoubleQuotes(s[1..])
  }

  /** `escapeCsvCell`: the value with its double quotes doubled, wrapped in
      double quotes exactly when it must be quoted. */
  function EscapeCsvCell(s: string, d: char): (r: string)
    ensures (|r| >= 2 && r[0] == Quote && r[|r| - 1] == Quote) <==> MustQuote(s, d)
    ensures MustQuote(s, d) ==> r[1..|r| - 1] == DoubleQuotes(s)
    ensures !MustQuote(s, d) ==> r == s
  {
    var escaped := DoubleQuotes(s);
    if MustQuote(s, d) then [Quote] + escaped + [Quote] else escaped
  }

  /** Reads a doubled double quote back as one. */
  function Undouble(t: string): string {
    if t == [] then []
    else if |t| >= 2 && t[0] == Quote && t[1] == Quote then [Quote] + Undouble(t[2..])
    else [t[0]] + Undouble(t[1..])
  }

  /** Undoubling undoes the doubling. */
  lemma {:induction false} UndoubleDoubleQuotes(s: string)
    ensures Undouble(DoubleQuotes(s)) == s
  {
    if s != [] {
      UndoubleDoubleQuotes(s[1..]);
      if s[0] == Quote {
        assert DoubleQuotes(s) == [Quote, Quote] + DoubleQuotes(s[1..]);
        assert DoubleQuotes(s)[2..] == DoubleQuotes(s[1..]);
      } else {
        assert DoubleQuotes(s) == [s[0]] + DoubleQuotes(s[1..]);
        assert DoubleQuotes(s)[1..] == DoubleQuotes(s[1..]);
      }
    }
  }

  /** Reads one escaped cell back: strips the surrounding quotes of a quoted
      cell and undoubles its double quotes. */
  function DecodeCell(c: string): string {
    if |c| >= 2 && c[0] == Quote && c[|c| - 1] == Quote then Undouble(c[1..|c| - 1]) else c
  }

  /** Decoding an escaped cell gives back the value. */
  lemma DecodeEscapedCell(s: string, d: char)
    ensures DecodeCell(EscapeCsvCell(s, d)) == s
  {
    if MustQuote(s, d) {
      UndoubleDoubleQuotes(s);
    }
  }

  /** `parts.join(sep)`. */
  function Join(parts: seq<string>, sep: string): string {
    if |parts| == 0 then []
    else if |parts| == 1 then parts[0]
    else parts[0] + sep + Join(parts[1..], sep)
  }

  /** A join of several parts: the first, the separator, the rest joined. */
  lemma JoinCons(parts: seq<string>, sep: string)
    requires |parts| >= 2
    ensures Join(parts, sep) == parts[0] + sep + Join(parts[1..], sep)
  {
  }

  /** Every value escaped. */
  function EscapeAll(values: seq<string>, d: char): (cs: seq<string>)
    ensures |cs| == |values|
  {
    seq(|values|, j requires 0 <= j < |values| => EscapeCsvCell(values[j], d))
  }

  /** One line of the output: the escaped values joined by the delimiter. */
  function Line(values: seq<string>, d: char): string {
    Join(EscapeAll(values, d), [d])
  }

  /** A line of one value is that value escaped. */
  lemma LineSingle(vs: seq<string>, d: char)
    requires |vs| == 1
    ensures Line(vs, d) == EscapeCsvCell(vs[0], d)
  {
  }

  /** A line of several values: the first escaped, the delimiter, the rest. */
  lemma LineCons(vs: seq<string>, d: char)
    requires |vs| >= 2
    ensures Line(vs, d) == EscapeCsvCell(vs[0], d) + [d] + Line(vs[1..], d)
  {
    assert EscapeAll(vs, d)[1..] == EscapeAll(vs[1..], d);
    JoinCons(EscapeAll(vs, d), [d]);
  }

  /** The line of one row: its value under each header, in header order. */
  function RowLine(headers: seq<string>, d: char): Record -> string {
    (r: Record) => Line(LookupAll(r, headers), d)
  }

  /** The lines `tableToCsv` collects: the header line, then one line per row. */
  function CsvLines(headers: seq<string>, rows: seq<Record>, d: char): (lines: seq<string>)
    ensures |lines| == |rows| + 1
  {
    [Line(headers, d)] + Map(RowLine(headers, d), rows)
  }

  /** The lines of the first rows, one row more. */
  lemma CsvLinesSnoc(headers: seq<string>, rows: seq<Record>, i: nat, d: char)
    requires i < |rows|
    ensures CsvLines(headers, rows[..i + 1], d) == CsvLines(headers, rows[..i], d) + [Line(LookupAll(rows[i], headers), d)]
  {
    MapPrefixSnoc(RowLine(headers, d), rows, i);
    ConcatAssoc([Line(headers, d)], Map(RowLine(headers, d), rows[..i]), [Line(LookupAll(rows[i], headers), d)]);
  }

  /** The text `tableToCsv` returns: the byte order mark when asked for, then
      the lines joined by CRLF. */
  function CsvText(headers: seq<string>, rows: seq<Record>, opts: CsvOptions): (csv: string)
    ensures opts.includeBom ==>
      && |csv| >= 1 && csv[0] == ByteOrderMark
      && csv[1..] == Join(CsvLines(headers, rows, ChosenDelimiter(opts)), LineBreak)
    ensures !opts.includeBom ==> csv == Join(CsvLines(headers, rows, ChosenDelimiter(opts)), LineBreak)
  {
    (if opts.includeBom then [ByteOrderMark] else []) + Join(CsvLines(headers, rows, ChosenDelimiter(opts)), LineBreak)
  }

  /** `tableToCsv`: collects the lines in order, joins them with CRLF and
      prefixes the byte order mark when asked to. */
  method TableToCsv(headers: seq<string>, rows: seq<Record>, opts: CsvOptions) returns (csv: string)
    ensures csv == CsvText(headers, rows, opts)
  {
    var delimiter := ChosenDelimiter(opts);
    var lines: seq<string> := [];
    lines := lines + [Line(headers, delimiter)];
    for i := 0 to |rows|
      invariant lines == CsvLines(headers, rows[..i], delimiter)
    {
      var line := Line(LookupAll(rows[i], headers), delimiter);
      CsvLinesSnoc(headers, rows, i, delimiter);
      lines := lines + [line];
    }
    assert rows[..|rows|] == rows;
    var body := Join(lines, LineBreak);
    var bom: string := if opts.includeBom then [ByteOrderMark] else [];
    csv := bom + body;
  }

  /** A header the row lacks yields an empty cell. */
  lemma MissingKeyEmptyCell(r: Record, headers: seq<string>, j: nat, d: char)
    requires j < |headers| && headers[j] !in r
    ensures EscapeAll(LookupAll(r, headers), d)[j] == []
  {
  }
}
