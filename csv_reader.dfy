/** A reader for the text the exporter writes, following the grammar of
    section 2 of RFC 4180 with the delimiter as a parameter: records separated
    by CRLF, fields separated by the delimiter, a field either bare or quoted
    with its double quotes doubled. Reading the exported text back gives the
    header row and the rows' values, which is what the export means. */
module CsvReader {
  import opened Records
  import opened Exporter
  import opened Seqs

  /** A parsed value and the text that follows it. */
  datatype Parsed<T> = Parsed(value: T, rest: string)

  /** The inside of a quoted field, after its opening quote, up to its
      closing quote; a doubled quote stands for one. */
  function ParseQuoted(s: string): (p: Parsed<string>)
    ensures |p.rest| <= |s|
  {
    if s == [] then Parsed([], [])
    else if s[0] == Quote then
      if |s| >= 2 && s[1] == Quote then
        var p := ParseQuoted(s[2..]);
        Parsed([Quote] + p.value, p.rest)
      else Parsed([], s[1..])
    else
      var p := ParseQuoted(s[1..]);
      Parsed([s[0]] + p.value, p.rest)
  }

  /** A bare field ends at the delimiter or at the CR of a line break. */
  predicate EndsBareField(c: char, d: char) {
    c == d || c == '\r'
  }

  function ParseBare(s: string, d: char): (p: Parsed<string>)
    ensures |p.rest| <= |s|
  {
    if s == [] || EndsBareField(s[0], d) then Parsed([], s)
    else
      var p := ParseBare(s[1..], d);
      Parsed([s[0]] + p.value, p.rest)
  }

  function ParseField(s: string, d: char): (p: Parsed<string>)
    ensures |p.rest| <= |s|
  {
    if s != [] && s[0] == Quote then ParseQuoted(s[1..]) else ParseBare(s, d)
  }

  /** The fields of one record. */
  function ParseRecord(s: string, d: char): (p: Parsed<seq<string>>)
    ensures |p.rest| <= |s|
    decreases |s|
  {
    var f := ParseField(s, d);
    if f.rest != [] && f.rest[0] == d then
      var r := ParseRecord(f.rest[1..], d);
      Parsed([f.value] + r.value, r.rest)
    else Parsed([f.value], f.rest)
  }

  /** The records of a text. */
  function ParseRecords(s: string, d: char): seq<seq<string>>
    decreases |s|
  {
    var r := ParseRecord(s, d);
    if |r.rest| >= 2 && r.rest[..2] == LineBreak then [r.value] + ParseRecords(r.rest[2..], d)
    else [r.value]
  }

  /** The three steps of reading a quoted field's inside. */
  lemma ParseQuotedSteps(c: char, r: string)
    ensures ParseQuoted([Quote, Quote] + r) == Parsed([Quote] + ParseQuoted(r).value, ParseQuoted(r).rest)
    ensures r == [] || r[0] != Quote ==> ParseQuoted([Quote] + r) == Parsed([], r)
    ensures c != Quote ==> ParseQuoted([c] + r) == Parsed([c] + ParseQuoted(r).value, ParseQuoted(r).rest)
  {
    assert ([Quote, Quote] + r)[2..] == r;
    assert ([Quote] + r)[1..] == r;
    assert ([c] + r)[1..] == r;
  }

  /** The doubled text of a non-empty value, split after its first character. */
  lemma DoubledHead(s: string, t: string)
    requires s != []
    ensures DoubleQuotes(s) + [Quote] + t
      == (if s[0] == Quote then [Quote, Quote] else [s[0]]) + (DoubleQuotes(s[1..]) + [Quote] + t)
  {
    var h := if s[0] == Quote then [Quote, Quote] else [s[0]];
    assert DoubleQuotes(s) == h + DoubleQuotes(s[1..]);
    ConcatRight(h, DoubleQuotes(s[1..]), [Quote], t);
  }

  /** The inductive step of `QuotedRoundTrip`: reading the first character (or
      doubled quote) and then the rest. */
  lemma QuotedRoundTripStep(s: string, t: string)
    requires s != []
    requires ParseQuoted(DoubleQuotes(s[1..]) + [Quote] + t) == Parsed(s[1..], t)
    ensures ParseQuoted(DoubleQuotes(s) + [Quote] + t) == Parsed(s, t)
  {
    ParseQuotedSteps(s[0], DoubleQuotes(s[1..]) + [Quote] + t);
    DoubledHead(s, t);
    assert s == [s[0]] + s[1..];
  }

  /** A quoted field's inside reads back as the value. */
  lemma {:induction false} QuotedRoundTrip(s: string, t: string)
    requires t == [] || t[0] != Quote
    ensures ParseQuoted(DoubleQuotes(s) + [Quote] + t) == Parsed(s, t)
  {
    if s == [] {
      ParseQuotedSteps(Quote, t);
      assert DoubleQuotes(s) + [Quote] + t == [Quote] + t;
    } else {
      QuotedRoundTrip(s[1..], t);
      QuotedRoundTripStep(s, t);
    }
  }

  /** A value without delimiter or CR reads back whole as a bare field. */
  lemma {:induction false} BareRoundTrip(s: string, t: string, d: char)
    requires forall i :: 0 <= i < |s| ==> !EndsBareField(s[i], d)
    requires t == [] || EndsBareField(t[0], d)
    ensures ParseBare(s + t, d) == Parsed(s, t)
  {
    if s == [] {
      assert s + t == t;
    } else {
      BareRoundTrip(s[1..], t, d);
      assert (s + t)[1..] == s[1..] + t;
      assert s == [s[0]] + s[1..];
    }
  }

  /** An escaped cell reads back as its value, whatever separator follows. */
  lemma FieldRoundTrip(s: string, t: string, d: char)
    requires d != Quote
    requires t == [] || EndsBareField(t[0], d)
    ensures ParseField(EscapeCsvCell(s, d) + t, d) == Parsed(s, t)
  {
    var e := EscapeCsvCell(s, d);
    if MustQuote(s, d) {
      QuotedRoundTrip(s, t);
      ConcatRight([Quote], DoubleQuotes(s), [Quote], t);
      assert (e + t)[1..] == DoubleQuotes(s) + [Quote] + t;
    } else {
      assert forall i :: 0 <= i < |s| ==> s[i] != Quote && s[i] != d && s[i] != '\r' by {
        forall i | 0 <= i < |s| ensures s[i] != Quote && s[i] != d && s[i] != '\r' {
          assert s[i] in s;
        }
      }
      BareRoundTrip(s, t, d);
      if s == [] {
        assert e + t == t;
      }
    }
  }

  /** A line of a single value reads back as that value. */
  lemma RecordRoundTripOne(vs: seq<string>, t: string, d: char)
    requires |vs| == 1 && d != Quote && d != '\r'
    requires t == [] || t[0] == '\r'
    ensures ParseRecord(Line(vs, d) + t, d) == Parsed(vs, t)
  {
    LineSingle(vs, d);
    FieldRoundTrip(vs[0], t, d);
    assert vs == [vs[0]];
  }

  /** A field followed by the delimiter: the record is that field's value
      followed by the fields read after the delimiter. */
  lemma ParseRecordCons(e: string, v: string, tail: string, d: char)
    requires ParseField(e + ([d] + tail), d) == Parsed(v, [d] + tail)
    ensures ParseRecord(e + ([d] + tail), d) == Parsed([v] + ParseRecord(tail, d).value, ParseRecord(tail, d).rest)
  {
    assert ([d] + tail)[1..] == tail;
  }

  /** The inductive step of `RecordRoundTrip`: the first field, the delimiter,
      then the rest of the line. */
  lemma RecordRoundTripStep(vs: seq<string>, t: string, d: char)
    requires |vs| >= 2 && d != Quote
    requires ParseRecord(Line(vs[1..], d) + t, d) == Parsed(vs[1..], t)
    ensures ParseRecord(Line(vs, d) + t, d) == Parsed(vs, t)
  {
    var e := EscapeCsvCell(vs[0], d);
    var tail := Line(vs[1..], d) + t;
    LineCons(vs, d);
    ConcatRight(e, [d], Line(vs[1..], d), t);
    FieldRoundTrip(vs[0], [d] + tail, d);
    ParseRecordCons(e, vs[0], tail, d);
    assert vs == [vs[0]] + vs[1..];
  }

  /** One line of escaped values reads back as the values. */
  lemma {:induction false} RecordRoundTrip(vs: seq<string>, t: string, d: char)
    requires |vs| >= 1 && d != Quote && d != '\r'
    requires t == [] || t[0] == '\r'
    ensures ParseRecord(Line(vs, d) + t, d) == Parsed(vs, t)
    decreases |vs|
  {
    if |vs| == 1 {
      RecordRoundTripOne(vs, t, d);
    } else {
      RecordRoundTrip(vs[1..], t, d);
      RecordRoundTripStep(vs, t, d);
    }
  }

  /** The lines of a sequence of records. */
  function Lines(recs: seq<seq<string>>, d: char): (ls: seq<string>)
    ensures |ls| == |recs|
  {
    seq(|recs|, k requires 0 <= k < |recs| => Line(recs[k], d))
  }

  /** A record followed by a line break: the records are that record
      followed by the records read after the line break. */
  lemma ParseRecordsCons(s: string, v: seq<string>, tail: string, d: char)
    requires ParseRecord(s, d) == Parsed(v, LineBreak + tail)
    ensures ParseRecords(s, d) == [v] + ParseRecords(tail, d)
  {
    assert (LineBreak + tail)[..2] == LineBreak;
    assert (LineBreak + tail)[2..] == tail;
  }

  /** The inductive step of `RecordsRoundTrip`: the first record, the line
      break, then the remaining lines. */
  lemma RecordsRoundTripStep(recs: seq<seq<string>>, d: char)
    requires |recs| >= 2 && |recs[0]| >= 1 && d != Quote && d != '\r'
    requires ParseRecords(Join(Lines(recs[1..], d), LineBreak), d) == recs[1..]
    ensures ParseRecords(Join(Lines(recs, d), LineBreak), d) == recs
  {
    var ls := Lines(recs, d);
    var tail := Join(ls[1..], LineBreak);
    assert ls[1..] == Lines(recs[1..], d);
    JoinCons(ls, LineBreak);
    ConcatAssoc(Line(recs[0], d), LineBreak, tail);
    RecordRoundTrip(recs[0], LineBreak + tail, d);
    ParseRecordsCons(Join(ls, LineBreak), recs[0], tail, d);
    assert recs == [recs[0]] + recs[1..];
  }

  /** CRLF-joined lines of escaped values read back as the records. */
  lemma {:induction false} RecordsRoundTrip(recs: seq<seq<string>>, d: char)
    requires |recs| >= 1 && d != Quote && d != '\r'
    requires forall k :: 0 <= k < |recs| ==> |recs[k]| >= 1
    ensures ParseRecords(Join(Lines(recs, d), LineBreak), d) == recs
    decreases |recs|
  {
    if |recs| == 1 {
      RecordRoundTrip(recs[0], [], d);
      assert Join(Lines(recs, d), LineBreak) == Line(recs[0], d) + [];
    } else {
      RecordsRoundTrip(recs[1..], d);
      RecordsRoundTripStep(recs, d);
    }
  }

  /** Reading back the text `tableToCsv` writes, after its byte order mark if
      one was asked for, gives the header row followed by each row's values
      under the headers; this needs at least one header, since a line of no
      cells is read as one empty cell. */
  lemma CsvRoundTrip(headers: seq<string>, rows: seq<Record>, opts: CsvOptions)
    requires |headers| >= 1
    ensures var csv := CsvText(headers, rows, opts);
      var start := if opts.includeBom then 1 else 0;
      && start <= |csv|
      && ParseRecords(csv[start..], ChosenDelimiter(opts))
        == [headers] + seq(|rows|, k requires 0 <= k < |rows| => LookupAll(rows[k], headers))
  {
    var d := ChosenDelimiter(opts);
    var recs := [headers] + seq(|rows|, k requires 0 <= k < |rows| => LookupAll(rows[k], headers));
    assert Lines(recs, d) == CsvLines(headers, rows, d);
    RecordsRoundTrip(recs, d);
    var body := Join(CsvLines(headers, rows, d), LineBreak);
    var csv := CsvText(headers, rows, opts);
    if opts.includeBom {
      assert csv[1..] == body;
    } else {
      assert csv[0..] == body;
    }
  }
}
