/** String helpers shared by the importer, the normaliser and the exporter:
    ECMAScript `String.prototype.trim`, decimal rendering of positions and the
    positional fallback column name. */
module Text {
  import opened Seqs

  /** The characters `trim` removes: ECMAScript WhiteSpace (TAB, VT, FF, SP,
      NBSP, ZWNBSP and every Zs character) and LineTerminator (LF, CR, LS, PS). */
  predicate IsTrimmable(c: char) {
    || c == '\t' || c == '\n' || c == '\U{B}' || c == '\U{C}' || c == '\r' || c == ' '
    || c == '\U{A0}' || c == '\U{1680}' || ('\U{2000}' <= c <= '\U{200A}')
    || c == '\U{2028}' || c == '\U{2029}' || c == '\U{202F}' || c == '\U{205F}'
    || c == '\U{3000}' || c == '\U{FEFF}'
  }

  /** Drops trimmable characters from the front. */
  function TrimStart(s: string): (r: string)
    ensures |r| <= |s| && r == s[|s| - |r|..]
    ensures r == [] || !IsTrimmable(r[0])
    ensures forall k :: 0 <= k < |s| - |r| ==> IsTrimmable(s[k])
  {
    if |s| > 0 && IsTrimmable(s[0]) then TrimStart(s[1..]) else s
  }

  /** Drops trimmable characters from the back. */
  function TrimEnd(s: string): (r: string)
    ensures |r| <= |s| && r == s[..|r|]
    ensures r == [] || !IsTrimmable(r[|r| - 1])
    ensures forall k :: |r| <= k < |s| ==> IsTrimmable(s[k])
  {
    if |s| > 0 && IsTrimmable(s[|s| - 1]) then TrimEnd(s[..|s| - 1]) else s
  }

  /** `s.trim()`. */
  function Trim(s: string): (r: string)
    ensures r == [] || (!IsTrimmable(r[0]) && !IsTrimmable(r[|r| - 1]))
    ensures r == [] <==> forall k :: 0 <= k < |s| ==> IsTrimmable(s[k])
  {
    var t := TrimStart(s);
    var r := TrimEnd(t);
    r
  }

  /** A string with no trimmable character at either end is its own trim. */
  lemma TrimOfTrimmed(s: string)
    requires s == [] || (!IsTrimmable(s[0]) && !IsTrimmable(s[|s| - 1]))
    ensures Trim(s) == s
  {
  }

  /** Trimming twice is trimming once. */
  lemma TrimIdempotent(s: string)
    ensures Trim(Trim(s)) == Trim(s)
  {
    TrimOfTrimmed(Trim(s));
  }

  /** A value that is empty after trimming (JavaScript's falsy `v.trim()`). */
  predicate IsBlank(s: string) {
    Trim(s) == []
  }

  predicate NonEmpty(s: string) {
    s != []
  }

  /** `values.map(trim).filter(Boolean)`: the non-blank values, trimmed, in order. */
  function NonBlankValues(values: seq<string>): seq<string> {
    Filter(Map(Trim, values), NonEmpty)
  }

  predicate IsDigit(c: char) {
    '0' <= c <= '9'
  }

  /** The decimal rendering of `n`, as JavaScript's template literals produce it. */
  function NatToDecimal(n: nat): (r: string)
    ensures |r| >= 1
    ensures forall k :: 0 <= k < |r| ==> IsDigit(r[k])
    ensures r[0] == '0' ==> n == 0
  {
    var d := ['0' + ((n % 10) as char)];
    if n < 10 then d else NatToDecimal(n / 10) + d
  }

  /** Reads a string of decimal digits back as a number. */
  function DecimalValue(s: string): nat
    requires forall k :: 0 <= k < |s| ==> IsDigit(s[k])
  {
    if s == [] then 0 else 10 * DecimalValue(s[..|s| - 1]) + DigitValue(s[|s| - 1])
  }

  function DigitValue(c: char): (v: nat)
    requires IsDigit(c)
    ensures v < 10 && c == '0' + (v as char)
  {
    (c - '0') as nat
  }

  /** Reading back a rendered number gives the number. */
  lemma {:induction false} DecimalRoundTrip(n: nat)
    ensures DecimalValue(NatToDecimal(n)) == n
  {
    var r := NatToDecimal(n);
    var d := ['0' + ((n % 10) as char)];
    if n >= 10 {
      DecimalRoundTrip(n / 10);
      assert r[..|r| - 1] == NatToDecimal(n / 10);
    }
  }

  /** The prefix of every positional fallback column name ("Column "). */
  const ColumnWord: string := "Колонка "

  /** The fallback name given to the blank column at 0-based position `i`: `Колонка ${i + 1}`. */
  function FallbackName(i: nat): string {
    ColumnWord + NatToDecimal(i + 1)
  }

  /** Fallback names are never blank and already trimmed. */
  lemma FallbackNameTrimmed(i: nat)
    ensures !IsBlank(FallbackName(i))
    ensures Trim(FallbackName(i)) == FallbackName(i)
  {
    var f := FallbackName(i);
    assert f[0] == 'К';
    assert IsDigit(f[|f| - 1]);
    TrimOfTrimmed(f);
  }

  /** Distinct positions get distinct fallback names. */
  lemma FallbackNameInjective(i: nat, j: nat)
    requires FallbackName(i) == FallbackName(j)
    ensures i == j
  {
    var a, b := NatToDecimal(i + 1), NatToDecimal(j + 1);
    assert a == FallbackName(i)[|ColumnWord|..];
    assert b == FallbackName(j)[|ColumnWord|..];
    DecimalRoundTrip(i + 1);
    DecimalRoundTrip(j + 1);
  }
}
