/** The two regular expressions both header scorers test each cell against:
    the marketplace keyword pattern (src/importer.ts:29, src/normalize.ts:20)
    and the blank-column placeholder pattern `/^__empty/i`. */
module Vocabulary {

  /** Case folding of a regular expression with the `i` flag and without `u`:
      a character is compared by its upper-case form, except that a character
      at or above U+0080 never folds onto an ASCII one. Only the characters
      whose upper-case form is an ASCII letter or one of U+0410..U+042F are
      mapped; every other character folds to itself, which cannot make it equal
      to the folded form of a letter of the patterns below. */
  function Fold(c: char): char {
    if 'a' <= c <= 'z' then c - ' '
    else if '\U{430}' <= c <= '\U{44F}' then c - ' '
    else if c == '\U{1C80}' then '\U{412}'
    else if c == '\U{1C81}' then '\U{414}'
    else if c == '\U{1C82}' then '\U{41E}'
    else if c == '\U{1C83}' then '\U{421}'
    else if c == '\U{1C84}' || c == '\U{1C85}' then '\U{422}'
    else if c == '\U{1C86}' then '\U{42A}'
    else c
  }

  /** The pattern `k` occurs, case-insensitively, in `s` starting at position `i`. */
  predicate MatchesAt(s: string, k: string, i: nat)
    requires i + |k| <= |s|
  {
    forall j :: 0 <= j < |k| ==> Fold(s[i + j]) == Fold(k[j])
  }

  /** `new RegExp(k, "i").test(s)` for a pattern `k` without metacharacters. */
  predicate ContainsFolded(s: string, k: string) {
    exists i: nat :: i + |k| <= |s| && MatchesAt(s, k, i)
  }

  /** The alternatives of the keyword pattern (article, brand, name, description,
      price, SKU, barcode, bar code, colour, material, model, compatibility, photo, image). */
  const Keywords: seq<string> := [
    "артикул", "бренд", "наимен", "описан", "цена", "sku", "barcode",
    "штрих", "цвет", "материал", "модель", "совместим", "фото", "image"
  ]

  /** The keyword pattern matches somewhere in `v`. */
  predicate IsKeyword(v: string) {
    exists n :: 0 <= n < |Keywords| && ContainsFolded(v, Keywords[n])
  }

  const PlaceholderPrefix: string := "__empty"

  /** `/^__empty/i.test(v)`: the auto-generated name of a blank column. */
  predicate IsPlaceholder(v: string) {
    |PlaceholderPrefix| <= |v| && MatchesAt(v, PlaceholderPrefix, 0)
  }

  /** Cells longer than this many characters are penalised as free text. */
  const LongCellLength: nat := 80

  predicate IsLong(v: string) {
    |v| > LongCellLength
  }
}
