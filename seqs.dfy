/** Sequence combinators the source uses through `Array.prototype.map`,
    `filter` and loops that keep the first maximum. */
module Seqs {

  function Min(a: int, b: int): int { if a <= b then a else b }

  function Max(a: int, b: int): int { if a >= b then a else b }

  /** `s.map(f)`. */
  function Map<T, U>(f: T -> U, s: seq<T>): (r: seq<U>)
    ensures |r| == |s| && forall i :: 0 <= i < |s| ==> r[i] == f(s[i])
  {
    seq(|s|, i requires 0 <= i < |s| => f(s[i]))
  }

  /** `s.filter(p)`: the elements satisfying `p`, in their original order. */
  function Filter<T>(s: seq<T>, p: T -> bool): (r: seq<T>)
    ensures |r| <= |s|
  {
    if s == [] then [] else (if p(s[0]) then [s[0]] else []) + Filter(s[1..], p)
  }

  /** Filtering keeps only elements of the input that satisfy `p`. */
  lemma {:induction false} FilterSound<T>(s: seq<T>, p: T -> bool)
    ensures forall x :: x in Filter(s, p) ==> x in s && p(x)
  {
    if s != [] {
      FilterSound(s[1..], p);
    }
  }

  /** How many elements satisfy `p`. */
  function Count<T>(s: seq<T>, p: T -> bool): nat {
    |Filter(s, p)|
  }

  /** The distinct elements (`new Set(s)`). */
  function Distinct<T>(s: seq<T>): set<T> {
    set x | x in s
  }

  /** The positions of `s` whose element satisfies `p`, in increasing order. */
  function KeptIndices<T>(s: seq<T>, p: T -> bool): seq<nat> {
    if s == [] then []
    else
      var rest := KeptIndices(s[1..], p);
      (if p(s[0]) then [0] else []) + seq(|rest|, k requires 0 <= k < |rest| => rest[k] + 1)
  }

  /** The kept positions are in range, satisfy `p`, and are where the filtered
      elements come from. */
  lemma {:induction false} KeptIndicesAt<T>(s: seq<T>, p: T -> bool)
    ensures |KeptIndices(s, p)| == |Filter(s, p)|
    ensures forall k :: 0 <= k < |KeptIndices(s, p)| ==>
      KeptIndices(s, p)[k] < |s| && p(s[KeptIndices(s, p)[k]]) && Filter(s, p)[k] == s[KeptIndices(s, p)[k]]
  {
    if s != [] {
      KeptIndicesAt(s[1..], p);
      var rest := KeptIndices(s[1..], p);
      var idx := KeptIndices(s, p);
      var f := Filter(s, p);
      assert f == (if p(s[0]) then [s[0]] else []) + Filter(s[1..], p);
      var h := if p(s[0]) then 1 else 0;
      forall k | 0 <= k < |idx|
        ensures idx[k] < |s| && p(s[idx[k]]) && f[k] == s[idx[k]]
      {
        if k >= h {
          assert idx[k] == rest[k - h] + 1;
          assert s[idx[k]] == s[1..][rest[k - h]];
        }
      }
    }
  }

  /** The kept positions are strictly increasing. */
  lemma {:induction false} KeptIndicesIncreasing<T>(s: seq<T>, p: T -> bool)
    ensures forall k, l :: 0 <= k < l < |KeptIndices(s, p)| ==> KeptIndices(s, p)[k] < KeptIndices(s, p)[l]
  {
    if s != [] {
      KeptIndicesIncreasing(s[1..], p);
    }
  }

  /** Every position satisfying `p` is kept. */
  lemma {:induction false} KeptIndicesComplete<T>(s: seq<T>, p: T -> bool)
    ensures forall i :: 0 <= i < |s| && p(s[i]) ==> i in KeptIndices(s, p)
  {
    if s != [] {
      KeptIndicesComplete(s[1..], p);
      var rest := KeptIndices(s[1..], p);
      var idx := KeptIndices(s, p);
      var h := if p(s[0]) then 1 else 0;
      forall i | 0 <= i < |s| && p(s[i]) ensures i in idx {
        if i > 0 {
          assert s[1..][i - 1] == s[i];
          var k :| 0 <= k < |rest| && rest[k] == i - 1;
          assert idx[h + k] == i;
        }
      }
    }
  }

  /** Filtering keeps exactly the elements at the positions satisfying `p`, in
      their original relative order. */
  lemma FilterKeepsOrder<T>(s: seq<T>, p: T -> bool)
    ensures var idx := KeptIndices(s, p);
      && |idx| == |Filter(s, p)|
      && (forall k :: 0 <= k < |idx| ==> idx[k] < |s| && p(s[idx[k]]) && Filter(s, p)[k] == s[idx[k]])
      && (forall k, l :: 0 <= k < l < |idx| ==> idx[k] < idx[l])
      && (forall i :: 0 <= i < |s| && p(s[i]) ==> i in idx)
  {
    KeptIndicesAt(s, p);
    KeptIndicesIncreasing(s, p);
    KeptIndicesComplete(s, p);
  }

  /** Filtering distributes over concatenation. */
  lemma {:induction false} FilterAppend<T>(a: seq<T>, b: seq<T>, p: T -> bool)
    ensures Filter(a + b, p) == Filter(a, p) + Filter(b, p)
  {
    if a != [] {
      assert (a + b)[1..] == a[1..] + b;
      FilterAppend(a[1..], b, p);
      var head := if p(a[0]) then [a[0]] else [];
      assert Filter(a + b, p) == head + Filter(a[1..] + b, p);
      assert Filter(a, p) == head + Filter(a[1..], p);
    } else {
      assert a + b == b;
    }
  }

  /** Filtering a sequence extended by one element. */
  lemma FilterSnoc<T>(a: seq<T>, x: T, p: T -> bool)
    ensures Filter(a + [x], p) == Filter(a, p) + (if p(x) then [x] else [])
  {
    FilterAppend(a, [x], p);
    assert Filter([x], p) == (if p(x) then [x] else []) + Filter([x][1..], p);
  }

  /** Regrouping a concatenation of three sequences to the right. */
  lemma ConcatAssoc<T>(a: seq<T>, b: seq<T>, c: seq<T>)
    ensures a + b + c == a + (b + c)
  {
  }

  /** Regrouping a concatenation of four sequences after its first part. */
  lemma ConcatRight<T>(a: seq<T>, b: seq<T>, c: seq<T>, e: seq<T>)
    ensures a + b + c + e == a + (b + (c + e))
    ensures a + b + c + e == a + (b + c + e)
  {
  }

  /** Filtering a prefix one element longer. */
  lemma FilterPrefixSnoc<T>(s: seq<T>, k: nat, p: T -> bool)
    requires k < |s|
    ensures Filter(s[..k + 1], p) == Filter(s[..k], p) + (if p(s[k]) then [s[k]] else [])
  {
    assert s[..k + 1] == s[..k] + [s[k]];
    FilterSnoc(s[..k], s[k], p);
  }

  /** Filtering with a predicate every element satisfies changes nothing. */
  lemma {:induction false} FilterAll<T>(s: seq<T>, p: T -> bool)
    requires forall i :: 0 <= i < |s| ==> p(s[i])
    ensures Filter(s, p) == s
  {
    if s != [] {
      FilterAll(s[1..], p);
    }
  }

  /** Filtering with a predicate no element satisfies leaves nothing. */
  lemma {:induction false} FilterNone<T>(s: seq<T>, p: T -> bool)
    requires forall i :: 0 <= i < |s| ==> !p(s[i])
    ensures Filter(s, p) == []
  {
    if s != [] {
      FilterNone(s[1..], p);
    }
  }

  /** Filtering twice by the same predicate is filtering once. */
  lemma FilterIdempotent<T>(s: seq<T>, p: T -> bool)
    ensures Filter(Filter(s, p), p) == Filter(s, p)
  {
    var r := Filter(s, p);
    FilterSound(s, p);
    forall i | 0 <= i < |r| ensures p(r[i]) { assert r[i] in r; }
    FilterAll(r, p);
  }

  /** Mapping a prefix one element longer. */
  lemma MapPrefixSnoc<T, U>(f: T -> U, s: seq<T>, k: nat)
    requires k < |s|
    ensures Map(f, s[..k + 1]) == Map(f, s[..k]) + [f(s[k])]
  {
  }

  /** `k` is where a left-to-right scan that replaces its best on a strictly
      greater value stops: a maximum, and no earlier element equals it. */
  predicate IsFirstMax(s: seq<int>, k: nat) {
    && k < |s|
    && (forall j :: 0 <= j < |s| ==> s[j] <= s[k])
    && (forall j :: 0 <= j < k ==> s[j] < s[k])
  }

  /** The position of the first maximum of a non-empty sequence. */
  function FirstMax(s: seq<int>): (k: nat)
    requires |s| > 0
    ensures IsFirstMax(s, k)
  {
    if |s| == 1 then 0
    else
      var k := FirstMax(s[..|s| - 1]);
      if s[|s| - 1] > s[k] then |s| - 1 else k
  }

  /** One more step of the scan: the first maximum of a longer prefix. */
  lemma FirstMaxSnoc(s: seq<int>, i: nat)
    requires 0 < i < |s|
    ensures FirstMax(s[..i + 1]) == if s[i] > s[FirstMax(s[..i])] then i else FirstMax(s[..i])
  {
    assert s[..i + 1][..i] == s[..i];
  }

  /** The running best of a scan that keeps the first maximum: `-Infinity`
      before any element is seen. */
  datatype BestScore = NegInfinity | Finite(value: int)

  /** `s > bestScore`. */
  predicate Beats(s: int, best: BestScore) {
    best.NegInfinity? || s > best.value
  }

  /** The state of a scan that keeps the first maximum after looking at the
      first `i` elements of `s`: nothing seen yet, or the first maximum of the
      prefix and its value. */
  predicate Scanned(s: seq<int>, i: nat, k: int, best: BestScore) {
    && i <= |s|
    && (i == 0 ==> best == NegInfinity)
    && (i > 0 ==> 0 <= k < i && k == FirstMax(s[..i]) && best == Finite(s[k]))
  }

  /** One step of the scan: replacing the best on a strictly greater value
      gives the state of the prefix one element longer. */
  lemma ScanStep(s: seq<int>, i: nat, x: int, k: int, best: BestScore)
    requires i < |s| && x == s[i] && Scanned(s, i, k, best)
    ensures Beats(x, best) ==> Scanned(s, i + 1, i, Finite(x))
    ensures !Beats(x, best) ==> Scanned(s, i + 1, k, best)
  {
    if i > 0 {
      FirstMaxSnoc(s, i);
    }
  }

  /** A scan of the whole of a non-empty sequence ends at its first maximum. */
  lemma ScanDone(s: seq<int>, i: nat, k: int, best: BestScore)
    requires 0 < i == |s| && Scanned(s, i, k, best)
    ensures k == FirstMax(s) && best == Finite(s[k])
  {
    assert s[..i] == s;
  }
}
