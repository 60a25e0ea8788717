/** The canonical table: ordered column names and one record per data row,
    each record a JavaScript object used as a string-to-string dictionary
    (src/importer.ts:4-7). */
module Records {
  import opened Text
  import opened Seqs

  type Record = map<string, string>

  datatype Table = Table(headers: seq<string>, rows: seq<Record>)

  /** `(r[key] ?? "")`: an absent key reads as the empty string. */
  function Lookup(r: Record, key: string): string {
    if key in r then r[key] else ""
  }

  /** The values `row[h] ?? ""` for each `h` of `hs`. */
  function LookupAll(row: Record, hs: seq<string>): (vs: seq<string>)
    ensures |vs| == |hs|
  {
    seq(|hs|, j requires 0 <= j < |hs| => Lookup(row, hs[j]))
  }

  /** `Object.values(r).some((v) => v.trim() !== "")`. */
  predicate HasContent(r: Record) {
    exists k :: k in r && !IsBlank(r[k])
  }

  /** The key set of a record whose keys are exactly `keys`. */
  function KeySet(keys: seq<string>): set<string> {
    set k | k in keys
  }

  /** The record left by `out[keys[j]] = vals[j]` for j = 0, 1, ... in turn, so
      a later duplicate key overwrites the value of an earlier one. */
  function BuildRecord(keys: seq<string>, vals: seq<string>): Record
    requires |keys| == |vals|
  {
    if keys == [] then map[]
    else BuildRecord(keys[..|keys| - 1], vals[..|vals| - 1])[keys[|keys| - 1] := vals[|vals| - 1]]
  }

  /** No later position holds the same key as position `j`. */
  predicate IsLastOccurrence(keys: seq<string>, j: nat) {
    j < |keys| && forall l :: j < l < |keys| ==> keys[l] != keys[j]
  }

  /** The position of the last occurrence of `k` in `keys`. */
  function LastIndexOf(keys: seq<string>, k: string): (j: nat)
    requires k in keys
    ensures IsLastOccurrence(keys, j) && keys[j] == k
  {
    if keys[|keys| - 1] == k then |keys| - 1
    else
      assert k in keys[..|keys| - 1] by {
        var i :| 0 <= i < |keys| && keys[i] == k;
        assert keys[..|keys| - 1][i] == k;
      }
      LastIndexOf(keys[..|keys| - 1], k)
  }

  /** A record built by sequential insertion has exactly the given keys. */
  lemma {:induction false} BuildRecordKeys(keys: seq<string>, vals: seq<string>)
    requires |keys| == |vals|
    ensures BuildRecord(keys, vals).Keys == KeySet(keys)
  {
    if keys != [] {
      var n := |keys| - 1;
      BuildRecordKeys(keys[..n], vals[..n]);
      assert keys == keys[..n] + [keys[n]];
      assert KeySet(keys) == KeySet(keys[..n]) + {keys[n]};
    }
  }

  /** Each key holds the value written at its last occurrence. */
  lemma {:induction false} BuildRecordLastWins(keys: seq<string>, vals: seq<string>, j: nat)
    requires |keys| == |vals| && IsLastOccurrence(keys, j)
    ensures keys[j] in BuildRecord(keys, vals) && BuildRecord(keys, vals)[keys[j]] == vals[j]
  {
    var n := |keys| - 1;
    if j < n {
      assert IsLastOccurrence(keys[..n], j);
      BuildRecordLastWins(keys[..n], vals[..n], j);
      assert keys[j] != keys[n];
    }
  }

  /** Sequential insertion: exactly the given keys, each holding the value
      written at its last occurrence. */
  lemma BuildRecordSpec(keys: seq<string>, vals: seq<string>)
    requires |keys| == |vals|
    ensures BuildRecord(keys, vals).Keys == KeySet(keys)
    ensures forall j: nat :: IsLastOccurrence(keys, j) ==> BuildRecord(keys, vals)[keys[j]] == vals[j]
  {
    BuildRecordKeys(keys, vals);
    forall j: nat | IsLastOccurrence(keys, j) ensures BuildRecord(keys, vals)[keys[j]] == vals[j] {
      BuildRecordLastWins(keys, vals, j);
    }
  }

  /** The value a built record holds for any of its keys. */
  lemma BuildRecordAt(keys: seq<string>, vals: seq<string>, k: string)
    requires |keys| == |vals| && k in keys
    ensures k in BuildRecord(keys, vals) && BuildRecord(keys, vals)[k] == vals[LastIndexOf(keys, k)]
  {
    BuildRecordSpec(keys, vals);
  }

  /** When every value is read from the key it is stored under, duplicate keys
      write the same value and the order of insertion does not matter. */
  lemma BuildRecordByKey(keys: seq<string>, f: string -> string)
    ensures BuildRecord(keys, Map(f, keys)) == map k | k in KeySet(keys) :: f(k)
  {
    var r := BuildRecord(keys, Map(f, keys));
    BuildRecordSpec(keys, Map(f, keys));
    forall k | k in KeySet(keys) ensures r[k] == f(k) {
      BuildRecordAt(keys, Map(f, keys), k);
    }
  }

  /** The indexed loop `for (j ...) out[keys[j]] = vals[j]`. */
  method FillRecord(keys: seq<string>, vals: seq<string>) returns (out: Record)
    requires |keys| == |vals|
    ensures out == BuildRecord(keys, vals)
    ensures out.Keys == KeySet(keys)
  {
    out := map[];
    var j := 0;
    while j < |keys|
      invariant 0 <= j <= |keys|
      invariant out == BuildRecord(keys[..j], vals[..j])
    {
      assert keys[..j + 1][..j] == keys[..j] && vals[..j + 1][..j] == vals[..j];
      out := out[keys[j] := vals[j]];
      j := j + 1;
    }
    assert keys[..j] == keys && vals[..j] == vals;
    BuildRecordSpec(keys, vals);
  }
}
