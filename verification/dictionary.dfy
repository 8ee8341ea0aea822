/** The `[String: String]` dictionary and its insert-if-absent extension. */
module Dictionaries {

  type Dict = map<string, string>

  /** `append(key:value:)`: inserts `key` only when it is absent and reports
      whether it did. */
  function Append(d: Dict, key: string, value: string): (r: (bool, Dict))
    ensures key in d ==> !r.0 && r.1 == d
    ensures key !in d ==> r.0 && key in r.1 && r.1[key] == value
    ensures forall k :: k != key ==> (k in r.1 <==> k in d)
    ensures forall k :: k != key && k in d ==> r.1[k] == d[k]
    ensures r.0 <==> |r.1| == |d| + 1
    ensures !r.0 <==> |r.1| == |d|
  {
    if key in d then (false, d) else (true, d[key := value])
  }

  /** Subscript assignment `d[key] = value`: insert or overwrite. */
  function Put(d: Dict, key: string, value: string): (r: Dict)
    ensures key in r && r[key] == value
    ensures r.Keys == d.Keys + {key}
    ensures forall k :: k != key && k in d ==> r[k] == d[k]
  {
    d[key := value]
  }

  /** Overwriting and then taking a union commute: entries stored on top of
      `base + d` end up exactly where they end up on top of `d`. */
  lemma PutOverUnion(base: Dict, d: Dict, key: string, value: string)
    ensures Put(base + d, key, value) == base + Put(d, key, value)
  {
  }

  /** The dictionary built by storing `entries` in order, later entries
      overwriting earlier ones. */
  function FromEntries(entries: seq<(string, string)>): Dict
  {
    if |entries| == 0 then map[]
    else FromEntries(entries[..|entries| - 1])[entries[|entries| - 1].0 := entries[|entries| - 1].1]
  }

  /** One more entry is one more store. */
  lemma FromEntriesSnoc(es: seq<(string, string)>, e: (string, string))
    ensures FromEntries(es + [e]) == Put(FromEntries(es), e.0, e.1)
  {
    assert (es + [e])[..|es|] == es;
  }

  /** A key is present exactly when some entry names it. */
  lemma {:induction false} FromEntriesKeys(entries: seq<(string, string)>, k: string)
    ensures k in FromEntries(entries) <==> exists i :: 0 <= i < |entries| && entries[i].0 == k
  {
    if |entries| > 0 {
      var init := entries[..|entries| - 1];
      FromEntriesKeys(init, k);
      if exists i :: 0 <= i < |init| && init[i].0 == k {
        var i :| 0 <= i < |init| && init[i].0 == k;
        assert entries[i].0 == k;
      }
      if exists i :: 0 <= i < |entries| && entries[i].0 == k {
        var i :| 0 <= i < |entries| && entries[i].0 == k;
        if i < |init| {
          assert init[i].0 == k;
        }
      }
    }
  }
}
