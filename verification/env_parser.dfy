/** The strict env-file grammar of `BuildEnvGenerator.parceEnv`: every
    kept line is `KEY = "VALUE"`; later keys overwrite earlier ones. */
module EnvParser {
  import opened Wrappers
  import opened Text
  import opened Dictionaries
  import opened Settings

  /** A trimmed line that the loop passes over: empty, or a `#` comment. */
  predicate Ignored(line: string) {
    |line| == 0 || line[0] == '#'
  }

  /** The value starts and ends with a double quotation mark. */
  predicate Quoted(v: string) {
    |v| > 0 && v[0] == '"' && v[|v| - 1] == '"'
  }

  /** `dropFirst().dropLast()`: a lone `"` leaves nothing. */
  function Unquote(q: string): (v: string)
    requires Quoted(q)
    ensures q == "\"" + v + "\"" || (q == "\"" && v == "")
  {
    if |q| == 1 then "" else q[1..|q| - 1]
  }

  /** What one trimmed line does to the dictionary. */
  datatype LineEffect = Skip | Store(key: string, value: string) | Reject(kind: ErrorKind)

  /** One iteration of the `parceEnv` loop body. */
  function EnvLineEffect(line: string): (r: LineEffect)
    ensures r.Skip? <==> Ignored(line)
    ensures r.Reject? ==> r.kind == Separator || r.kind == Enclose
  {
    if Ignored(line) then Skip
    else
      var kv := TrimAll(SplitFirst(line, '='));
      if |kv| != 2 then Reject(Separator)
      else if !Quoted(kv[1]) then Reject(Enclose)
      else Store(kv[0], Unquote(kv[1]))
  }

  /** The three outcomes of a kept line: a missing `=` split is a
      `separator` error, an unquoted value an `enclose` error, and otherwise
      the trimmed key (which never contains `=`) gets the value found
      between the quotes. */
  lemma EnvLineCases(line: string)
    ensures var r := EnvLineEffect(line);
    && (!Ignored(line) ==> (r == Reject(Separator) <==> |SplitFirst(line, '=')| != 2))
    && (r == Reject(Enclose) <==>
          !Ignored(line) && |SplitFirst(line, '=')| == 2 && !Quoted(Trim(SplitFirst(line, '=')[1])))
    && (r.Store? ==> '=' !in r.key && r.key == Trim(SplitFirst(line, '=')[0]))
    && (r.Store? ==> var q := Trim(SplitFirst(line, '=')[1]);
                     q == "\"" + r.value + "\"" || (q == "\"" && r.value == ""))
  {
    if !Ignored(line) && |SplitFirst(line, '=')| == 2 {
      SplitFirstKeyFree(line, '=');
    }
  }

  /** The loop body's verdict on each line, in order. */
  function Effects(lines: seq<string>): (r: seq<LineEffect>)
    ensures |r| == |lines|
    ensures forall i :: 0 <= i < |lines| ==> r[i] == EnvLineEffect(lines[i])
  {
    seq(|lines|, i requires 0 <= i < |lines| => EnvLineEffect(lines[i]))
  }

  /** The dictionary after running the loop over the first `n` lines, or
      the error thrown on the first line that fails. */
  function Run(effects: seq<LineEffect>, n: nat, d: Dict): (r: Outcome<Dict>)
    requires n <= |effects|
    ensures !r.Trapped?
    ensures r.Done? <==> forall j :: 0 <= j < n ==> !effects[j].Reject?
    ensures r.Failed? ==> && r.error.line < n
                          && effects[r.error.line] == Reject(r.error.kind)
                          && forall j :: 0 <= j < r.error.line ==> !effects[j].Reject?
  {
    if n == 0 then Done(d)
    else
      var prev := Run(effects, n - 1, d);
      if !prev.Done? then prev
      else
        match effects[n - 1]
        case Skip => prev
        case Store(k, v) => Done(Put(prev.value, k, v))
        case Reject(kind) => Failed(ParseError(n - 1, kind))
  }

  /** `parceEnv(content:envDict:)` starting from dictionary `d`. */
  function ParseEnv(content: string, d: Dict): Outcome<Dict>
  {
    var effects := Effects(TrimmedLines(content));
    Run(effects, |effects|, d)
  }

  /** Reference definition: the value the last line among the first `n`
      that stores `k` gives it. */
  function LastStore(effects: seq<LineEffect>, n: nat, k: string): Option<string>
    requires n <= |effects|
  {
    if n == 0 then None
    else if effects[n - 1].Store? && effects[n - 1].key == k then Some(effects[n - 1].value)
    else LastStore(effects, n - 1, k)
  }

  /** On success every key holds the value of its last storing line, keys
      no line stores keep their starting value, and nothing else appears:
      later duplicates overwrite, all other keys stay unchanged. */
  lemma {:induction false} RunContents(effects: seq<LineEffect>, n: nat, d: Dict, k: string)
    requires n <= |effects|
    requires Run(effects, n, d).Done?
    ensures var m := Run(effects, n, d).value;
      && (k in m <==> k in d || LastStore(effects, n, k).Some?)
      && (LastStore(effects, n, k).Some? ==> m[k] == LastStore(effects, n, k).value)
      && (LastStore(effects, n, k).None? && k in d ==> m[k] == d[k])
  {
    if n > 0 {
      RunContents(effects, n - 1, d, k);
    }
  }

  /** The env file is merged on top of whatever the dictionary already holds:
      it fails exactly where it would fail on its own, and on success its
      entries override the earlier ones. No key-exists check applies. */
  lemma {:induction false} MergeOverrides(effects: seq<LineEffect>, n: nat, base: Dict, d: Dict)
    requires n <= |effects|
    ensures Run(effects, n, base + d).Failed? ==> Run(effects, n, base + d) == Run(effects, n, d)
    ensures Run(effects, n, base + d).Done? ==> Run(effects, n, base + d).value == base + Run(effects, n, d).value
  {
    if n > 0 {
      MergeOverrides(effects, n - 1, base, d);
      var prev := Run(effects, n - 1, d);
      if prev.Done? && effects[n - 1].Store? {
        PutOverUnion(base, prev.value, effects[n - 1].key, effects[n - 1].value);
      }
    }
  }

  /** A key as it can be written in front of ` = "VALUE"`. */
  predicate PlainKey(k: string) {
    && |k| > 0 && !IsSpace(k[0]) && !IsSpace(k[|k| - 1])
    && k[0] != '#' && '=' !in k && '\n' !in k
  }

  /** The env-file line for one entry. */
  function EntryLine(k: string, v: string): string {
    k + " = \"" + v + "\""
  }

  /** A written entry line is read back as that entry, whatever the value
      holds (`=`, `#`, quotes), short of a line break. */
  lemma EntryLineRoundTrip(k: string, v: string)
    requires PlainKey(k)
    ensures EnvLineEffect(EntryLine(k, v)) == Store(k, v)
  {
    var line := EntryLine(k, v);
    var q := "\"" + v + "\"";
    assert line == (k + " ") + ['='] + (" " + q);
    KeptLine(line, k + " ", " " + q);
    TrimTrailingBlank(k);
    TrimLeadingBlank(q);
    assert q[1..|q| - 1] == v;
  }

  /** A kept line with a non-empty, `=`-free head before its first `=` and
      something after it stores the trimmed head when the trimmed rest is
      quoted, and is an `enclose` error otherwise. */
  lemma KeptLine(line: string, a: string, b: string)
    requires line == a + ['='] + b
    requires |a| > 0 && |b| > 0 && '=' !in a && a[0] != '#'
    ensures Quoted(Trim(b)) ==> EnvLineEffect(line) == Store(Trim(a), Unquote(Trim(b)))
    ensures !Quoted(Trim(b)) ==> EnvLineEffect(line) == Reject(Enclose)
  {
    SplitFirstAt(a, b, '=');
    assert line[0] == a[0];
  }

  /** The lines of the env file that lists `entries`. */
  function EntryLines(entries: seq<(string, string)>): (r: seq<string>)
    ensures |r| == |entries|
    ensures forall i :: 0 <= i < |entries| ==> r[i] == EntryLine(entries[i].0, entries[i].1)
  {
    seq(|entries|, i requires 0 <= i < |entries| => EntryLine(entries[i].0, entries[i].1))
  }

  /** The env file that lists `entries` one per line. */
  function EnvFileText(entries: seq<(string, string)>): string
  {
    JoinWith(EntryLines(entries), "\n")
  }

  predicate WritableEntries(entries: seq<(string, string)>) {
    forall i :: 0 <= i < |entries| ==> PlainKey(entries[i].0) && '\n' !in entries[i].1
  }

  lemma EnvFileLines(entries: seq<(string, string)>)
    requires WritableEntries(entries)
    ensures TrimmedLines(EnvFileText(entries)) == EntryLines(entries)
  {
    var ls := EntryLines(entries);
    forall i | 0 <= i < |ls|
      ensures |ls[i]| > 0 && '\n' !in ls[i]
    {
      assert ls[i] == entries[i].0 + (" = \"" + entries[i].1 + "\"");
    }
    SplitJoin(ls, '\n');
    var lines := TrimmedLines(EnvFileText(entries));
    forall i | 0 <= i < |ls|
      ensures lines[i] == ls[i]
    {
      TrimNoop(ls[i]);
    }
  }

  /** Writing entries as an env file and parsing it gives back their
      last-write-wins dictionary, merged over the starting one. */
  lemma EnvFileRoundTrip(entries: seq<(string, string)>, d: Dict)
    requires WritableEntries(entries)
    ensures ParseEnv(EnvFileText(entries), d) == Done(d + FromEntries(entries))
  {
    EnvFileLines(entries);
    var effects := Effects(EntryLines(entries));
    forall i | 0 <= i < |effects|
      ensures effects[i] == Store(entries[i].0, entries[i].1)
    {
      EntryLineRoundTrip(entries[i].0, entries[i].1);
    }
    LinesRoundTrip(entries, effects, |entries|, d);
    assert entries[..|entries|] == entries;
  }

  lemma {:induction false} LinesRoundTrip(entries: seq<(string, string)>, effects: seq<LineEffect>, n: nat, d: Dict)
    requires n <= |entries| == |effects|
    requires forall i :: 0 <= i < |effects| ==> effects[i] == Store(entries[i].0, entries[i].1)
    ensures Run(effects, n, d) == Done(d + FromEntries(entries[..n]))
  {
    if n > 0 {
      LinesRoundTrip(entries, effects, n - 1, d);
      assert entries[..n][..n - 1] == entries[..n - 1];
      PutOverUnion(d, FromEntries(entries[..n - 1]), entries[n - 1].0, entries[n - 1].1);
    } else {
      assert entries[..n] == [];
      assert d + map[] == d;
    }
  }
}
