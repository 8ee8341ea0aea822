/** The env-line loop of the two older tools (`BuildEnvFile` and
    `BuildEnv`, which share it): raw lines are tested for a leading `#`
    before any trimming, values need no quotes, and the first bad line
    stops the tool with that line's text. */
module LooseEnv {
  import opened Text
  import opened Dictionaries
  import opened Settings
  import EnvParser

  /** The loop's skip test, on the raw line. */
  predicate Skipped(line: string) {
    |line| == 0 || line[0] == '#'
  }

  /** One iteration of the loop body: both sides trimmed and stored as they
      are. A bad line is reported through the same `Reject` verdict the
      strict loop uses. */
  function LooseLineEffect(line: string): (r: EnvParser.LineEffect)
    ensures r.Skip? <==> Skipped(line)
    ensures r.Reject? ==> r.kind == Separator
  {
    if Skipped(line) then EnvParser.Skip
    else
      var kv := TrimAll(SplitFirst(line, '='));
      if |kv| != 2 then EnvParser.Reject(Separator)
      else EnvParser.Store(kv[0], kv[1])
  }

  /** A kept line is rejected exactly when it does not split in two at its
      first `=`; otherwise the trimmed left side (never holding `=`) gets
      the trimmed right side, quotes and all. */
  lemma LooseLineCases(line: string)
    ensures var r := LooseLineEffect(line);
      && (!Skipped(line) ==> (r.Reject? <==> |SplitFirst(line, '=')| != 2))
      && (r.Store? ==> && r.key == Trim(SplitFirst(line, '=')[0])
                       && r.value == Trim(SplitFirst(line, '=')[1])
                       && '=' !in r.key)
  {
    if !Skipped(line) && |SplitFirst(line, '=')| == 2 {
      SplitFirstKeyFree(line, '=');
    }
  }

  function LooseEffects(lines: seq<string>): (r: seq<EnvParser.LineEffect>)
    ensures |r| == |lines|
    ensures forall i :: 0 <= i < |lines| ==> r[i] == LooseLineEffect(lines[i])
  {
    seq(|lines|, i requires 0 <= i < |lines| => LooseLineEffect(lines[i]))
  }

  /** The loop's result: the dictionary, or the first invalid raw line. */
  datatype Loaded = Entries(dict: Dict) | InvalidLine(line: string)

  /** The env-line loop over `env.split(separator: "\n")`. */
  function LoadEnv(content: string): Loaded
  {
    var lines := SplitAll(content, '\n');
    var r := EnvParser.Run(LooseEffects(lines), |lines|, map[]);
    if r.Done? then Entries(r.value) else InvalidLine(lines[r.error.line])
  }

  /** The loop stops at the first invalid line and at nothing else. */
  lemma LoadStopsAtFirstInvalid(content: string)
    ensures var lines := SplitAll(content, '\n');
      && (LoadEnv(content).Entries? <==> forall i :: 0 <= i < |lines| ==> !LooseLineEffect(lines[i]).Reject?)
      && (LoadEnv(content).InvalidLine? ==>
            exists i :: && 0 <= i < |lines| && LoadEnv(content).line == lines[i]
                        && LooseLineEffect(lines[i]).Reject?
                        && forall j :: 0 <= j < i ==> !LooseLineEffect(lines[j]).Reject?)
  {
    var lines := SplitAll(content, '\n');
    var effects := LooseEffects(lines);
    var r := EnvParser.Run(effects, |lines|, map[]);
    assert LoadEnv(content) == if r.Done? then Entries(r.value) else InvalidLine(lines[r.error.line]);
    assert r.Done? <==> forall j :: 0 <= j < |lines| ==> !effects[j].Reject?;
    if !r.Done? {
      var i := r.error.line;
      assert effects[i].Reject?;
      assert forall j :: 0 <= j < i ==> !effects[j].Reject?;
    }
  }
  /** Every key holds the value of the last line that stores it; there are
      no other keys. */
  lemma LoadContents(content: string, k: string)
    requires LoadEnv(content).Entries?
    ensures var effects := LooseEffects(SplitAll(content, '\n'));
      var last := EnvParser.LastStore(effects, |effects|, k);
      && (k in LoadEnv(content).dict <==> last.Some?)
      && (last.Some? ==> LoadEnv(content).dict[k] == last.value)
  {
    var effects := LooseEffects(SplitAll(content, '\n'));
    EnvParser.RunContents(effects, |effects|, map[], k);
  }

  /** A comment marker after indentation does not make a comment: the
      strict loop, which trims first, skips the line `  #x = 1`; the loose
      loop reads the entry `#x` from it. */
  lemma IndentedCommentKept(pad: string, k: string, v: string)
    requires |pad| > 0 && forall i :: 0 <= i < |pad| ==> IsSpace(pad[i])
    requires |k| > 0 && k[0] == '#' && !IsSpace(k[|k| - 1]) && '=' !in k
    requires PlainValue(v)
    ensures EnvParser.Ignored(Trim(pad + k + " = " + v))
    ensures LooseLineEffect(pad + k + " = " + v) == EnvParser.Store(k, v)
  {
    var line := pad + k + " = " + v;
    var rest := k + " = " + v;
    assert line == pad + rest;
    assert rest[0] == k[0] && rest[|rest| - 1] == v[|v| - 1];
    TrimLeftPadded(pad, rest);
    Spaced(pad + k, v);
    IndentedSplit(pad, k, " ", " ", v);
  }

  lemma Spaced(x: string, y: string)
    ensures x + " = " + y == x + " " + ['='] + " " + y
  {
    assert " = " == " " + ['='] + " ";
  }

  /** Blanks of any width around the `=` are trimmed away. */
  lemma IndentedSplit(pad: string, k: string, g1: string, g2: string, v: string)
    requires |pad| > 0 && forall i :: 0 <= i < |pad| ==> IsSpace(pad[i])
    requires forall i :: 0 <= i < |g1| ==> IsSpace(g1[i])
    requires forall i :: 0 <= i < |g2| ==> IsSpace(g2[i])
    requires |k| > 0 && !IsSpace(k[0]) && !IsSpace(k[|k| - 1]) && '=' !in k
    requires PlainValue(v)
    ensures LooseLineEffect(pad + k + g1 + ['='] + g2 + v) == EnvParser.Store(k, v)
  {
    var a, b := pad + k + g1, g2 + v;
    assert pad + k + g1 + ['='] + g2 + v == a + ['='] + b;
    assert a[0] == pad[0];
    KeptLine(a + ['='] + b, a, b);
    TrimPadded(pad, k, g1);
    TrimLeftPadded(g2, v);
  }

  /** A kept line with a non-empty, `=`-free head before its first `=` and
      something after it stores the trimmed head and the trimmed rest. */
  lemma KeptLine(line: string, a: string, b: string)
    requires line == a + ['='] + b
    requires |a| > 0 && |b| > 0 && '=' !in a && a[0] != '#'
    ensures LooseLineEffect(line) == EnvParser.Store(Trim(a), Trim(b))
  {
    SplitFirstAt(a, b, '=');
    assert line[0] == a[0];
  }

  /** A line in the strict format loads with its quotation marks kept. */
  lemma QuotesKept(k: string, v: string)
    requires EnvParser.PlainKey(k)
    ensures LooseLineEffect(EnvParser.EntryLine(k, v)) == EnvParser.Store(k, "\"" + v + "\"")
  {
    var q := "\"" + v + "\"";
    assert EnvParser.EntryLine(k, v) == (k + " ") + ['='] + (" " + q);
    SplitFirstAt(k + " ", " " + q, '=');
    TrimTrailingBlank(k);
    TrimLeadingBlank(q);
  }

  /** A value the loose format can carry: one word-like run with no outer
      blanks and no line break. */
  predicate PlainValue(v: string) {
    |v| > 0 && !IsSpace(v[0]) && !IsSpace(v[|v| - 1]) && '\n' !in v
  }

  function LooseLine(k: string, v: string): string {
    k + " = " + v
  }

  lemma LooseLineRoundTrip(k: string, v: string)
    requires EnvParser.PlainKey(k) && PlainValue(v)
    ensures LooseLineEffect(LooseLine(k, v)) == EnvParser.Store(k, v)
  {
    assert LooseLine(k, v) == (k + " ") + ['='] + (" " + v);
    SplitFirstAt(k + " ", " " + v, '=');
    TrimTrailingBlank(k);
    TrimLeadingBlank(v);
  }

  /** `KEY = ` with nothing after the blank stores the empty value. */
  lemma LooseEmptyValue(k: string)
    requires EnvParser.PlainKey(k)
    ensures LooseLineEffect(k + " = ") == EnvParser.Store(k, "")
  {
    assert k + " = " == (k + " ") + ['='] + " ";
    SplitFirstAt(k + " ", " ", '=');
    TrimTrailingBlank(k);
    assert Trim(" ") == "";
  }

  function LooseLines(entries: seq<(string, string)>): (r: seq<string>)
    ensures |r| == |entries|
    ensures forall i :: 0 <= i < |entries| ==> r[i] == LooseLine(entries[i].0, entries[i].1)
  {
    seq(|entries|, i requires 0 <= i < |entries| => LooseLine(entries[i].0, entries[i].1))
  }

  lemma LooseFileLines(entries: seq<(string, string)>)
    requires forall i :: 0 <= i < |entries| ==> EnvParser.PlainKey(entries[i].0) && PlainValue(entries[i].1)
    ensures SplitAll(JoinWith(LooseLines(entries), "\n"), '\n') == LooseLines(entries)
  {
    var ls := LooseLines(entries);
    forall i | 0 <= i < |ls|
      ensures |ls[i]| > 0 && '\n' !in ls[i]
    {
      assert ls[i] == entries[i].0 + (" = " + entries[i].1);
    }
    SplitJoin(ls, '\n');
  }

  /** Writing entries one per line in the loose format and loading the text
      gives their last-write-wins dictionary. */
  lemma LooseRoundTrip(entries: seq<(string, string)>)
    requires forall i :: 0 <= i < |entries| ==> EnvParser.PlainKey(entries[i].0) && PlainValue(entries[i].1)
    ensures LoadEnv(JoinWith(LooseLines(entries), "\n")) == Entries(FromEntries(entries))
  {
    LooseFileLines(entries);
    var effects := LooseEffects(LooseLines(entries));
    forall i | 0 <= i < |effects|
      ensures effects[i] == EnvParser.Store(entries[i].0, entries[i].1)
    {
      LooseLineRoundTrip(entries[i].0, entries[i].1);
    }
    EnvParser.LinesRoundTrip(entries, effects, |entries|, map[]);
    assert entries[..|entries|] == entries;
    assert map[] + FromEntries(entries) == FromEntries(entries);
  }
}
