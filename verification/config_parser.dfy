/** The configuration-file grammar of `BuildEnvGenerator.parceConfig`:
    `KEY = $VAR` / `KEY = $VAR?` assignments that copy a process-environment
    variable into the dictionary (never overwriting), and `name:`,
    `access:`, `encode:` directives that set the output settings. */
module ConfigParser {
  import opened Wrappers
  import opened Text
  import opened Dictionaries
  import opened Settings
  import EnvParser

  /** A settings change made by a directive line. */
  datatype Setting = SetName(name: string) | SetAccess(level: AccessLevel) | SetEncode(on: bool)

  /** What a trimmed configuration line says, before it meets the state. */
  datatype Item =
    | Blank
    | Assignment(key: string, variable: string, optional: bool)
    | Directive(setting: Setting)
    | Bad(kind: ErrorKind)
    | Crash

  /** The parser's running state: settings so far and the dictionary. */
  datatype State = State(config: Config, dict: Dict)

  /** `$VAR` or `$VAR?` with the `$` already checked: the variable name and
      whether the lookup is optional. */
  function VariableRef(rhs: string): (r: (string, bool))
    requires |rhs| > 0 && rhs[0] == '$'
    ensures rhs == "$" + r.0 + (if r.1 then "?" else "")
    ensures r.1 <==> rhs[|rhs| - 1] == '?' && |rhs| > 1
  {
    var name := rhs[1..];
    if |name| > 0 && name[|name| - 1] == '?' then (name[..|name| - 1], true) else (name, false)
  }

  /** The assignment branch: `keyValue[1]` is read without a count check. */
  function AssignmentItem(kv: seq<string>): (r: Item)
    ensures r.Crash? || r == Bad(At) || r.Assignment?
  {
    if |kv| < 2 then Crash
    else if |kv[1]| == 0 || kv[1][0] != '$' then Bad(At)
    else
      var (name, optional) := VariableRef(kv[1]);
      Assignment(kv[0], name, optional)
  }

  /** The directive branch: `keyValue[0]` is read first, the keyword checked,
      then `keyValue[1]` is read without a count check. */
  function DirectiveItem(kv: seq<string>): (r: Item)
    ensures r.Crash? || r.Directive? || r in {Bad(KeywordError), Bad(AccessSpec), Bad(EncodeSpec)}
  {
    if |kv| == 0 then Crash
    else
      match KeywordFromRaw(kv[0])
      case None => Bad(KeywordError)
      case Some(keyword) =>
        if |kv| < 2 then Crash
        else
          match keyword
          case NameKey => Directive(SetName(kv[1]))
          case AccessKey =>
            (match AccessFromRaw(kv[1])
             case None => Bad(AccessSpec)
             case Some(level) => Directive(SetAccess(level)))
          case EncodeKey =>
            if kv[1] == "yes" || kv[1] == "no" then Directive(SetEncode(kv[1] == "yes"))
            else Bad(EncodeSpec)
  }

  /** How the loop body reads one trimmed line: `=` decides first, then `:`. */
  function Classify(line: string): (r: Item)
    ensures r.Blank? <==> EnvParser.Ignored(line)
    ensures r == Bad(Separator) <==> !EnvParser.Ignored(line) && '=' !in line && ':' !in line
  {
    if EnvParser.Ignored(line) then Blank
    else if '=' in line then AssignmentItem(TrimAll(SplitFirst(line, '=')))
    else if ':' in line then DirectiveItem(TrimAll(SplitFirst(line, ':')))
    else Bad(Separator)
  }

  /** A kept line with `=` is an assignment even if it also holds a `:`;
      its key never contains `=`. A kept line with only `:` is a directive,
      and one made of colons alone splits into no pieces, so reading
      `keyValue[0]` traps. */
  lemma ClassifyRoutes(line: string)
    requires !EnvParser.Ignored(line)
    ensures '=' in line ==> Classify(line) == AssignmentItem(TrimAll(SplitFirst(line, '=')))
    ensures '=' in line && Classify(line).Assignment? ==> '=' !in Classify(line).key
    ensures '=' !in line && ':' in line ==> Classify(line) == DirectiveItem(TrimAll(SplitFirst(line, ':')))
    ensures (forall i :: 0 <= i < |line| ==> line[i] == ':') ==> Classify(line).Crash?
  {
    if '=' in line && |SplitFirst(line, '=')| > 0 {
      SplitFirstKeyFree(line, '=');
    }
  }

  /** The assignment outcomes: a split that leaves no value traps, a value
      not starting with `$` is an `at` error, and otherwise the value is `$`,
      the variable, then `?` exactly when the lookup is optional. */
  lemma AssignmentCases(kv: seq<string>)
    ensures AssignmentItem(kv).Crash? <==> |kv| < 2
    ensures AssignmentItem(kv) == Bad(At) <==> |kv| >= 2 && (|kv[1]| == 0 || kv[1][0] != '$')
    ensures AssignmentItem(kv).Assignment? ==>
              && AssignmentItem(kv).key == kv[0]
              && kv[1] == "$" + AssignmentItem(kv).variable + (if AssignmentItem(kv).optional then "?" else "")
  {
  }

  /** The directive outcomes: only the three keywords are accepted (else
      `keyword`); `access` takes exactly a level's raw value (else
      `accessSpec`), `encode` exactly `yes` or `no` (else `encodeSpec`), and
      `encode` is switched on exactly by `yes`; a keyword with no value traps. */
  lemma DirectiveCases(kv: seq<string>)
    ensures DirectiveItem(kv) == Bad(KeywordError) <==> |kv| > 0 && kv[0] !in {"name", "access", "encode"}
    ensures DirectiveItem(kv) == Bad(AccessSpec) <==>
              |kv| >= 2 && kv[0] == "access" && kv[1] !in {"public", "package", "internal"}
    ensures DirectiveItem(kv) == Bad(EncodeSpec) <==> |kv| >= 2 && kv[0] == "encode" && kv[1] !in {"yes", "no"}
    ensures DirectiveItem(kv).Crash? <==> |kv| == 0 || (|kv| == 1 && kv[0] in {"name", "access", "encode"})
    ensures |kv| >= 2 && kv[0] == "name" ==> DirectiveItem(kv) == Directive(SetName(kv[1]))
    ensures DirectiveItem(kv).Directive? && DirectiveItem(kv).setting.SetAccess? ==>
              kv[0] == "access" && kv[1] == DirectiveItem(kv).setting.level.RawValue()
    ensures DirectiveItem(kv).Directive? && DirectiveItem(kv).setting.SetEncode? ==>
              kv[0] == "encode" && (DirectiveItem(kv).setting.on <==> kv[1] == "yes")
  {
  }

  function ApplySetting(c: Config, s: Setting): Config
  {
    match s
    case SetName(n) => c.(name := n)
    case SetAccess(a) => c.(access := a)
    case SetEncode(e) => c.(encode := e)
  }

  /** One iteration of the `parceConfig` loop body, at line index `i`. */
  function Step(item: Item, i: nat, env: map<string, string>, st: State): (r: Outcome<State>)
    ensures r.Failed? ==> r.error.line == i
    ensures r.Trapped? <==> item.Crash?
    ensures r.Trapped? ==> r.line == i
    ensures item.Assignment? && item.variable !in env ==>
              (item.optional ==> r == Done(st)) && (!item.optional ==> r == Failed(ParseError(i, Env(item.variable))))
    ensures item.Assignment? && item.variable in env && item.key in st.dict ==>
              r == Failed(ParseError(i, KeyExist(item.key)))
    ensures item.Assignment? && item.variable in env && item.key !in st.dict ==>
              r.Done? && r.value.config == st.config && r.value.dict == st.dict[item.key := env[item.variable]]
    ensures r.Done? ==> st.dict.Keys <= r.value.dict.Keys
                        && forall k :: k in st.dict ==> r.value.dict[k] == st.dict[k]
  {
    match item
    case Blank => Done(st)
    case Crash => Trapped(i)
    case Bad(kind) => Failed(ParseError(i, kind))
    case Directive(s) => Done(State(ApplySetting(st.config, s), st.dict))
    case Assignment(key, variable, optional) =>
      if variable !in env then
        if optional then Done(st) else Failed(ParseError(i, Env(variable)))
      else
        var (added, d) := Append(st.dict, key, env[variable]);
        if !added then Failed(ParseError(i, KeyExist(key)))
        else Done(State(st.config, d))
  }

  /** The lines as the loop body reads them. */
  function Items(lines: seq<string>): (r: seq<Item>)
    ensures |r| == |lines|
    ensures forall i :: 0 <= i < |lines| ==> r[i] == Classify(lines[i])
  {
    seq(|lines|, i requires 0 <= i < |lines| => Classify(lines[i]))
  }

  /** The state after the loop has run over the first `n` items, or the
      error or trap of the first item that stops it. */
  function Run(items: seq<Item>, n: nat, env: map<string, string>, init: State): (r: Outcome<State>)
    requires n <= |items|
    ensures r.Failed? ==> r.error.line < n
    ensures r.Trapped? ==> r.line < n && items[r.line].Crash?
    ensures r.Done? ==> init.dict.Keys <= r.value.dict.Keys
                        && forall k :: k in init.dict ==> r.value.dict[k] == init.dict[k]
  {
    if n == 0 then Done(init)
    else
      var prev := Run(items, n - 1, env, init);
      if !prev.Done? then prev else Step(items[n - 1], n - 1, env, prev.value)
  }

  /** `parceConfig(content:envDict:)`, starting from the default settings
      and the dictionary `d`, with the process environment `env`. */
  function ParseConfig(content: string, env: map<string, string>, d: Dict): Outcome<State>
  {
    var items := Items(TrimmedLines(content));
    Run(items, |items|, env, State(DefaultConfig, d))
  }

  /** The reported line is the first one that stops the loop: every line
      before it steps successfully, and it is the one that fails. */
  lemma {:induction false} FirstStop(items: seq<Item>, n: nat, env: map<string, string>, init: State)
    requires n <= |items|
    requires !Run(items, n, env, init).Done?
    ensures var r := Run(items, n, env, init);
      var line := if r.Failed? then r.error.line else r.line;
      && line < n
      && Run(items, line, env, init).Done?
      && Step(items[line], line, env, Run(items, line, env, init).value) == r
  {
    if Run(items, n - 1, env, init).Done? {
    } else {
      FirstStop(items, n - 1, env, init);
    }
  }

  /** Reference definition: the setting the last directive of each kind
      among the first `n` items makes. */
  function LastName(items: seq<Item>, n: nat): Option<string>
    requires n <= |items|
  {
    if n == 0 then None
    else if items[n - 1].Directive? && items[n - 1].setting.SetName? then Some(items[n - 1].setting.name)
    else LastName(items, n - 1)
  }

  function LastAccess(items: seq<Item>, n: nat): Option<AccessLevel>
    requires n <= |items|
  {
    if n == 0 then None
    else if items[n - 1].Directive? && items[n - 1].setting.SetAccess? then Some(items[n - 1].setting.level)
    else LastAccess(items, n - 1)
  }

  function LastEncode(items: seq<Item>, n: nat): Option<bool>
    requires n <= |items|
  {
    if n == 0 then None
    else if items[n - 1].Directive? && items[n - 1].setting.SetEncode? then Some(items[n - 1].setting.on)
    else LastEncode(items, n - 1)
  }

  /** A repeated directive's last occurrence wins; settings no directive
      mentions keep their starting values. */
  lemma {:induction false} LastDirectiveWins(items: seq<Item>, n: nat, env: map<string, string>, init: State)
    requires n <= |items|
    requires Run(items, n, env, init).Done?
    ensures var c := Run(items, n, env, init).value.config;
      && c.name == LastName(items, n).GetOr(init.config.name)
      && c.access == LastAccess(items, n).GetOr(init.config.access)
      && c.encode == LastEncode(items, n).GetOr(init.config.encode)
  {
    if n > 0 {
      LastDirectiveWins(items, n - 1, env, init);
    }
  }

  /** Reference definition: the (key, value) pairs the first `n` items
      actually add, in order: assignments whose variable is set. */
  function Assigned(items: seq<Item>, n: nat, env: map<string, string>): seq<(string, string)>
    requires n <= |items|
  {
    if n == 0 then []
    else
      var it := items[n - 1];
      var earlier := Assigned(items, n - 1, env);
      if it.Assignment? && it.variable in env then earlier + [(it.key, env[it.variable])] else earlier
  }

  /** An item that stops the loop whatever the dictionary holds. */
  predicate Fatal(item: Item, env: map<string, string>) {
    || item.Bad?
    || item.Crash?
    || (item.Assignment? && item.variable !in env && !item.optional)
  }

  /** No entry re-uses a key of `d` or of an earlier entry. */
  predicate FreshKeys(entries: seq<(string, string)>, d: Dict) {
    forall i :: 0 <= i < |entries| ==>
      entries[i].0 !in d && forall j :: 0 <= j < i ==> entries[j].0 != entries[i].0
  }

  lemma FreshKeysSnoc(es: seq<(string, string)>, e: (string, string), d: Dict)
    ensures FreshKeys(es + [e], d) ==> FreshKeys(es, d) && e.0 !in d && e.0 !in FromEntries(es)
    ensures FreshKeys(es, d) && e.0 !in d && e.0 !in FromEntries(es) ==> FreshKeys(es + [e], d)
  {
    var es' := es + [e];
    FromEntriesKeys(es, e.0);
    if FreshKeys(es', d) {
      assert es'[|es|] == e;
      forall j | 0 <= j < |es|
        ensures es[j].0 != e.0
      {
        assert es'[j] == es[j];
      }
      forall i | 0 <= i < |es|
        ensures es[i].0 !in d && forall j :: 0 <= j < i ==> es[j].0 != es[i].0
      {
        assert es[i] == es'[i];
        assert forall j :: 0 <= j < i ==> es[j] == es'[j];
      }
    }
    if FreshKeys(es, d) && e.0 !in d && e.0 !in FromEntries(es) {
      forall i | 0 <= i < |es'|
        ensures es'[i].0 !in d && forall j :: 0 <= j < i ==> es'[j].0 != es'[i].0
      {
        if i < |es| {
          assert es'[i] == es[i];
          assert forall j :: 0 <= j < i ==> es[j] == es'[j];
        } else {
          assert forall j :: 0 <= j < i ==> es[j] == es'[j] && es[j].0 != e.0;
        }
      }
    }
  }

  /** The configuration file succeeds exactly when no line is fatal and no
      assignment re-uses a key; the dictionary then gains exactly the
      assigned entries on top of what it held. */
  lemma {:induction false} AssignmentsUnique(items: seq<Item>, n: nat, env: map<string, string>, init: State)
    requires n <= |items|
    ensures Run(items, n, env, init).Done? <==>
              (forall j :: 0 <= j < n ==> !Fatal(items[j], env)) && FreshKeys(Assigned(items, n, env), init.dict)
    ensures Run(items, n, env, init).Done? ==>
              Run(items, n, env, init).value.dict == init.dict + FromEntries(Assigned(items, n, env))
  {
    if n == 0 {
      assert init.dict + map[] == init.dict;
    } else {
      AssignmentsUnique(items, n - 1, env, init);
      var it := items[n - 1];
      if it.Assignment? && it.variable in env {
        AssignmentAdds(items, n, env, init);
      } else {
        OtherItemStep(items, n, env, init);
      }
    }
  }

  /** The step of `AssignmentsUnique` for any other item: it adds no entry
      and stops the loop exactly when it is fatal. */
  lemma OtherItemStep(items: seq<Item>, n: nat, env: map<string, string>, init: State)
    requires 0 < n <= |items|
    requires !(items[n - 1].Assignment? && items[n - 1].variable in env)
    requires Run(items, n - 1, env, init).Done? <==>
               (forall j :: 0 <= j < n - 1 ==> !Fatal(items[j], env)) && FreshKeys(Assigned(items, n - 1, env), init.dict)
    requires Run(items, n - 1, env, init).Done? ==>
               Run(items, n - 1, env, init).value.dict == init.dict + FromEntries(Assigned(items, n - 1, env))
    ensures Run(items, n, env, init).Done? <==>
              (forall j :: 0 <= j < n ==> !Fatal(items[j], env)) && FreshKeys(Assigned(items, n, env), init.dict)
    ensures Run(items, n, env, init).Done? ==>
              Run(items, n, env, init).value.dict == init.dict + FromEntries(Assigned(items, n, env))
  {
    var prev := Run(items, n - 1, env, init);
    var it := items[n - 1];
    assert Assigned(items, n, env) == Assigned(items, n - 1, env);
    assert (forall j :: 0 <= j < n ==> !Fatal(items[j], env)) <==>
           (forall j :: 0 <= j < n - 1 ==> !Fatal(items[j], env)) && !Fatal(it, env);
    if prev.Done? {
      var r := Step(it, n - 1, env, prev.value);
      assert Run(items, n, env, init) == r;
      assert r.Done? <==> !Fatal(it, env);
    }
  }

  /** The step of `AssignmentsUnique` for an assignment whose variable is
      set: it succeeds exactly when the key is new, and adds it. */
  lemma AssignmentAdds(items: seq<Item>, n: nat, env: map<string, string>, init: State)
    requires 0 < n <= |items|
    requires items[n - 1].Assignment? && items[n - 1].variable in env
    requires Run(items, n - 1, env, init).Done? <==>
               (forall j :: 0 <= j < n - 1 ==> !Fatal(items[j], env)) && FreshKeys(Assigned(items, n - 1, env), init.dict)
    requires Run(items, n - 1, env, init).Done? ==>
               Run(items, n - 1, env, init).value.dict == init.dict + FromEntries(Assigned(items, n - 1, env))
    ensures Run(items, n, env, init).Done? <==>
              (forall j :: 0 <= j < n ==> !Fatal(items[j], env)) && FreshKeys(Assigned(items, n, env), init.dict)
    ensures Run(items, n, env, init).Done? ==>
              Run(items, n, env, init).value.dict == init.dict + FromEntries(Assigned(items, n, env))
  {
    var prev := Run(items, n - 1, env, init);
    var es := Assigned(items, n - 1, env);
    var it := items[n - 1];
    var e := (it.key, env[it.variable]);
    assert Assigned(items, n, env) == es + [e];
    assert !Fatal(it, env);
    assert (forall j :: 0 <= j < n ==> !Fatal(items[j], env)) <==>
           (forall j :: 0 <= j < n - 1 ==> !Fatal(items[j], env));
    FreshKeysSnoc(es, e, init.dict);
    if prev.Done? {
      var st := prev.value;
      var r := Step(it, n - 1, env, st);
      assert Run(items, n, env, init) == r;
      assert it.key in st.dict <==> it.key in init.dict || it.key in FromEntries(es);
      if it.key !in st.dict {
        FromEntriesSnoc(es, e);
        PutOverUnion(init.dict, FromEntries(es), it.key, env[it.variable]);
        assert r.value.dict == Put(st.dict, it.key, env[it.variable]);
      }
    } else {
      assert Run(items, n, env, init) == prev;
    }
  }
}
