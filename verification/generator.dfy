/** The generator's `main` between argument lookup and writing the file:
    choose the output and input paths, read the configuration file and then
    the env file into one dictionary, and assemble the Swift source. The
    file system is a map from path to content; the process environment is
    a map from variable name to value. */
module Generator {
  import opened Wrappers
  import opened Dictionaries
  import opened Settings
  import Arguments
  import Text
  import EnvParser
  import ConfigParser
  import Emitter

  /** How a run of the generator ends. */
  datatype Run =
    | MissingOutput
    | MissingInput
    | ReadError(path: string)
    | ParseFailure(path: string, error: ParseError)
    | Crash(path: string, line: nat)
    | Parsed(output: string, config: Config, dict: Dict)

  /** The diagnostic for a run that stops; `None` for a run that goes on to
      write its file. */
  function Report(r: Run): (m: Option<string>)
    ensures m.None? <==> r.Parsed? || r.Crash?
    ensures r.ParseFailure? ==> m == Some(Diagnostic(r.path, r.error))
  {
    match r
    case MissingOutput => Some("Required '--output' argument is missing")
    case MissingInput => Some("'--env' or '--config' argument is missing")
    case ReadError(path) => Some("File " + path + " read error")
    case ParseFailure(path, e) => Some(Diagnostic(path, e))
    case Crash(_, _) => None
    case Parsed(_, _, _) => None
  }

  /** Reads and parses the env file at `path`, when one is named, on top of
      `config` and `d`. */
  function EnvPhase(output: string, path: Option<string>, files: map<string, string>, config: Config, d: Dict): (r: Run)
    ensures r.Parsed? ==> r.config == config && r.output == output
  {
    match path
    case None => Parsed(output, config, d)
    case Some(p) =>
      if p !in files then ReadError(p)
      else match EnvParser.ParseEnv(files[p], d)
        case Done(m) => Parsed(output, config, m)
        case Failed(e) => ParseFailure(p, e)
        case Trapped(line) => Crash(p, line)
  }

  /** Lines 64-110 of the generator: the argument checks, then the
      configuration file, then the env file. */
  function Generate(args: seq<string>, files: map<string, string>, env: map<string, string>): (r: Run)
    ensures Arguments.GetStringArg(args, "--output").None? ==> r == MissingOutput
    ensures Arguments.GetStringArg(args, "--output").Some? ==>
              (r == MissingInput <==> Arguments.GetStringArg(args, "--env").None?
                                      && Arguments.GetStringArg(args, "--config").None?)
    ensures r.Parsed? ==> r.output == Arguments.GetStringArg(args, "--output").value
  {
    match Arguments.GetStringArg(args, "--output")
    case None => MissingOutput
    case Some(output) =>
      var configPath := Arguments.GetStringArg(args, "--config");
      var envPath := Arguments.GetStringArg(args, "--env");
      if envPath.None? && configPath.None? then MissingInput
      else match configPath
        case None => EnvPhase(output, envPath, files, DefaultConfig, map[])
        case Some(p) =>
          if p !in files then ReadError(p)
          else match ConfigParser.ParseConfig(files[p], env, map[])
            case Done(st) => EnvPhase(output, envPath, files, st.config, st.dict)
            case Failed(e) => ParseFailure(p, e)
            case Trapped(line) => Crash(p, line)
  }

  /** A configuration file that fails stops the run before the env file is
      even read: the env file's content, or its absence, does not matter. */
  lemma ConfigFailureFirst(args: seq<string>, files: map<string, string>, env: map<string, string>, envPath: string, text: string)
    requires Arguments.GetStringArg(args, "--output").Some?
    requires Arguments.GetStringArg(args, "--config").Some?
    requires var p := Arguments.GetStringArg(args, "--config").value;
      p in files && p != envPath && !ConfigParser.ParseConfig(files[p], env, map[]).Done?
    ensures Generate(args, files[envPath := text], env) == Generate(args, files, env)
    ensures Generate(args, files, env).ParseFailure? || Generate(args, files, env).Crash?
    ensures Generate(args, files, env).ParseFailure? ==>
              Generate(args, files, env).path == Arguments.GetStringArg(args, "--config").value
  {
  }

  /** Without a configuration file the settings are the defaults and the
      dictionary is exactly what the env file gives on its own. */
  lemma EnvOnly(args: seq<string>, files: map<string, string>, env: map<string, string>)
    requires Arguments.GetStringArg(args, "--output").Some?
    requires Arguments.GetStringArg(args, "--config").None?
    requires Arguments.GetStringArg(args, "--env").Some?
    requires Arguments.GetStringArg(args, "--env").value in files
    requires EnvParser.ParseEnv(files[Arguments.GetStringArg(args, "--env").value], map[]).Done?
    ensures var r := Generate(args, files, env);
      && r.Parsed?
      && r.config == DefaultConfig
      && r.dict == EnvParser.ParseEnv(files[Arguments.GetStringArg(args, "--env").value], map[]).value
  {
  }

  /** Parsing the env file on top of the configuration's dictionary is the
      same as parsing it alone and letting its entries override: env-file
      entries win over configuration assignments of the same key, and the
      env file fails on the same line either way. */
  lemma EnvOverridesConfig(content: string, configDict: Dict)
    ensures var alone := EnvParser.ParseEnv(content, map[]);
      var merged := EnvParser.ParseEnv(content, configDict);
      && (alone.Done? <==> merged.Done?)
      && (alone.Done? ==> merged.value == configDict + alone.value)
      && (!alone.Done? ==> merged == alone)
  {
    var effects := EnvParser.Effects(Text.TrimmedLines(content));
    assert configDict + map[] == configDict;
    EnvParser.MergeOverrides(effects, |effects|, configDict, map[]);
  }

  /** The whole run: with both files present and the configuration parsed,
      the dictionary is the configuration's entries overridden by the env
      file's, under the configuration's settings. */
  lemma ConfigThenEnv(args: seq<string>, files: map<string, string>, env: map<string, string>)
    requires Arguments.GetStringArg(args, "--output").Some?
    requires Arguments.GetStringArg(args, "--config").Some?
    requires Arguments.GetStringArg(args, "--env").Some?
    requires Arguments.GetStringArg(args, "--config").value in files
    requires Arguments.GetStringArg(args, "--env").value in files
    requires ConfigParser.ParseConfig(files[Arguments.GetStringArg(args, "--config").value], env, map[]).Done?
    requires EnvParser.ParseEnv(files[Arguments.GetStringArg(args, "--env").value], map[]).Done?
    ensures var st := ConfigParser.ParseConfig(files[Arguments.GetStringArg(args, "--config").value], env, map[]).value;
      var m := EnvParser.ParseEnv(files[Arguments.GetStringArg(args, "--env").value], map[]).value;
      Generate(args, files, env) == Parsed(Arguments.GetStringArg(args, "--output").value, st.config, st.dict + m)
  {
    var st := ConfigParser.ParseConfig(files[Arguments.GetStringArg(args, "--config").value], env, map[]).value;
    EnvOverridesConfig(files[Arguments.GetStringArg(args, "--env").value], st.dict);
  }

  /** The file a parsed run writes, for an enumeration of its dictionary and
      the cipher bytes drawn for it. */
  function Output(r: Run, keys: seq<string>, ciphers: seq<seq<bv8>>): string
    requires r.Parsed?
    requires Emitter.IsEnumeration(keys, r.dict) && Emitter.Fits(r.config, r.dict, keys, ciphers)
  {
    Emitter.Render(r.config, r.dict, keys, ciphers)
  }

  /** Whatever order the dictionary is enumerated in, the written file
      declares exactly the parsed entries. */
  lemma OutputDeclaresDict(r: Run, keys: seq<string>, ciphers: seq<seq<bv8>>)
    requires r.Parsed?
    requires Emitter.IsEnumeration(keys, r.dict) && Emitter.Fits(r.config, r.dict, keys, ciphers)
    requires Emitter.SingleLines(r.config, r.dict) && Emitter.PlainSafe(r.config, r.dict)
    ensures var es := Emitter.ReadRender(r.config, Emitter.SplitLines(Output(r, keys, ciphers)));
      es.Some? && FromEntries(es.value) == r.dict
  {
    Emitter.RenderTextReadBack(r.config, r.dict, keys, ciphers);
  }

  /** The file the generator writes as its code stands is `Output` when no
      encoded value is empty, and then declares exactly the parsed
      dictionary; with an encoded empty value it does not read back. */
  lemma OutputAsWritten(r: Run, keys: seq<string>, ciphers: seq<seq<bv8>>)
    requires r.Parsed?
    requires Emitter.IsEnumeration(keys, r.dict) && Emitter.Fits(r.config, r.dict, keys, ciphers)
    requires Emitter.SingleLines(r.config, r.dict) && Emitter.PlainSafe(r.config, r.dict)
    ensures Emitter.NoEmptyEncoded(r.config, r.dict) ==>
      && Emitter.AsWrittenRender(r.config, r.dict, keys, ciphers) == Output(r, keys, ciphers)
      && var es := Emitter.ReadRender(r.config, Emitter.SplitLines(Output(r, keys, ciphers)));
        es.Some? && FromEntries(es.value) == r.dict
    ensures !Emitter.NoEmptyEncoded(r.config, r.dict) ==>
      Emitter.ReadRender(r.config, Emitter.AsWrittenRenderLines(r.config, r.dict, keys, ciphers)) == None
  {
    if Emitter.NoEmptyEncoded(r.config, r.dict) {
      Emitter.AsWrittenRenderAgrees(r.config, r.dict, keys, ciphers);
      OutputDeclaresDict(r, keys, ciphers);
    } else {
      Emitter.AsWrittenReadBack(r.config, r.dict, keys, ciphers);
    }
  }
}
