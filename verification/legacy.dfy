/** The two older tools. `BuildEnvFile` writes the generator's file with
    fixed settings (container `BuildEnvironment`, access `public`, encoding
    chosen by a flag); `BuildEnv` writes a `public struct` whose only
    initializer traps, with one plain constant per entry. Both read their
    env file with the loose loop. */
module Legacy {
  import opened Wrappers
  import opened Text
  import opened Dictionaries
  import opened Settings
  import LooseEnv
  import EnvParser
  import Emitter

  /** `BuildEnvFile`'s settings: everything fixed but the `-e` flag. */
  function FileToolConfig(encode: bool): (c: Config)
    ensures c.access.Prefix() == "public "
    ensures '\n' !in c.name
  {
    ContainerNameOneLine();
    Config(ContainerName, Public, encode)
  }

  /** The container name both tools write. */
  const ContainerName: string := "BuildEnvironment"

  lemma ContainerNameOneLine()
    ensures '\n' !in ContainerName
  {
    forall j | 0 <= j < |ContainerName| ensures ContainerName[j] != '\n' { }
  }

  /** The fixed texts of `BuildEnvFile` are the generator's texts under
      these settings: the container line, the plain constant and the start
      of an encoded getter. */
  lemma ContainerLine(encode: bool)
    ensures Emitter.Header(FileToolConfig(encode))[3] == "public enum " + ContainerName + " {"
  {
  }

  lemma PublicLead()
    ensures Emitter.Lead("public ") == "    public static let "
  {
  }

  lemma PublicConstLine(key: string, value: string)
    ensures Emitter.ConstLine(FileToolConfig(false).access.Prefix(), key, value)
              == "    public static let " + key + ": String = \"" + value + "\""
  {
    PublicLead();
  }

  lemma PublicGetterLine(key: string)
    ensures Emitter.Lead(FileToolConfig(true).access.Prefix()) + key + Emitter.GetterOpen
              == "    public static let " + key + ": String = {"
  {
    PublicLead();
  }

  /** Lines 41-67 of `BuildEnvFile`: load the env file, then write the
      file for an enumeration of the loaded dictionary. */
  function FileTool(content: string, encode: bool, keys: seq<string>, ciphers: seq<seq<bv8>>): (r: Option<string>)
    requires LooseEnv.LoadEnv(content).Entries? ==>
               var d := LooseEnv.LoadEnv(content).dict;
               Emitter.IsEnumeration(keys, d) && Emitter.Fits(FileToolConfig(encode), d, keys, ciphers)
    ensures r.None? <==> LooseEnv.LoadEnv(content).InvalidLine?
  {
    match LooseEnv.LoadEnv(content)
    case InvalidLine(_) => None
    case Entries(d) => Some(Emitter.Render(FileToolConfig(encode), d, keys, ciphers))
  }

  /** Whatever the env file loads to, the written file reads back as the
      enumeration's entries, when they paste into single lines (and, in
      plain mode, into verbatim literals). */
  lemma FileToolReadBack(content: string, d: Dict, encode: bool, keys: seq<string>, ciphers: seq<seq<bv8>>)
    requires LooseEnv.LoadEnv(content) == LooseEnv.Entries(d)
    requires Emitter.IsEnumeration(keys, d) && Emitter.Fits(FileToolConfig(encode), d, keys, ciphers)
    requires Emitter.SingleLines(FileToolConfig(encode), d) && Emitter.PlainSafe(FileToolConfig(encode), d)
    ensures var out := FileTool(content, encode, keys, ciphers);
      && out.Some?
      && Emitter.ReadRender(FileToolConfig(encode), Emitter.SplitLines(out.value)) == Some(Emitter.Pairs(d, keys))
  {
    Emitter.RenderTextReadBack(FileToolConfig(encode), d, keys, ciphers);
  }

  /** The file `BuildEnvFile` writes as its code stands is `FileTool`'s file
      when no encoded value is empty; with an empty value under `-e` it
      does not read back at all. */
  lemma FileToolAsWritten(content: string, d: Dict, encode: bool, keys: seq<string>, ciphers: seq<seq<bv8>>)
    requires LooseEnv.LoadEnv(content) == LooseEnv.Entries(d)
    requires Emitter.IsEnumeration(keys, d) && Emitter.Fits(FileToolConfig(encode), d, keys, ciphers)
    ensures Emitter.NoEmptyEncoded(FileToolConfig(encode), d) ==>
      FileTool(content, encode, keys, ciphers) == Some(Emitter.AsWrittenRender(FileToolConfig(encode), d, keys, ciphers))
    ensures !Emitter.NoEmptyEncoded(FileToolConfig(encode), d) ==>
      Emitter.ReadRender(FileToolConfig(encode), Emitter.AsWrittenRenderLines(FileToolConfig(encode), d, keys, ciphers)) == None
  {
    var c := FileToolConfig(encode);
    if Emitter.NoEmptyEncoded(c, d) {
      Emitter.AsWrittenRenderAgrees(c, d, keys, ciphers);
    } else {
      Emitter.AsWrittenReadBack(c, d, keys, ciphers);
    }
  }

  /** Entries that paste into single lines (and, in plain mode, into
      verbatim literals) make a dictionary that does, under `BuildEnvFile`'s
      settings. */
  lemma EntriesFit(entries: seq<(string, string)>, encode: bool)
    requires forall i :: 0 <= i < |entries| ==> EnvParser.PlainKey(entries[i].0) && LooseEnv.PlainValue(entries[i].1)
    requires !encode ==> forall i :: 0 <= i < |entries| ==> ':' !in entries[i].0 && Emitter.Verbatim(entries[i].1)
    ensures Emitter.SingleLines(FileToolConfig(encode), FromEntries(entries))
    ensures Emitter.PlainSafe(FileToolConfig(encode), FromEntries(entries))
  {
    EntriesKeep(entries, !encode);
  }

  /** Every key and value of the dictionary comes from some entry, so
      properties of all entries hold of the dictionary. */
  lemma {:induction false} EntriesKeep(entries: seq<(string, string)>, plain: bool)
    requires forall i :: 0 <= i < |entries| ==> EnvParser.PlainKey(entries[i].0) && LooseEnv.PlainValue(entries[i].1)
    requires plain ==> forall i :: 0 <= i < |entries| ==> ':' !in entries[i].0 && Emitter.Verbatim(entries[i].1)
    ensures forall k :: k in FromEntries(entries) ==>
              '\n' !in k && '\n' !in FromEntries(entries)[k]
              && (plain ==> ':' !in k && Emitter.Verbatim(FromEntries(entries)[k]))
  {
    if |entries| > 0 {
      EntriesKeep(entries[..|entries| - 1], plain);
    }
  }

  // ---------------------------------------------------------------------
  // BuildEnv

  /** The struct's first two lines. */
  const StructHead: seq<string> := [StructOpen, StructTrap]

  const StructOpen: string := "public struct " + ContainerName + " {"

  /** The only initializer stops the program, so the struct is never built. */
  const StructTrap: string := Emitter.Indent + "init() { fatalError() }"

  /** Lines 43-52 of `BuildEnv`: the struct with one plain `public`
      constant per entry. */
  function StructLines(d: Dict, keys: seq<string>): (r: seq<string>)
    requires Emitter.IsEnumeration(keys, d)
  {
    StructHead + Emitter.Body(FileToolConfig(false), d, keys, NoCiphers(|keys|)) + [Emitter.Footer]
  }

  /** Plain output draws no cipher bytes. */
  function NoCiphers(n: nat): (r: seq<seq<bv8>>)
    ensures |r| == n
  {
    seq(n, _ => [])
  }

  function StructText(d: Dict, keys: seq<string>): string
    requires Emitter.IsEnumeration(keys, d)
  {
    Emitter.Unlines(StructLines(d, keys))
  }

  /** The struct holds exactly one `public` constant line per dictionary
      key, in enumeration order, between the two head lines and the closing
      brace. */
  lemma StructShape(d: Dict, keys: seq<string>)
    requires Emitter.IsEnumeration(keys, d)
    ensures |StructLines(d, keys)| == |d| + 3
    ensures |keys| == |d|
    ensures StructLines(d, keys)[..2] == StructHead
    ensures StructLines(d, keys)[|d| + 2] == Emitter.Footer
    ensures forall i :: 0 <= i < |keys| ==>
              StructLines(d, keys)[i + 2] == Emitter.ConstLine("public ", keys[i], d[keys[i]])
  {
    var c := FileToolConfig(false);
    var ciphers := NoCiphers(|keys|);
    Emitter.PlainBody(c, d, keys, ciphers);
    var body := Emitter.Body(c, d, keys, ciphers);
    var ls := StructLines(d, keys);
    assert ls == StructHead + body + [Emitter.Footer];
    Emitter.Framed(StructHead, body, Emitter.Footer);
    assert |ls| == |d| + 3 && |keys| == |d|;
    forall i | 0 <= i < |keys|
      ensures ls[i + 2] == Emitter.ConstLine("public ", keys[i], d[keys[i]])
    {
      assert ls[2..|ls| - 1][i] == body[i];
    }
    assert ls[..2] == StructHead;
    assert ls[|d| + 2] == Emitter.Footer;
  }

  /** Reads the struct back: its head, its constants and its brace. */
  function ReadStruct(lines: seq<string>): Option<seq<(string, string)>>
  {
    if |lines| >= 3 && lines[..2] == StructHead && lines[|lines| - 1] == Emitter.Footer
    then Emitter.ReadBody(FileToolConfig(false), lines[2..|lines| - 1])
    else None
  }

  lemma StructHeadOneLine()
    ensures Emitter.NoBreaks(StructHead)
  {
    var a := StructHead[0];
    var b := StructHead[1];
    forall j | 0 <= j < |a| ensures a[j] != '\n' { }
    forall j | 0 <= j < |b| ensures b[j] != '\n' { }
  }

  /** Splitting the struct's text at line breaks gives back its lines. */
  lemma StructLinesOf(d: Dict, keys: seq<string>)
    requires Emitter.IsEnumeration(keys, d)
    requires forall k :: k in d ==> '\n' !in k && '\n' !in d[k]
    ensures Emitter.SplitLines(StructText(d, keys)) == StructLines(d, keys)
  {
    var c := FileToolConfig(false);
    var ciphers := NoCiphers(|keys|);
    var blocks := Emitter.Declarations(c, d, keys, ciphers);
    forall i | 0 <= i < |blocks|
      ensures Emitter.NoBreaks(blocks[i])
    {
      Emitter.DeclarationOneLine(c, keys[i], d[keys[i]], ciphers[i]);
    }
    Emitter.FlattenOneLine(blocks);
    StructHeadOneLine();
    var body := Emitter.Body(c, d, keys, ciphers);
    Emitter.NoBreaksAppend(StructHead, body);
    Emitter.NoBreaksAppend(StructHead + body, [Emitter.Footer]);
    Emitter.SplitUnlines(StructLines(d, keys));
  }

  /** The struct's text, split into lines and read, gives back the entries
      in enumeration order, which rebuild the dictionary; it needs keys and
      values that paste into single lines and verbatim literals. */
  lemma StructReadBack(d: Dict, keys: seq<string>)
    requires Emitter.IsEnumeration(keys, d)
    requires forall k :: k in d ==> '\n' !in k && ':' !in k && '\n' !in d[k] && Emitter.Verbatim(d[k])
    ensures ReadStruct(Emitter.SplitLines(StructText(d, keys))) == Some(Emitter.Pairs(d, keys))
    ensures FromEntries(Emitter.Pairs(d, keys)) == d
  {
    var c := FileToolConfig(false);
    var ciphers := NoCiphers(|keys|);
    StructLinesOf(d, keys);
    Emitter.Framed(StructHead, Emitter.Body(c, d, keys, ciphers), Emitter.Footer);
    // the same body as the generator's, under the same proof
    Emitter.BodyReadBack(c, d, keys, ciphers);
    Emitter.PairsRebuild(d, keys);
  }
}
