/** The Swift source the generator writes: a header naming the container,
    one declaration per dictionary entry, in the order the dictionary is
    enumerated, and a closing brace. A plain declaration holds the value as
    a string literal; an encoded one holds a getter that rebuilds it from
    scrambled UTF-8 bytes. Readers for the written lines state what a Swift
    compiler would find in them. */
module Emitter {
  import opened Wrappers
  import opened Text
  import opened Dictionaries
  import opened Settings
  import Cipher
  import Utf8
  import ByteList

  /** Each line followed by a line break. */
  function Unlines(ls: seq<string>): string
  {
    if |ls| == 0 then "" else ls[0] + "\n" + Unlines(ls[1..])
  }

  /** Splits text at every line break, keeping empty lines; a last line
      without a line break still counts. */
  function SplitLines(s: string): seq<string>
    decreases |s|
  {
    if |s| == 0 then []
    else
      var i := IndexOf(s, '\n');
      if i == |s| then [s] else [s[..i]] + SplitLines(s[i + 1..])
  }

  predicate NoBreaks(ls: seq<string>) {
    forall i :: 0 <= i < |ls| ==> '\n' !in ls[i]
  }

  /** Line-break-free lines are read back exactly from their text. */
  lemma {:induction false} SplitUnlines(ls: seq<string>)
    requires NoBreaks(ls)
    ensures SplitLines(Unlines(ls)) == ls
  {
    if |ls| > 0 {
      assert '\n' !in ls[0];
      SplitLinesCons(ls[0], Unlines(ls[1..]));
      SplitUnlines(ls[1..]);
      assert ls == [ls[0]] + ls[1..];
    }
  }

  /** A break-free line followed by a break splits off as the first line. */
  lemma SplitLinesCons(a: string, rest: string)
    requires '\n' !in a
    ensures SplitLines(a + "\n" + rest) == [a] + SplitLines(rest)
  {
    var s := a + "\n" + rest;
    assert s == a + (['\n'] + rest);
    IndexOfAfter(a, ['\n'] + rest, '\n');
    assert IndexOf(s, '\n') == |a| < |s|;
    assert s[..|a|] == a;
    assert s[|a| + 1..] == rest;
    assert SplitLines(s) == [s[..|a|]] + SplitLines(s[|a| + 1..]);
  }

  const Indent: string := "    "

  /** The file header, ending with the opening line of the container. */
  function Header(c: Config): seq<string>
  {
    [ GeneratedLine, WarningLine, "", c.access.Prefix() + "enum " + c.name + " {" ]
  }

  /** The header's first line; it ends in a blank. */
  const GeneratedLine: string := "// Code generated from .env file "
  const WarningLine: string := "// Don't edit! All changes will be lost."

  const Footer: string := "}"

  /** The start of every declaration, up to the key. */
  function Lead(prefix: string): string
  {
    Indent + prefix + "static let "
  }

  /** A plain declaration: the value inside a string literal, unescaped. */
  function ConstLine(prefix: string, key: string, value: string): string
  {
    Lead(prefix) + key + ": String = \"" + value + "\""
  }

  const GetterOpen: string := ": String = {"
  const ArrayLead: string := "        let encrypted: [UInt8] = "
  const CountLine: string := "        let count = encrypted.count / 2"
  // The verifier sees no characters of a literal longer than 40, so the
  // two long getter lines are written in parts.
  const ReturnLine: string :=
    "        return String(" + "unsafeUninitializedCapacity: " + "count) { ptr in"
  const LoopLine: string :=
    "            (0..<count).forEach { " + "ptr[$0] = encrypted[$0] ^ " + "encrypted[$0 + count] }"

  /** The getter's fixed lines after the array literal. */
  const GetterTail: seq<string> :=
    [CountLine, ReturnLine, LoopLine, "            return count", "        }", "    }()"]

  /** The eight lines of an encoded declaration around an array literal. */
  function GetterLines(prefix: string, key: string, literal: string): seq<string>
  {
    [Lead(prefix) + key + GetterOpen, ArrayLead + literal] + GetterTail
  }

  /** `encodedCode` as written: `[\(encryptedText), \(cipherText)]`. */
  function AsWrittenGetter(prefix: string, key: string, value: string, cipher: seq<bv8>): seq<string>
    requires |cipher| == |Utf8.Encode(value)|
  {
    var bytes := Utf8.Encode(value);
    GetterLines(prefix, key, ByteList.AsWrittenArrayText(Cipher.Xor(bytes, cipher), cipher))
  }

  /** `encodedCode` with the array literal written as one list, so that an
      empty value gives `[]`. */
  function Getter(prefix: string, key: string, value: string, cipher: seq<bv8>): seq<string>
    requires |cipher| == |Utf8.Encode(value)|
  {
    GetterLines(prefix, key, ByteList.ArrayText(Cipher.Scramble(Utf8.Encode(value), cipher)))
  }

  /** For every non-empty value the two getters are the same text. */
  lemma GetterAgrees(prefix: string, key: string, value: string, cipher: seq<bv8>)
    requires |cipher| == |Utf8.Encode(value)|
    requires value != ""
    ensures AsWrittenGetter(prefix, key, value, cipher) == Getter(prefix, key, value, cipher)
  {
    ByteList.AsWrittenAgrees(Cipher.Xor(Utf8.Encode(value), cipher), cipher);
  }

  /** The lines one entry contributes. */
  function Declaration(c: Config, key: string, value: string, cipher: seq<bv8>): (r: seq<string>)
    requires c.encode ==> |cipher| == |Utf8.Encode(value)|
    ensures |r| == if c.encode then 8 else 1
  {
    if c.encode then Getter(c.access.Prefix(), key, value, cipher)
    else [ConstLine(c.access.Prefix(), key, value)]
  }

  /** `keys` is an enumeration of the dictionary: every key exactly once. */
  predicate IsEnumeration(keys: seq<string>, d: Dict) {
    && (forall i :: 0 <= i < |keys| ==> keys[i] in d)
    && (forall k :: k in d ==> k in keys)
    && (forall i, j :: 0 <= i < j < |keys| ==> keys[i] != keys[j])
  }

  /** The cipher bytes drawn for each key, one per UTF-8 byte of its value
      when the output is encoded. */
  predicate Fits(c: Config, d: Dict, keys: seq<string>, ciphers: seq<seq<bv8>>) {
    && |ciphers| == |keys|
    && (forall i :: 0 <= i < |keys| ==> keys[i] in d)
    && (c.encode ==> forall i :: 0 <= i < |keys| ==> |ciphers[i]| == |Utf8.Encode(d[keys[i]])|)
  }

  /** The declarations of the keys, in enumeration order. */
  function Declarations(c: Config, d: Dict, keys: seq<string>, ciphers: seq<seq<bv8>>): (r: seq<seq<string>>)
    requires Fits(c, d, keys, ciphers)
    ensures |r| == |keys|
    ensures forall i :: 0 <= i < |keys| ==> r[i] == Declaration(c, keys[i], d[keys[i]], ciphers[i])
  {
    seq(|keys|, i requires 0 <= i < |keys| => Declaration(c, keys[i], d[keys[i]], ciphers[i]))
  }

  /** Blocks of lines one after another. */
  function Flatten(blocks: seq<seq<string>>): seq<string>
  {
    if |blocks| == 0 then [] else Flatten(blocks[..|blocks| - 1]) + blocks[|blocks| - 1]
  }

  /** The lines between header and footer. */
  function Body(c: Config, d: Dict, keys: seq<string>, ciphers: seq<seq<bv8>>): seq<string>
    requires Fits(c, d, keys, ciphers)
  {
    Flatten(Declarations(c, d, keys, ciphers))
  }

  /** All lines of the generated file. */
  function RenderLines(c: Config, d: Dict, keys: seq<string>, ciphers: seq<seq<bv8>>): (r: seq<string>)
    requires IsEnumeration(keys, d) && Fits(c, d, keys, ciphers)
  {
    Header(c) + Body(c, d, keys, ciphers) + [Footer]
  }

  /** The generated file (lines 112-127 of the generator). */
  function Render(c: Config, d: Dict, keys: seq<string>, ciphers: seq<seq<bv8>>): string
    requires IsEnumeration(keys, d) && Fits(c, d, keys, ciphers)
  {
    Unlines(RenderLines(c, d, keys, ciphers))
  }

  /** The lines one entry contributes as `encodedCode` writes them. */
  function AsWrittenDeclaration(c: Config, key: string, value: string, cipher: seq<bv8>): (r: seq<string>)
    requires c.encode ==> |cipher| == |Utf8.Encode(value)|
    ensures |r| == if c.encode then 8 else 1
  {
    if c.encode then AsWrittenGetter(c.access.Prefix(), key, value, cipher)
    else [ConstLine(c.access.Prefix(), key, value)]
  }

  function AsWrittenDeclarations(c: Config, d: Dict, keys: seq<string>, ciphers: seq<seq<bv8>>): (r: seq<seq<string>>)
    requires Fits(c, d, keys, ciphers)
    ensures |r| == |keys|
    ensures forall i :: 0 <= i < |keys| ==> r[i] == AsWrittenDeclaration(c, keys[i], d[keys[i]], ciphers[i])
  {
    seq(|keys|, i requires 0 <= i < |keys| => AsWrittenDeclaration(c, keys[i], d[keys[i]], ciphers[i]))
  }

  /** All lines of the generated file as the generator writes them. */
  function AsWrittenRenderLines(c: Config, d: Dict, keys: seq<string>, ciphers: seq<seq<bv8>>): seq<string>
    requires IsEnumeration(keys, d) && Fits(c, d, keys, ciphers)
  {
    Header(c) + Flatten(AsWrittenDeclarations(c, d, keys, ciphers)) + [Footer]
  }

  /** The generated file as the generator writes it. */
  function AsWrittenRender(c: Config, d: Dict, keys: seq<string>, ciphers: seq<seq<bv8>>): string
    requires IsEnumeration(keys, d) && Fits(c, d, keys, ciphers)
  {
    Unlines(AsWrittenRenderLines(c, d, keys, ciphers))
  }

  /** No value is empty where the output is encoded: the one case in which
      the generator's array literal differs from `Render`'s. */
  predicate NoEmptyEncoded(c: Config, d: Dict) {
    c.encode ==> forall k :: k in d ==> d[k] != ""
  }

  // ---------------------------------------------------------------------
  // Reading the generated lines back

  /** A string literal body a Swift compiler takes verbatim: no quotation
      mark ends it early and no backslash starts an escape. */
  predicate Verbatim(v: string) {
    '"' !in v && '\\' !in v
  }

  /** Reads a plain declaration: the key runs to the first colon, the value
      is the literal's body. */
  function ReadConstLine(prefix: string, line: string): (r: Option<(string, string)>)
    ensures r.Some? ==> ':' !in r.value.0 && Verbatim(r.value.1)
  {
    match StripPrefix(Lead(prefix), line)
    case None => None
    case Some(rest) =>
      var i := IndexOf(rest, ':');
      match StripPrefix(": String = \"", rest[i..])
      case None => None
      case Some(lit) =>
        if |lit| > 0 && lit[|lit| - 1] == '"' && Verbatim(lit[..|lit| - 1])
        then Some((rest[..i], lit[..|lit| - 1]))
        else None
  }

  /** Reads an encoded declaration: the key in front of ` : String = {`,
      the array literal, the fixed getter body, and the string the getter
      returns. */
  function ReadGetter(prefix: string, block: seq<string>): (r: Option<(string, string)>)
    requires |block| == 8
  {
    match StripPrefix(Lead(prefix), block[0])
    case None => None
    case Some(rest) =>
      if |rest| < |GetterOpen| || rest[|rest| - |GetterOpen|..] != GetterOpen then None
      else if block[2..] != GetterTail then None
      else match StripPrefix(ArrayLead, block[1])
        case None => None
        case Some(literal) =>
          match ByteList.ParseArray(literal)
          case None => None
          case Some(bytes) =>
            match Utf8.Decode(Cipher.Decode(bytes))
            case None => None
            case Some(value) => Some((rest[..|rest| - |GetterOpen|], value))
  }

  /** Reads the declaration one entry contributes. */
  function ReadEntry(c: Config, block: seq<string>): Option<(string, string)>
  {
    if c.encode then (if |block| == 8 then ReadGetter(c.access.Prefix(), block) else None)
    else if |block| == 1 then ReadConstLine(c.access.Prefix(), block[0])
    else None
  }

  /** Reads the declarations, last one first, into the entries they
      declare, in order. */
  function ReadBody(c: Config, lines: seq<string>): Option<seq<(string, string)>>
    decreases |lines|
  {
    var size := if c.encode then 8 else 1;
    if |lines| == 0 then Some([])
    else if |lines| < size then None
    else
      match ReadBody(c, lines[..|lines| - size])
      case None => None
      case Some(entries) =>
        match ReadEntry(c, lines[|lines| - size..])
        case None => None
        case Some(e) => Some(entries + [e])
  }

  /** One more declaration read after the others adds its entry. */
  lemma ReadBodySnoc(c: Config, prev: seq<string>, decl: seq<string>, es: seq<(string, string)>, e: (string, string))
    requires |decl| == if c.encode then 8 else 1
    requires ReadBody(c, prev) == Some(es)
    requires ReadEntry(c, decl) == Some(e)
    ensures ReadBody(c, prev + decl) == Some(es + [e])
  {
    var lines := prev + decl;
    assert lines[..|lines| - |decl|] == prev;
    assert lines[|lines| - |decl|..] == decl;
  }

  /** Reads a whole generated file written with settings `c`. */
  function ReadRender(c: Config, lines: seq<string>): Option<seq<(string, string)>>
  {
    if |lines| >= 5 && lines[..4] == Header(c) && lines[|lines| - 1] == Footer
    then ReadBody(c, lines[4..|lines| - 1])
    else None
  }

  /** The entries an enumeration visits. */
  function Pairs(d: Dict, keys: seq<string>): (r: seq<(string, string)>)
    requires forall i :: 0 <= i < |keys| ==> keys[i] in d
    ensures |r| == |keys|
    ensures forall i :: 0 <= i < |keys| ==> r[i] == (keys[i], d[keys[i]])
  {
    seq(|keys|, i requires 0 <= i < |keys| => (keys[i], d[keys[i]]))
  }

  // ---------------------------------------------------------------------
  // Round trips

  /** A plain declaration reads back as its entry when the key has no colon
      and the value is a verbatim literal body. */
  lemma ConstRoundTrip(prefix: string, key: string, value: string)
    requires ':' !in key && Verbatim(value)
    ensures ReadConstLine(prefix, ConstLine(prefix, key, value)) == Some((key, value))
  {
    var lit := value + "\"";
    var tail := ": String = \"" + lit;
    var rest := key + tail;
    assert ConstLine(prefix, key, value) == Lead(prefix) + rest;
    StripPrefixOf(Lead(prefix), rest);
    IndexOfAfter(key, tail, ':');
    assert tail[0] == ':';
    assert IndexOf(rest, ':') == |key|;
    assert rest[..|key|] == key;
    assert rest[|key|..] == tail;
    StripPrefixOf(": String = \"", lit);
    assert lit[..|lit| - 1] == value;
    assert |lit| > 0 && lit[|lit| - 1] == '"';
  }

  /** A value holding a quotation mark or a backslash is written into a
      literal that does not read back as the value. */
  lemma ConstNotVerbatim(prefix: string, key: string, value: string)
    requires !Verbatim(value)
    ensures ReadConstLine(prefix, ConstLine(prefix, key, value)) != Some((key, value))
  {
  }

  /** A value holding a line break breaks its plain declaration: the text
      written for it does not split back into that one line. */
  lemma ConstLineBroken(prefix: string, key: string, value: string)
    requires '\n' in value
    ensures SplitLines(Unlines([ConstLine(prefix, key, value)])) != [ConstLine(prefix, key, value)]
  {
    var line := ConstLine(prefix, key, value);
    var head := Lead(prefix) + key + ": String = \"";
    var j :| 0 <= j < |value| && value[j] == '\n';
    assert line == head + value + "\"";
    assert line[|head| + j] == '\n';
    var s := line + "\n";
    assert Unlines([line]) == s;
    assert s[|head| + j] == '\n';
    var i := IndexOf(s, '\n');
    assert i <= |head| + j < |line|;
    assert SplitLines(s)[0] == s[..i];
  }

  /** An encoded declaration reads back as its entry, for every value and
      every choice of cipher bytes. */
  lemma GetterRoundTrip(prefix: string, key: string, value: string, cipher: seq<bv8>)
    requires |cipher| == |Utf8.Encode(value)|
    ensures ReadGetter(prefix, Getter(prefix, key, value, cipher)) == Some((key, value))
  {
    var block := Getter(prefix, key, value, cipher);
    var bytes := Cipher.Scramble(Utf8.Encode(value), cipher);
    var literal := ByteList.ArrayText(bytes);
    StripPrefixOf(Lead(prefix), key + GetterOpen);
    var rest := key + GetterOpen;
    assert rest[|rest| - |GetterOpen|..] == GetterOpen;
    assert rest[..|rest| - |GetterOpen|] == key;
    assert block[2..] == GetterTail;
    assert block[0] == Lead(prefix) + rest;
    assert block[1] == ArrayLead + literal;
    StripPrefixOf(ArrayLead, literal);
    ByteList.ArrayRoundTrip(bytes);
    Cipher.RoundTrip(Utf8.Encode(value), cipher);
    Utf8.DecodeEncode(value);
    assert Utf8.Decode(Cipher.Decode(bytes)) == Some(value);
  }

  /** The empty value's getter as written does not read back at all. */
  lemma AsWrittenGetterEmptyBroken(prefix: string, key: string)
    ensures ReadGetter(prefix, AsWrittenGetter(prefix, key, "", [])) == None
  {
    var block := AsWrittenGetter(prefix, key, "", []);
    assert Utf8.Encode("") == [];
    assert Cipher.Xor([], []) == [];
    ByteList.AsWrittenEmptyBroken();
    StripPrefixOf(ArrayLead, "[, ]");
    assert block[1] == ArrayLead + "[, ]";
  }

  /** Every declaration reads back as its entry. */
  lemma DeclarationReadBack(c: Config, key: string, value: string, cipher: seq<bv8>)
    requires c.encode ==> |cipher| == |Utf8.Encode(value)|
    requires !c.encode ==> ':' !in key && Verbatim(value)
    ensures ReadEntry(c, Declaration(c, key, value, cipher)) == Some((key, value))
  {
    if c.encode {
      GetterRoundTrip(c.access.Prefix(), key, value, cipher);
    } else {
      ConstRoundTrip(c.access.Prefix(), key, value);
    }
  }

  /** What a dictionary needs for its plain declarations to read back. */
  predicate PlainSafe(c: Config, d: Dict) {
    !c.encode ==> forall k :: k in d ==> ':' !in k && Verbatim(d[k])
  }

  /** Blocks that each read as one entry read, together, as the entries in
      order. */
  lemma {:induction false} FlattenReadBack(c: Config, blocks: seq<seq<string>>, es: seq<(string, string)>)
    requires |blocks| == |es|
    requires forall i :: 0 <= i < |blocks| ==> |blocks[i]| == (if c.encode then 8 else 1)
    requires forall i :: 0 <= i < |blocks| ==> ReadEntry(c, blocks[i]) == Some(es[i])
    ensures ReadBody(c, Flatten(blocks)) == Some(es)
  {
    if |blocks| > 0 {
      var n := |blocks| - 1;
      var pre, pes := blocks[..n], es[..n];
      forall i | 0 <= i < n
        ensures |pre[i]| == (if c.encode then 8 else 1) && ReadEntry(c, pre[i]) == Some(pes[i])
      {
        assert pre[i] == blocks[i] && pes[i] == es[i];
      }
      FlattenReadBack(c, pre, pes);
      assert Flatten(blocks) == Flatten(pre) + blocks[n];
      ReadBodySnoc(c, Flatten(pre), blocks[n], pes, es[n]);
      LastSplit(es);
    }
  }

  lemma LastSplit<T>(s: seq<T>)
    requires |s| > 0
    ensures s == s[..|s| - 1] + [s[|s| - 1]]
  {
  }

  /** The declarations read back as the enumeration's entries, in order. */
  lemma BodyReadBack(c: Config, d: Dict, keys: seq<string>, ciphers: seq<seq<bv8>>)
    requires Fits(c, d, keys, ciphers) && PlainSafe(c, d)
    ensures ReadBody(c, Body(c, d, keys, ciphers)) == Some(Pairs(d, keys))
  {
    var blocks := Declarations(c, d, keys, ciphers);
    var es := Pairs(d, keys);
    forall i | 0 <= i < |keys|
      ensures |blocks[i]| == (if c.encode then 8 else 1)
      ensures ReadEntry(c, blocks[i]) == Some(es[i])
    {
      DeclarationReadBack(c, keys[i], d[keys[i]], ciphers[i]);
    }
    FlattenReadBack(c, blocks, es);
  }

  /** Lines framed by a head and a last line give back each part. */
  lemma Framed(head: seq<string>, body: seq<string>, last: string)
    ensures var ls := head + body + [last];
      && |ls| == |head| + |body| + 1
      && ls[..|head|] == head
      && ls[|head|..|ls| - 1] == body
      && ls[|ls| - 1] == last
  {
    var ls := head + body + [last];
    assert ls[..|head|] == head;
    assert ls[|head|..|ls| - 1] == body;
  }

  lemma RenderReadBack(c: Config, d: Dict, keys: seq<string>, ciphers: seq<seq<bv8>>)
    requires IsEnumeration(keys, d) && Fits(c, d, keys, ciphers) && PlainSafe(c, d)
    ensures ReadRender(c, RenderLines(c, d, keys, ciphers)) == Some(Pairs(d, keys))
  {
    Framed(Header(c), Body(c, d, keys, ciphers), Footer);
    BodyReadBack(c, d, keys, ciphers);
  }

  /** The entries of an enumeration rebuild the dictionary. */
  lemma PairsRebuild(d: Dict, keys: seq<string>)
    requires IsEnumeration(keys, d)
    ensures FromEntries(Pairs(d, keys)) == d
  {
    var es := Pairs(d, keys);
    assert es[..|keys|] == es;
    forall k
      ensures k in FromEntries(es) <==> k in d
      ensures k in d ==> FromEntries(es)[k] == d[k]
    {
      FromEntriesKeys(es, k);
      if k in d {
        var i :| 0 <= i < |keys| && keys[i] == k;
        assert es[i].0 == k;
        PairsValue(d, keys, |keys|, k);
      }
    }
  }

  lemma {:induction false} PairsValue(d: Dict, keys: seq<string>, n: nat, k: string)
    requires n <= |keys|
    requires forall i :: 0 <= i < |keys| ==> keys[i] in d
    requires k in d && k in FromEntries(Pairs(d, keys)[..n])
    ensures FromEntries(Pairs(d, keys)[..n])[k] == d[k]
  {
    var es := Pairs(d, keys)[..n];
    if n > 0 {
      assert es[..n - 1] == Pairs(d, keys)[..n - 1];
      if es[n - 1].0 != k {
        PairsValue(d, keys, n - 1, k);
      }
    }
  }

  /** What the keys, values and name need for the file's lines to be the
      lines written: no line breaks where they are pasted in. */
  predicate SingleLines(c: Config, d: Dict) {
    && '\n' !in c.name
    && forall k :: k in d ==> '\n' !in k && (!c.encode ==> '\n' !in d[k])
  }

  lemma NoBreaksAppend(a: seq<string>, b: seq<string>)
    requires NoBreaks(a) && NoBreaks(b)
    ensures NoBreaks(a + b)
  {
  }

  lemma FixedTextOneLine()
    ensures NoBreaks(GetterTail)
    ensures '\n' !in GetterOpen && '\n' !in ArrayLead
    ensures '\n' !in Indent && '\n' !in "static let " && '\n' !in ": String = \""
  {
    CountLineOneLine();
    ReturnLineOneLine();
    LoopLineOneLine();
    var t := GetterTail;
    assert '\n' !in t[3] && '\n' !in t[4] && '\n' !in t[5];
  }

  lemma CountLineOneLine() ensures '\n' !in CountLine { }
  lemma ReturnLineOneLine() ensures '\n' !in ReturnLine { }
  lemma LoopLineOneLine() ensures '\n' !in LoopLine { }

  lemma GeneratedLineOneLine() ensures '\n' !in GeneratedLine { }
  lemma WarningLineOneLine() ensures '\n' !in WarningLine { }

  lemma PrefixOneLine(a: AccessLevel)
    ensures '\n' !in a.Prefix()
  {
    var p := a.Prefix();
    forall j | 0 <= j < |p| ensures p[j] != '\n' { }
  }

  lemma HeaderOneLine(c: Config)
    requires '\n' !in c.name
    ensures NoBreaks(Header(c))
  {
    GeneratedLineOneLine();
    WarningLineOneLine();
    PrefixOneLine(c.access);
    var last := c.access.Prefix() + "enum " + c.name + " {";
    assert '\n' !in last;
    assert Header(c) == [GeneratedLine, WarningLine, "", last];
  }

  lemma DeclarationOneLine(c: Config, key: string, value: string, cipher: seq<bv8>)
    requires c.encode ==> |cipher| == |Utf8.Encode(value)|
    requires '\n' !in key
    requires !c.encode ==> '\n' !in value
    ensures NoBreaks(Declaration(c, key, value, cipher))
  {
    FixedTextOneLine();
    var p := c.access.Prefix();
    assert '\n' !in p;
    assert '\n' !in Lead(p);
    if c.encode {
      var lit := ByteList.ArrayText(Cipher.Scramble(Utf8.Encode(value), cipher));
      ByteList.ArrayTextOneLine(Cipher.Scramble(Utf8.Encode(value), cipher));
      var first := [Lead(p) + key + GetterOpen, ArrayLead + lit];
      assert NoBreaks(first);
      NoBreaksAppend(first, GetterTail);
    } else {
      assert ConstLine(p, key, value) == Lead(p) + key + ": String = \"" + value + "\"";
    }
  }

  lemma {:induction false} FlattenOneLine(blocks: seq<seq<string>>)
    requires forall i :: 0 <= i < |blocks| ==> NoBreaks(blocks[i])
    ensures NoBreaks(Flatten(blocks))
  {
    if |blocks| > 0 {
      FlattenOneLine(blocks[..|blocks| - 1]);
    }
  }

  /** Splitting the generated text at line breaks gives back its lines. */
  lemma RenderLinesOf(c: Config, d: Dict, keys: seq<string>, ciphers: seq<seq<bv8>>)
    requires IsEnumeration(keys, d) && Fits(c, d, keys, ciphers) && SingleLines(c, d)
    ensures SplitLines(Render(c, d, keys, ciphers)) == RenderLines(c, d, keys, ciphers)
  {
    var blocks := Declarations(c, d, keys, ciphers);
    forall i | 0 <= i < |blocks|
      ensures NoBreaks(blocks[i])
    {
      DeclarationOneLine(c, keys[i], d[keys[i]], ciphers[i]);
    }
    FlattenOneLine(blocks);
    HeaderOneLine(c);
    NoBreaksAppend(Header(c), Body(c, d, keys, ciphers));
    NoBreaksAppend(Header(c) + Body(c, d, keys, ciphers), [Footer]);
    SplitUnlines(RenderLines(c, d, keys, ciphers));
  }

  /** The generated text, split into lines and read, gives back the
      enumeration's entries, and those entries rebuild the dictionary. In
      encoded mode this holds for every value and every cipher, the empty
      value's literal written `[]`; in plain mode it needs colon-free keys
      and verbatim values, since the value is pasted into the literal
      unescaped. */
  lemma RenderTextReadBack(c: Config, d: Dict, keys: seq<string>, ciphers: seq<seq<bv8>>)
    requires IsEnumeration(keys, d) && Fits(c, d, keys, ciphers)
    requires SingleLines(c, d) && PlainSafe(c, d)
    ensures ReadRender(c, SplitLines(Render(c, d, keys, ciphers))) == Some(Pairs(d, keys))
    ensures FromEntries(Pairs(d, keys)) == d
  {
    RenderLinesOf(c, d, keys, ciphers);
    RenderReadBack(c, d, keys, ciphers);
    PairsRebuild(d, keys);
  }

  /** The file as the generator writes it is `Render`'s file whenever no
      encoded value is empty. */
  lemma AsWrittenRenderAgrees(c: Config, d: Dict, keys: seq<string>, ciphers: seq<seq<bv8>>)
    requires IsEnumeration(keys, d) && Fits(c, d, keys, ciphers) && NoEmptyEncoded(c, d)
    ensures AsWrittenRenderLines(c, d, keys, ciphers) == RenderLines(c, d, keys, ciphers)
    ensures AsWrittenRender(c, d, keys, ciphers) == Render(c, d, keys, ciphers)
  {
    var aw, ok := AsWrittenDeclarations(c, d, keys, ciphers), Declarations(c, d, keys, ciphers);
    forall i | 0 <= i < |keys|
      ensures aw[i] == ok[i]
    {
      if c.encode {
        GetterAgrees(c.access.Prefix(), keys[i], d[keys[i]], ciphers[i]);
      }
    }
    assert aw == ok;
  }

  /** The file as the generator writes it reads back exactly when no encoded
      value is empty, and then as the enumeration's entries: one empty
      value's `[, ]` spoils the whole file. */
  lemma AsWrittenReadBack(c: Config, d: Dict, keys: seq<string>, ciphers: seq<seq<bv8>>)
    requires IsEnumeration(keys, d) && Fits(c, d, keys, ciphers) && PlainSafe(c, d)
    ensures ReadRender(c, AsWrittenRenderLines(c, d, keys, ciphers)).Some? <==> NoEmptyEncoded(c, d)
    ensures NoEmptyEncoded(c, d) ==>
      ReadRender(c, AsWrittenRenderLines(c, d, keys, ciphers)) == Some(Pairs(d, keys))
  {
    if NoEmptyEncoded(c, d) {
      AsWrittenRenderAgrees(c, d, keys, ciphers);
      RenderReadBack(c, d, keys, ciphers);
    } else {
      var k :| k in d && d[k] == "";
      var j :| 0 <= j < |keys| && keys[j] == k;
      EmptyEncodedBroken(c, d, keys, ciphers, j);
    }
  }

  /** The file as written with the encoded empty value of `keys[j]` does not
      read back. */
  lemma EmptyEncodedBroken(c: Config, d: Dict, keys: seq<string>, ciphers: seq<seq<bv8>>, j: nat)
    requires IsEnumeration(keys, d) && Fits(c, d, keys, ciphers)
    requires c.encode && j < |keys| && d[keys[j]] == ""
    ensures ReadRender(c, AsWrittenRenderLines(c, d, keys, ciphers)) == None
  {
    var blocks := AsWrittenDeclarations(c, d, keys, ciphers);
    assert |ciphers[j]| == |Utf8.Encode("")| == 0;
    assert ciphers[j] == [];
    AsWrittenGetterEmptyBroken(c.access.Prefix(), keys[j]);
    assert ReadEntry(c, blocks[j]) == None;
    FlattenBroken(c, blocks, j);
    Framed(Header(c), Flatten(blocks), Footer);
  }

  /** Where no encoded value is empty, the text the generator writes, split
      into lines and read, gives back the enumeration's entries. */
  lemma AsWrittenTextReadBack(c: Config, d: Dict, keys: seq<string>, ciphers: seq<seq<bv8>>)
    requires IsEnumeration(keys, d) && Fits(c, d, keys, ciphers)
    requires SingleLines(c, d) && PlainSafe(c, d) && NoEmptyEncoded(c, d)
    ensures ReadRender(c, SplitLines(AsWrittenRender(c, d, keys, ciphers))) == Some(Pairs(d, keys))
  {
    AsWrittenRenderAgrees(c, d, keys, ciphers);
    RenderTextReadBack(c, d, keys, ciphers);
  }

  /** One declaration that does not read spoils the reading of all of them. */
  lemma FlattenBroken(c: Config, blocks: seq<seq<string>>, j: nat)
    requires j < |blocks|
    requires forall i :: 0 <= i < |blocks| ==> |blocks[i]| == (if c.encode then 8 else 1)
    requires ReadEntry(c, blocks[j]) == None
    ensures ReadBody(c, Flatten(blocks)) == None
  {
    var upto := blocks[..j + 1];
    FlattenLast(upto);
    assert upto[..j] == blocks[..j] && upto[j] == blocks[j];
    ReadBodySnocNone(c, Flatten(blocks[..j]), blocks[j]);
    ReadBodyStuck(c, blocks, j + 1);
  }

  /** Declarations after a prefix that does not read do not mend it. */
  lemma {:induction false} ReadBodyStuck(c: Config, blocks: seq<seq<string>>, m: nat)
    requires m <= |blocks|
    requires forall i :: 0 <= i < |blocks| ==> |blocks[i]| == (if c.encode then 8 else 1)
    requires ReadBody(c, Flatten(blocks[..m])) == None
    ensures ReadBody(c, Flatten(blocks)) == None
    decreases |blocks|
  {
    if m == |blocks| {
      assert blocks[..m] == blocks;
      assert Flatten(blocks[..m]) == Flatten(blocks);
    } else {
      var n := |blocks| - 1;
      var pre := blocks[..n];
      FlattenLast(blocks);
      assert pre[..m] == blocks[..m];
      forall i | 0 <= i < n
        ensures |pre[i]| == (if c.encode then 8 else 1)
      {
        assert pre[i] == blocks[i];
      }
      ReadBodyStuck(c, pre, m);
      ReadBodySnocNone(c, Flatten(pre), blocks[n]);
    }
  }

  lemma FlattenLast(blocks: seq<seq<string>>)
    requires |blocks| > 0
    ensures Flatten(blocks) == Flatten(blocks[..|blocks| - 1]) + blocks[|blocks| - 1]
  {
  }

  /** Reading fails when the earlier declarations or the last one fail. */
  lemma ReadBodySnocNone(c: Config, prev: seq<string>, decl: seq<string>)
    requires |decl| == if c.encode then 8 else 1
    requires ReadBody(c, prev) == None || ReadEntry(c, decl) == None
    ensures ReadBody(c, prev + decl) == None
  {
    var lines := prev + decl;
    assert lines[..|lines| - |decl|] == prev;
    assert lines[|lines| - |decl|..] == decl;
  }

  /** An enumeration has exactly one key per dictionary entry. */
  lemma {:induction false} EnumerationSize(keys: seq<string>, d: Dict)
    requires IsEnumeration(keys, d)
    ensures |keys| == |d|
  {
    if |keys| > 0 {
      var n := |keys| - 1;
      var k := keys[n];
      var rest := d - {k};
      forall j | 0 <= j < n
        ensures keys[..n][j] in rest
      {
        assert keys[j] != k;
      }
      forall x | x in rest
        ensures x in keys[..n]
      {
        var j :| 0 <= j < |keys| && keys[j] == x;
        assert j != n;
      }
      EnumerationSize(keys[..n], rest);
    } else {
      assert d.Keys == {};
    }
  }

  /** Blocks of one line each flatten to those lines, in order. */
  lemma {:induction false} FlattenSingles(blocks: seq<seq<string>>)
    requires forall i :: 0 <= i < |blocks| ==> |blocks[i]| == 1
    ensures |Flatten(blocks)| == |blocks|
    ensures forall i :: 0 <= i < |blocks| ==> Flatten(blocks)[i] == blocks[i][0]
  {
    if |blocks| > 0 {
      FlattenSingles(blocks[..|blocks| - 1]);
    }
  }

  /** A plain body is one declaration line per dictionary entry, in
      enumeration order. */
  lemma PlainBody(c: Config, d: Dict, keys: seq<string>, ciphers: seq<seq<bv8>>)
    requires !c.encode
    requires IsEnumeration(keys, d) && Fits(c, d, keys, ciphers)
    ensures |Body(c, d, keys, ciphers)| == |keys| == |d|
    ensures forall i :: 0 <= i < |keys| ==>
              Body(c, d, keys, ciphers)[i] == ConstLine(c.access.Prefix(), keys[i], d[keys[i]])
  {
    FlattenSingles(Declarations(c, d, keys, ciphers));
    EnumerationSize(keys, d);
  }
}
