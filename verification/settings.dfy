/** The generator's settings record, its keyword tables and its parse
    errors (`Config`, `Config.Keywords`, `Config.AccessLevel`,
    `ParseError`). */
module Settings {
  import opened Wrappers
  import Decimal

  /** Visibility of the generated container and its constants. */
  datatype AccessLevel = Public | Package | Internal {

    function RawValue(): string {
      match this
      case Public => "public"
      case Package => "package"
      case Internal => "internal"
    }

    /** `AccessLevel.string`: the keyword to put in front of a declaration;
        `internal` is Swift's default and is left unwritten. */
    function Prefix(): (r: string)
      ensures r == "" <==> this == Internal
      ensures r != "" ==> r == RawValue() + " "
    {
      match this
      case Internal => ""
      case _ => RawValue() + " "
    }
  }

  /** `AccessLevel(rawValue:)` */
  function AccessFromRaw(s: string): (r: Option<AccessLevel>)
    ensures r.Some? <==> s in {"public", "package", "internal"}
    ensures r.Some? ==> r.value.RawValue() == s
  {
    if s == "public" then Some(Public)
    else if s == "package" then Some(Package)
    else if s == "internal" then Some(Internal)
    else None
  }

  /** Every access level is recognised by its own raw value. */
  lemma AccessRoundTrip(a: AccessLevel)
    ensures AccessFromRaw(a.RawValue()) == Some(a)
  {
  }

  /** Distinct access levels write distinct prefixes, so the generated
      declaration determines the configured level. */
  lemma PrefixInjective(a: AccessLevel, b: AccessLevel)
    requires a.Prefix() == b.Prefix()
    ensures a == b
  {
    if a != Internal && b != Internal {
      assert a.RawValue() == a.Prefix()[..|a.Prefix()| - 1];
      assert b.RawValue() == b.Prefix()[..|b.Prefix()| - 1];
      AccessRoundTrip(a);
      AccessRoundTrip(b);
    }
  }

  /** The reserved directive names of the configuration file. */
  datatype Keyword = NameKey | AccessKey | EncodeKey

  /** `Config.Keywords(rawValue:)` */
  function KeywordFromRaw(s: string): (r: Option<Keyword>)
    ensures r.Some? <==> s in {"name", "access", "encode"}
    ensures r == Some(NameKey) <==> s == "name"
    ensures r == Some(AccessKey) <==> s == "access"
    ensures r == Some(EncodeKey) <==> s == "encode"
  {
    if s == "name" then Some(NameKey)
    else if s == "access" then Some(AccessKey)
    else if s == "encode" then Some(EncodeKey)
    else None
  }

  datatype Config = Config(name: string, access: AccessLevel, encode: bool)

  /** `Config()`: the settings in force before any directive. */
  const DefaultConfig: Config := Config("BuildEnvironment", Public, false)

  datatype ErrorKind =
    | Separator
    | KeywordError
    | At
    | AccessSpec
    | EncodeSpec
    | KeyExist(key: string)
    | Env(key: string)
    | Enclose

  /** A parse error: the 0-based index of the offending line among the
      split lines, and what went wrong. */
  datatype ParseError = ParseError(line: nat, kind: ErrorKind)

  /** What a parser produces: a value, a parse error, or a runtime trap
      (an out-of-range subscript in the source) at a line. */
  datatype Outcome<T> = Done(value: T) | Failed(error: ParseError) | Trapped(line: nat)

  const AccessList: string := "public, package, internal"

  /** The diagnostic text for each error kind. A literal longer than 40
      characters is written as two, since the verifier does not see the
      characters of a longer one. */
  function Message(kind: ErrorKind): (r: string)
    ensures kind.KeyExist? ==> r == "key " + kind.key + " already exits"
    ensures kind.Env? ==> r == "no environment variable " + kind.key
  {
    match kind
    case Separator => "no '=' or ':' separator"
    case KeywordError => "illegal keyword"
    case At => "no $ symbol before env variable"
    case AccessSpec => "wrong access spec, must be one of " + AccessList
    case EncodeSpec => "wrong encode spec, must be yes or no"
    case KeyExist(key) => "key " + key + " already exits"
    case Env(key) => "no environment variable " + key
    case Enclose => "string must be surrounded by " + "double quotation marks (\")"
  }

  /** The key a keyed message carries can be read back from it. */
  lemma MessageKeyRecoverable(kind: ErrorKind)
    requires kind.KeyExist? || kind.Env?
    ensures kind.KeyExist? ==> Message(kind)[4..|Message(kind)| - 14] == kind.key
    ensures kind.Env? ==> Message(kind)[24..] == kind.key
  {
  }

  /** Different errors get different messages: the kind, and the key a
      keyed error names, can be told from the message alone. */
  lemma MessageDetermines(a: ErrorKind, b: ErrorKind)
    requires Message(a) == Message(b)
    ensures a == b
  {
    MessageMarks(a);
    MessageMarks(b);
    if a.KeyExist? || a.Env? {
      MessageKeyRecoverable(a);
    }
    if b.KeyExist? || b.Env? {
      MessageKeyRecoverable(b);
    }
  }

  /** The kind a message's first, fourth and seventh characters point at,
      keys left empty. */
  function KindOf(m: string): ErrorKind
    requires |m| > 6
  {
    match m[0]
    case 'k' => KeyExist("")
    case 'i' => KeywordError
    case 's' => Enclose
    case 'w' => if m[6] == 'a' then AccessSpec else EncodeSpec
    case _ => if m[3] == '\'' then Separator else if m[3] == '$' then At else Env("")
  }

  /** Each message is long enough to classify, and classifies as its kind. */
  lemma MessageMarks(kind: ErrorKind)
    ensures |Message(kind)| > 6
    ensures KindOf(Message(kind)) == match kind
      case KeyExist(_) => KeyExist("")
      case Env(_) => Env("")
      case _ => kind
  {
    var m := Message(kind);
    match kind
    case Separator => assert m[0] == 'n' && m[3] == '\'';
    case KeywordError => assert m[0] == 'i';
    case At => assert m[0] == 'n' && m[3] == '$';
    case AccessSpec => assert m[0] == 'w' && m[6] == 'a';
    case EncodeSpec => assert m[0] == 'w' && m[6] == 'e';
    case KeyExist(key) => assert m[0] == 'k';
    case Env(key) => assert m[0] == 'n' && m[3] == 'e';
    case Enclose => assert m[0] == 's';
  }

  /** The line number shown to the user is one past the internal index. */
  function ReportedLine(e: ParseError): (n: nat)
    ensures n >= 1 && n - 1 == e.line
  {
    e.line + 1
  }

  /** `"Error in line \(line) of \(file):"` followed by the message. */
  function Diagnostic(file: string, e: ParseError): (r: string)
    ensures |r| > |LineLead| + |Decimal.Show(e.line + 1)|
    ensures r[..|LineLead|] == LineLead
    ensures var n := r[|LineLead|..|LineLead| + |Decimal.Show(e.line + 1)|];
      && (forall i :: 0 <= i < |n| ==> Decimal.IsDigit(n[i]))
      && Decimal.Read(n) == e.line + 1
    ensures r[|LineLead| + |Decimal.Show(e.line + 1)|..] == " of " + file + ": " + Message(e.kind)
  {
    var n := Decimal.Show(ReportedLine(e));
    var tail := " of " + file + ": " + Message(e.kind);
    var r := LineLead + n + tail;
    assert r[..|LineLead|] == LineLead;
    assert r[|LineLead|..|LineLead| + |n|] == n;
    assert r[|LineLead| + |n|..] == tail;
    Decimal.ReadShow(ReportedLine(e));
    r
  }

  /** A diagnostic about one file names a single error: its line and its
      kind, key included, can be told from the text. */
  lemma DiagnosticDetermines(file: string, a: ParseError, b: ParseError)
    requires Diagnostic(file, a) == Diagnostic(file, b)
    ensures a == b
  {
    var r := Diagnostic(file, a);
    var la, lb := |Decimal.Show(a.line + 1)|, |Decimal.Show(b.line + 1)|;
    DiagnosticParts(file, a);
    DiagnosticParts(file, b);
    assert la == lb;
    var lead := " of " + file + ": ";
    var ta, tb := lead + Message(a.kind), lead + Message(b.kind);
    assert ta == tb;
    assert Message(a.kind) == ta[|lead|..] && Message(b.kind) == tb[|lead|..];
    MessageDetermines(a.kind, b.kind);
  }

  /** The text after the lead starts with a digit run exactly as long as
      the line number. */
  lemma DiagnosticParts(file: string, e: ParseError)
    ensures Decimal.DigitRun(Diagnostic(file, e)[|LineLead|..]) == |Decimal.Show(e.line + 1)|
  {
    var r := Diagnostic(file, e);
    var m := |LineLead| + |Decimal.Show(e.line + 1)|;
    var tail := " of " + file + ": " + Message(e.kind);
    assert r[|LineLead|..] == r[|LineLead|..m] + r[m..];
    assert r[m..] == tail && tail[0] == ' ';
    Decimal.DigitRunOf(r[|LineLead|..m], tail);
  }

  /** The start of every diagnostic, up to the line number. */
  const LineLead: string := "Error in line "
}
