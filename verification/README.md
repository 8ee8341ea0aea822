# BuildEnvironment in Dafny

A model of the three command-line tools of BuildEnvironment, which turn an
env file (and, for the newest tool, a configuration file) into a Swift
source file that exposes each entry as a `static let` constant.

- `BuildEnvGenerator` reads an optional configuration file first. The file
  holds `KEY = $VAR` / `KEY = $VAR?` assignments that copy process-environment
  variables into the dictionary, and `name:` / `access:` / `encode:`
  directives. It then reads an optional strict env file (`KEY = "VALUE"`)
  on top of the same dictionary. It writes an `<access>enum <name>` with
  one constant per entry. The constant is either a plain string literal or
  a getter that rebuilds the value from XOR-scrambled UTF-8 bytes.
- `BuildEnvFile` reads a loose env file (`KEY = VALUE`, no quotes, no
  trimming before the comment test). It writes the same kind of file with
  fixed settings: `public enum BuildEnvironment`, encoded only under `-e`.
- `BuildEnv` reads the loose env file and writes a `public struct
  BuildEnvironment` whose only initializer traps, with one plain constant
  per entry.

The modules follow the program's structure:

- `Wrappers`: `Option`.
- `Settings`: `Config`, `AccessLevel`, the keyword tables, `ParseError` and
  the diagnostics.
- `Arguments`: `getStringArg` and `subscript(safe:)` over an explicit
  argument list.
- `Dictionaries`: `append(key:value:)`, subscript assignment, and the
  dictionary a sequence of stores builds.
- `Text`: Swift's `split` (empty pieces dropped, with and without
  `maxSplits: 1`) and `trimmingCharacters(in: .whitespaces)`.
- `Decimal`, `Utf8`, `Cipher`, `ByteList`: `String(byte)`, UTF-8, the XOR
  scheme, and the array literal of an encoded getter.
- `EnvParser`: `parceEnv`.
- `ConfigParser`: `parceConfig`.
- `LooseEnv`: the env loop that `BuildEnvFile` and `BuildEnv` share.
- `Emitter`: the generated file, together with a reader for it. The round
  trip "render, split into lines, read" is the partner of every emitter
  function.
- `Legacy`: the two older tools' fixed-settings output.
- `Generator`: `main` of `BuildEnvGenerator` between argument lookup and
  the file write.

The file system is a map from path to content. The process environment is
a map from variable name to value. The random cipher bytes are a parameter,
so every property of an encoded file holds for every choice of cipher.
Dictionary iteration order is a parameter `keys`, which is any enumeration
of the dictionary's keys. Swift runtime traps are an explicit `Trapped`
outcome. These are the out-of-range `keyValue[0]` and `keyValue[1]`
subscripts in `parceConfig` (BuildEnvGenerator.swift:195, 216 and 221-231),
reached for example by `X =`, `name:` or `:`.

Where the code departs from the behaviour the program is documented to
have, the model follows the code, with the one exception in the last item:

- The loose loop of `BuildEnvFile` and `BuildEnv` tests for `#` on the raw
  line, so `  #x = 1` is an entry `#x` (`LooseEnv.IndentedCommentKept`).
  Only the strict loop trims first.
- `parceEnv` accepts a value that is a lone `"`, because its first and
  last characters are both the quotation mark. It stores the empty string.
- Error line numbers index the list that `split(separator: "\n")` returns.
  That list omits empty raw lines, so a blank line before a bad line makes
  the reported number smaller than the file's own line number.
  Whitespace-only lines still count.
- `split(separator: "=", maxSplits: 1)` drops separators in front of the
  first piece, so `=k=x` is the entry `k` = `x`, and `k=` does not split
  in two.
- An encoded empty value is the exception. The generator writes its array
  literal as `[, ]`, which is not an array, so the file does not read back.
  `Emitter.Render` and everything built on it write the corrected `[]`
  (see Findings). `Emitter.AsWrittenRender` is the file as the code writes
  it: it is `Render`'s file when no encoded value is empty
  (`Emitter.AsWrittenRenderAgrees`), and does not read back otherwise
  (`Emitter.AsWrittenReadBack`).

## Model

| member | source | states |
|---|---|---|
| Settings.AccessFromRaw | Sources/BuildEnvGenerator/BuildEnvGenerator.swift:14-15 | `AccessLevel(rawValue:)` accepts exactly `public`, `package` and `internal`, and the level it returns has that raw value |
| Settings.AccessRoundTrip | Sources/BuildEnvGenerator/BuildEnvGenerator.swift:14-15 | every access level is recognised by its own raw value |
| Settings.PrefixInjective | Sources/BuildEnvGenerator/BuildEnvGenerator.swift:16-21 | `AccessLevel.string` is empty only for `internal` and is raw value plus blank otherwise, so distinct levels write distinct prefixes |
| Settings.KeywordFromRaw | Sources/BuildEnvGenerator/BuildEnvGenerator.swift:11-13 | `Config.Keywords(rawValue:)` accepts exactly `name`, `access` and `encode`, each to its own keyword |
| Settings.MessageDetermines | Sources/BuildEnvGenerator/BuildEnvGenerator.swift:95-104 | covers `Message`, the message texts of the `switch`: distinct errors give distinct messages, so the kind, and the key or variable a keyed error names, can be told from the message |
| Settings.MessageKeyRecoverable | Sources/BuildEnvGenerator/BuildEnvGenerator.swift:101-102 | the key embedded in a `keyExist` or `env` message can be cut back out of it |
| Settings.Diagnostic | Sources/BuildEnvGenerator/BuildEnvGenerator.swift:94-105 | The text is `Error in line `, then decimal digits that read back as the 1-based line number, then ` of `, the file name, `: ` and the error's message. |
| Settings.DiagnosticDetermines | Sources/BuildEnvGenerator/BuildEnvGenerator.swift:94-105 | two diagnostics about the same file are equal only for the same error: same line, same kind, same key |
| Arguments.SafeIndex | Sources/BuildEnvFile/GetArgument.swift:18-22 | `subscript(safe:)` gives `xs[i]` exactly when `i` is a valid index, and nil otherwise |
| Arguments.FirstIndex | Sources/BuildEnvFile/GetArgument.swift:13 | `firstIndex(of:)` is nil iff the element is absent, and otherwise is an index holding it with no earlier occurrence |
| Arguments.GetStringArg | Sources/BuildEnvFile/GetArgument.swift:11-16 | nil when the flag is absent; a value iff the first occurrence is not the last argument, and then the value is the argument right after it |
| Arguments.FlagLastHasNoValue | Sources/BuildEnvFile/GetArgument.swift:15 | a flag whose only occurrence is the last argument has no value |
| Arguments.LaterOccurrencesIgnored | Sources/BuildEnvFile/GetArgument.swift:13-15 | arguments appended after a flag's value, including more copies of the flag, do not change the answer |
| Dictionaries.Append | Sources/BuildEnvFile/DictionaryExtensions.swift:9-15 | a present key gives false and an unchanged dictionary; an absent key gives true and maps the key to the value; all other keys are unchanged; the size grows by one iff the result is true |
| Dictionaries.Put | Sources/BuildEnvGenerator/BuildEnvGenerator.swift:181 | subscript assignment maps the key to the value, adds at most that key, and leaves every other key's value alone |
| Dictionaries.FromEntriesKeys | Sources/BuildEnvFile/BuildEnvFile.swift:49 | the dictionary built by a sequence of stores holds a key iff some store names it |
| Text.Trim | Sources/BuildEnvGenerator/BuildEnvGenerator.swift:171 | trimming returns a slice with no outer blanks, and everything cut off is blank |
| Text.TrimmedLines | Sources/BuildEnvGenerator/BuildEnvGenerator.swift:169-171 | one line per non-empty raw line, each the trim of that raw line, none holding a line break or outer blanks |
| Text.SplitAll | Sources/BuildEnvGenerator/BuildEnvGenerator.swift:170 | `split` returns only non-empty pieces, none holding the separator |
| Text.SplitAllOne | Sources/BuildEnvGenerator/BuildEnvGenerator.swift:170 | text without the separator splits into itself, or into nothing when empty |
| Text.SplitAllAppend | Sources/BuildEnvGenerator/BuildEnvGenerator.swift:170 | splitting at a separator between two texts is splitting each text on its own, pieces kept in order and empty ones dropped |
| Text.SplitFirst | Sources/BuildEnvGenerator/BuildEnvGenerator.swift:173 | `split(maxSplits: 1)` gives no pieces iff the text is all separators; after the leading separators it gives a separator-free head and the rest |
| Text.SplitJoin | Sources/BuildEnvGenerator/BuildEnvGenerator.swift:169-170 | splitting lines joined by the separator gives the lines back, when they are non-empty and separator-free |
| Decimal.ReadShow | Sources/BuildEnvGenerator/BuildEnvGenerator.swift:152 | the decimal text `String(n)` reads back as `n` |
| Utf8.Encode | Sources/BuildEnvGenerator/BuildEnvGenerator.swift:143 | `data(using: .utf8)` gives one to four bytes per character |
| Utf8.DecodeEncode | Sources/BuildEnvGenerator/BuildEnvGenerator.swift:158 | the bytes rebuilt by the generated getter read back as the value's characters |
| Cipher.Encrypt | Sources/BuildEnvGenerator/BuildEnvGenerator.swift:147-151 | the scrambling loop leaves `encrypted[i] == plain[i] ^ cipher[i]` at every index |
| Cipher.Scramble | Sources/BuildEnvGenerator/BuildEnvGenerator.swift:156 | the array holds the scrambled bytes followed by the cipher: length `2n`, the bytes XOR the cipher as its first half and the cipher as its second |
| Cipher.Unscramble | Sources/BuildEnvGenerator/BuildEnvGenerator.swift:157-159 | the getter computes `count = a.count / 2` bytes, byte `i` being `a[i] ^ a[i + count]` |
| Cipher.RoundTrip | Sources/BuildEnvGenerator/BuildEnvGenerator.swift:147-159 | for every cipher of the right length, the getter's computation on the written array gives back the plain bytes |
| Cipher.EncodeThenDecode | Sources/BuildEnvFile/BuildEnvFile.swift:87-99 | running the scrambling loop and then the getter's loop returns the plain bytes |
| ByteList.ListRoundTrip | Sources/BuildEnvGenerator/BuildEnvGenerator.swift:152-153 | a non-empty `", "`-joined list of byte literals reads back as the bytes |
| ByteList.ArrayRoundTrip | Sources/BuildEnvGenerator/BuildEnvGenerator.swift:152-156 | the bracketed literal of any bytes, the empty list included, reads back as those bytes |
| ByteList.AsWrittenAgrees | Sources/BuildEnvGenerator/BuildEnvGenerator.swift:156 | for non-empty lists, the two lists joined with a comma of their own are the list of all the bytes |
| ByteList.AsWrittenEmptyBroken | Sources/BuildEnvGenerator/BuildEnvGenerator.swift:156 | for an empty value the literal as written is `[, ]`, which reads as no array at all |
| ByteList.ArrayTextOneLine | Sources/BuildEnvGenerator/BuildEnvGenerator.swift:156 | the array literal holds no line break |
| EnvParser.Unquote | Sources/BuildEnvGenerator/BuildEnvGenerator.swift:181 | `dropFirst().dropLast()` removes the two quotation marks, or gives nothing for a lone `"` |
| EnvParser.EnvLineEffect | Sources/BuildEnvGenerator/BuildEnvGenerator.swift:172-181 | a line is skipped iff it is empty or starts with `#`; the only errors are `separator` and `enclose` |
| EnvParser.EnvLineCases | Sources/BuildEnvGenerator/BuildEnvGenerator.swift:173-181 | `separator` iff the kept line does not split in two at the first `=`; `enclose` iff it does but the trimmed value is unquoted; otherwise the `=`-free trimmed key gets the text between the quotes |
| EnvParser.Run | Sources/BuildEnvGenerator/BuildEnvGenerator.swift:172-182 | the loop succeeds iff no line is rejected; on failure the error is the first rejected line's index and kind |
| EnvParser.RunContents | Sources/BuildEnvGenerator/BuildEnvGenerator.swift:181 | each key ends with the value of its last storing line, keys no line stores keep their starting value, and no other key appears |
| EnvParser.MergeOverrides | Sources/BuildEnvGenerator/BuildEnvGenerator.swift:88-91 | parsing on top of a dictionary fails exactly as parsing alone does, and on success the env entries override the earlier ones |
| EnvParser.KeptLine | Sources/BuildEnvGenerator/BuildEnvGenerator.swift:173-181 | a line with an `=`-free head stores the trimmed head when the trimmed rest is quoted, and is an `enclose` error otherwise |
| EnvParser.EntryLineRoundTrip | Sources/BuildEnvGenerator/BuildEnvGenerator.swift:173-181 | `KEY = "VALUE"` stores exactly the value, whatever `=`, `#` or quotes it holds |
| EnvParser.EnvFileRoundTrip | Sources/BuildEnvGenerator/BuildEnvGenerator.swift:168-183 | an env file listing entries parses to their last-write-wins dictionary merged over the starting one |
| ConfigParser.VariableRef | Sources/BuildEnvGenerator/BuildEnvGenerator.swift:198-203 | the right-hand side is `$`, the variable name, then `?` exactly when the lookup is optional |
| ConfigParser.Classify | Sources/BuildEnvGenerator/BuildEnvGenerator.swift:192-193 | a line is passed over iff it is empty or a comment; `separator` iff a kept line holds neither `=` nor `:` |
| ConfigParser.ClassifyRoutes | Sources/BuildEnvGenerator/BuildEnvGenerator.swift:193-216 | a line with `=` is an assignment even when it also holds `:`, and its key has no `=`; a line with only `:` is a directive; a line of colons alone (`:`, `::`) splits into no pieces and traps on `keyValue[0]` |
| ConfigParser.AssignmentCases | Sources/BuildEnvGenerator/BuildEnvGenerator.swift:194-203 | an assignment with no value traps; a value without a leading `$` is an `at` error; otherwise the variable and the optional flag are read from `$VAR` or `$VAR?` |
| ConfigParser.DirectiveCases | Sources/BuildEnvGenerator/BuildEnvGenerator.swift:215-232 | only the three keywords are accepted; `access` takes exactly a level's raw value and `encode` exactly `yes` or `no`; `encode` is on iff `yes`; a keyword with no value traps, and so does a directive line with no key (`:`) |
| ConfigParser.Step | Sources/BuildEnvGenerator/BuildEnvGenerator.swift:193-232 | a missing optional variable changes nothing; a missing required one is an `env` error; a present one is a `keyExist` error on a known key and otherwise adds exactly that key; no step changes an existing key |
| ConfigParser.Run | Sources/BuildEnvGenerator/BuildEnvGenerator.swift:192-237 | the loop keeps every starting key and value, and a failure or trap lies within the lines read |
| ConfigParser.FirstStop | Sources/BuildEnvGenerator/BuildEnvGenerator.swift:192-236 | a failing file stops at its first failing line: every earlier line steps successfully |
| ConfigParser.LastDirectiveWins | Sources/BuildEnvGenerator/BuildEnvGenerator.swift:219-232 | each setting is the one its last directive sets, or the default when no directive names it |
| ConfigParser.AssignmentsUnique | Sources/BuildEnvGenerator/BuildEnvGenerator.swift:204-213 | the file succeeds iff no line is fatal and no assignment re-uses a key; the dictionary then gains exactly the assigned entries |
| LooseEnv.LooseLineEffect | Sources/BuildEnvFile/BuildEnvFile.swift:43-49 | a raw line is skipped iff it is empty or its first character is `#`; the only error is the missing separator |
| LooseEnv.LooseLineCases | Sources/BuildEnvFile/BuildEnvFile.swift:44-49 | a kept line is rejected iff it does not split in two at its first `=`; otherwise the trimmed sides are stored as they are |
| LooseEnv.LoadStopsAtFirstInvalid | Sources/BuildEnvFile/BuildEnvFile.swift:42-48 | the loop succeeds iff no line is rejected, and otherwise reports the first rejected raw line |
| LooseEnv.LoadContents | Sources/BuildEnv/BuildEnv.swift:32-41 | each key holds the value of the last line that stores it, and there are no other keys |
| LooseEnv.IndentedCommentKept | Sources/BuildEnv/BuildEnv.swift:34 | `  #x = v` is a comment to the strict loop but stores the entry `#x` in the loose loop |
| LooseEnv.IndentedSplit | Sources/BuildEnvFile/BuildEnvFile.swift:44 | blanks of any width before the key and around the `=` are trimmed away |
| LooseEnv.QuotesKept | Sources/BuildEnvFile/BuildEnvFile.swift:49 | a strict-format line loads with its quotation marks kept in the value |
| LooseEnv.LooseLineRoundTrip | Sources/BuildEnvFile/BuildEnvFile.swift:44-49 | `KEY = VALUE` stores exactly the key and the value |
| LooseEnv.LooseEmptyValue | Sources/BuildEnvFile/BuildEnvFile.swift:44-49 | `KEY = `, with nothing after the blank, stores the key with the empty value |
| LooseEnv.LooseRoundTrip | Sources/BuildEnvFile/BuildEnvFile.swift:41-50 | a loose env file listing entries loads as their last-write-wins dictionary |
| Emitter.SplitUnlines | Sources/BuildEnvGenerator/BuildEnvGenerator.swift:112-127 | the generated text split at line breaks gives back its lines, when no line holds a break |
| Emitter.Declaration | Sources/BuildEnvGenerator/BuildEnvGenerator.swift:120-126 | each entry contributes one line in plain mode and eight in encoded mode |
| Emitter.ConstRoundTrip | Sources/BuildEnvGenerator/BuildEnvGenerator.swift:124 | a plain declaration reads back as its key and value |
| Emitter.ConstNotVerbatim | Sources/BuildEnvGenerator/BuildEnvGenerator.swift:124 | a value holding `"` or `\` is pasted into a literal that does not read back as the value |
| Emitter.ConstLineBroken | Sources/BuildEnvGenerator/BuildEnvGenerator.swift:124 | a value holding a line break is pasted into a declaration that no longer is one line of the file |
| Emitter.GetterRoundTrip | Sources/BuildEnvGenerator/BuildEnvGenerator.swift:142-166 | an encoded declaration reads back as its key and value, for every value and every cipher |
| Emitter.GetterAgrees | Sources/BuildEnvGenerator/BuildEnvGenerator.swift:154-164 | for a non-empty value the getter as written and the corrected getter are the same lines |
| Emitter.AsWrittenGetterEmptyBroken | Sources/BuildEnvGenerator/BuildEnvGenerator.swift:156 | the getter as written for an empty value does not read back at all |
| Emitter.DeclarationReadBack | Sources/BuildEnvGenerator/BuildEnvGenerator.swift:120-126 | every declaration reads back as its entry, in either mode |
| Emitter.BodyReadBack | Sources/BuildEnvGenerator/BuildEnvGenerator.swift:120-126 | the declarations read back as the enumeration's entries, in order |
| Emitter.RenderReadBack | Sources/BuildEnvGenerator/BuildEnvGenerator.swift:112-127 | the file's lines are the header, the declarations and `}`, and read back as the enumeration's entries |
| Emitter.RenderLinesOf | Sources/BuildEnvGenerator/BuildEnvGenerator.swift:112-127 | splitting the generated text at line breaks gives back the file's lines |
| Emitter.RenderTextReadBack | Sources/BuildEnvGenerator/BuildEnvGenerator.swift:112-127 | the generated text, split and read, gives the enumeration's entries, and they rebuild the dictionary |
| Emitter.AsWrittenDeclaration | Sources/BuildEnvGenerator/BuildEnvGenerator.swift:120-126 | an entry as the generator writes it is one line in plain mode and eight in encoded mode |
| Emitter.AsWrittenRenderAgrees | Sources/BuildEnvGenerator/BuildEnvGenerator.swift:112-166 | when no encoded value is empty, the file as written is the file with the corrected array literal, line for line |
| Emitter.AsWrittenReadBack | Sources/BuildEnvGenerator/BuildEnvGenerator.swift:112-166 | the file as written reads back iff no encoded value is empty, and then as the enumeration's entries |
| Emitter.AsWrittenTextReadBack | Sources/BuildEnvGenerator/BuildEnvGenerator.swift:112-166 | when no encoded value is empty, the text as written, split and read, gives the enumeration's entries |
| Emitter.EmptyEncodedBroken | Sources/BuildEnvGenerator/BuildEnvGenerator.swift:112-166 | one encoded empty value makes the whole file as written unreadable |
| Emitter.FlattenBroken | Sources/BuildEnvGenerator/BuildEnvGenerator.swift:120-126 | one declaration that does not read spoils the reading of the whole body |
| Emitter.PairsRebuild | Sources/BuildEnvGenerator/BuildEnvGenerator.swift:120 | the entries an enumeration visits rebuild the dictionary |
| Emitter.EnumerationSize | Sources/BuildEnvGenerator/BuildEnvGenerator.swift:120 | an enumeration visits exactly one key per entry |
| Emitter.PlainBody | Sources/BuildEnvGenerator/BuildEnvGenerator.swift:120-126 | a plain body is one constant line per entry, in enumeration order |
| Emitter.HeaderOneLine | Sources/BuildEnvGenerator/BuildEnvGenerator.swift:112-119 | the header's lines hold no line break when the container name holds none |
| Legacy.FileToolConfig | Sources/BuildEnvFile/BuildEnvFile.swift:57-64 | the fixed settings write the `public ` prefix and a one-line container name |
| Legacy.ContainerLine | Sources/BuildEnvFile/BuildEnvFile.swift:57 | the container line is `public enum BuildEnvironment {` |
| Legacy.PublicConstLine | Sources/BuildEnvFile/BuildEnvFile.swift:64 | a plain constant is `    public static let K: String = "V"` |
| Legacy.PublicGetterLine | Sources/BuildEnvFile/BuildEnvFile.swift:95 | an encoded getter opens with `    public static let K: String = {` |
| Legacy.FileTool | Sources/BuildEnvFile/BuildEnvFile.swift:41-67 | the tool writes a file iff no env line is invalid |
| Legacy.FileToolReadBack | Sources/BuildEnvFile/BuildEnvFile.swift:52-67 | the file written for a loaded dictionary reads back as its entries |
| Legacy.FileToolAsWritten | Sources/BuildEnvFile/BuildEnvFile.swift:52-99 | the file `BuildEnvFile` writes is `FileTool`'s when no value is empty under `-e`, and does not read back otherwise |
| Legacy.EntriesFit | Sources/BuildEnvFile/BuildEnvFile.swift:41-50 | entries that fit on single lines (and verbatim literals, in plain mode) give a dictionary that does |
| Legacy.StructShape | Sources/BuildEnv/BuildEnv.swift:43-52 | the struct is its two head lines, exactly one `public` constant per key in enumeration order, and `}` |
| Legacy.StructLinesOf | Sources/BuildEnv/BuildEnv.swift:43-52 | splitting the struct's text at line breaks gives back its lines |
| Legacy.StructReadBack | Sources/BuildEnv/BuildEnv.swift:43-52 | the struct's text, split and read, gives the enumeration's entries, and they rebuild the dictionary |
| Generator.Report | Sources/BuildEnvGenerator/BuildEnvGenerator.swift:64-110 | a run stops with a diagnostic iff it neither parses nor traps; a parse failure gives the `Error in line` diagnostic |
| Generator.EnvPhase | Sources/BuildEnvGenerator/BuildEnvGenerator.swift:88-92 | reading the env file keeps the output path and the settings |
| Generator.Generate | Sources/BuildEnvGenerator/BuildEnvGenerator.swift:64-92 | no `--output` value stops the run first; then a run lacks input iff neither `--env` nor `--config` has a value; a parsed run writes to the `--output` value |
| Generator.ConfigFailureFirst | Sources/BuildEnvGenerator/BuildEnvGenerator.swift:81-92 | a failing configuration file stops the run before the env file is read, and is the file reported |
| Generator.EnvOnly | Sources/BuildEnvGenerator/BuildEnvGenerator.swift:77-92 | without a configuration file the settings are the defaults and the dictionary is the env file's |
| Generator.EnvOverridesConfig | Sources/BuildEnvGenerator/BuildEnvGenerator.swift:88-91 | env-file entries override configuration assignments of the same key without a `keyExist` check, and the env file fails on the same line either way |
| Generator.ConfigThenEnv | Sources/BuildEnvGenerator/BuildEnvGenerator.swift:77-92 | with both files parsed, the dictionary is the configuration's entries overridden by the env file's, under the configuration's settings |
| Generator.OutputDeclaresDict | Sources/BuildEnvGenerator/BuildEnvGenerator.swift:112-127 | whatever the enumeration order, the written file declares exactly the parsed dictionary, for keys and plain values that fit on one line and plain values without `"` or `\` |
| Generator.OutputAsWritten | Sources/BuildEnvGenerator/BuildEnvGenerator.swift:112-166 | the file the generator writes as its code stands is `Output` when no encoded value is empty, and then declares the parsed dictionary; otherwise it does not read back |

## Left out

- File reading and writing, `print` to standard error, `exit` codes, and the `argc` checks of each `main` are left out. `BuildEnvFile`'s `-e` flag is the `encode` parameter of `Legacy.FileTool`, and its positional file arguments are not modelled. A run of the generator ends in a `Generator.Run` value instead.
- Settings.Diagnostic: the newline that `print` adds after the message, the write to standard error and the `exit(EXIT_FAILURE)` that follows are not modelled. The contract covers the printed text up to the end of the message.
- `Generator.Report`: the read-error diagnostic omits the underlying error's description, which comes from the Foundation I/O layer.
- The usage message of each tool and the `Created file` and `Write error` lines are left out. They are I/O.
- The failure of `value.data(using: .utf8)` is left out, because a Dafny `string` always holds Unicode scalar values and so always encodes.
- `String(unsafeUninitializedCapacity:)` repairs invalid UTF-8. `Utf8.Decode` rejects it instead. Scrambled-then-unscrambled bytes are always valid, so the round trip never meets the difference.
- The random cipher bytes are a parameter. The model states its laws for every cipher, so it says nothing about their distribution.
- `Text.Trim`: whitespace is blank and tab only, not the whole `CharacterSet.whitespaces`.
- Swift's grapheme clusters are not modelled. A character is a Unicode scalar, so `\r\n` is two characters and not one. Strings compare scalar by scalar, not up to canonical equivalence: a precomposed and a decomposed `é` key are two keys here (no `keyExist` in `parceConfig`, two entries from `parceEnv`), but one key in Swift.
- Dictionary iteration order is a parameter (any enumeration of the keys), not Swift's hash order.
- The keys are not checked to be valid Swift identifiers. The source does not check them either.
- Emitter.ConstRoundTrip: holds only for keys without `:` and values without `"` or `\`. The source pastes the value into the literal unescaped, and `Emitter.ConstNotVerbatim` shows that other values do not read back. Every plain round trip (`Legacy.FileToolReadBack`, `Legacy.StructReadBack`, `Emitter.RenderTextReadBack`, `Emitter.AsWrittenTextReadBack`, `Generator.OutputDeclaresDict`, `Generator.OutputAsWritten`) carries the same precondition.
- Emitter.RenderTextReadBack: the text-level round trips (`Emitter.AsWrittenTextReadBack`, `Legacy.FileToolReadBack`, `Legacy.StructReadBack`, `Generator.OutputDeclaresDict`, `Generator.OutputAsWritten`) also exclude a key, a container name or a plain value holding a line break. Such a value can reach a parsed run, for example from a multi-line environment variable named by `KEY = $VAR`, and the source pastes it into a one-line literal that breaks the file (`Emitter.ConstLineBroken`).
- Legacy.FileToolReadBack: states the read-back for the dictionary the loop loads, not for an arbitrary env file's text. `LooseEnv.LooseRoundTrip` covers the step from entries to text.
- Emitter.Declaration: an encoded entry is the corrected getter, whose empty value's literal is `[]`; the generator writes `[, ]` there. `Emitter.AsWrittenDeclaration` is the entry as written.
- Emitter.DeclarationReadBack: for an encoded empty value it speaks of the corrected literal `[]`. The getter as written does not read back (`Emitter.AsWrittenGetterEmptyBroken`).
- Emitter.BodyReadBack: with an encoded empty value it speaks of the corrected literal `[]`. The body as written does not read back (`Emitter.AsWrittenReadBack`), and it is the same body for every other dictionary (`Emitter.AsWrittenRenderAgrees`).
- Emitter.RenderReadBack: with an encoded empty value it speaks of the corrected literal `[]`. The file as written does not read back (`Emitter.AsWrittenReadBack`), and it is the same file for every other dictionary (`Emitter.AsWrittenRenderAgrees`).
- Emitter.RenderTextReadBack: with an encoded empty value it speaks of the corrected literal `[]`. For every other dictionary `Emitter.AsWrittenTextReadBack` states the same of the text as written.
- Legacy.FileTool: under `-e` an empty value is written with the corrected literal `[]`, not `[, ]`. `Legacy.FileToolAsWritten` relates it to the file the code writes.
- Legacy.FileToolReadBack: with an empty value under `-e` it speaks of the corrected literal `[]`. The file as written does not read back (`Legacy.FileToolAsWritten`).
- Generator.OutputDeclaresDict: with an encoded empty value it speaks of the corrected literal `[]`. The file as written does not read back, and for every other dictionary it is the same file (`Generator.OutputAsWritten`). It also declares the parsed dictionary only when keys and plain values hold no line break and plain values no `"` or `\`. A plain value with a line break, such as a multi-line environment variable, is pasted into a literal that breaks the file (`Emitter.ConstLineBroken`).
- The package plugins and the package manifest are not part of this model.

## Findings

| source | as written | input that shows it | evidently intended | confidence | as-written member | corrected member |
|---|---|---|---|---|---|---|
| Sources/BuildEnvGenerator/BuildEnvGenerator.swift:156 | the array literal is `[\(encryptedText), \(cipherText)]`, with a comma of its own between the two lists | the empty value `""` (for example `EMPTY = ""` with `encode: yes`), which writes `let encrypted: [UInt8] = [, ]` | an array literal of the scrambled bytes followed by the cipher bytes, `[]` for an empty value, so that the getter returns `""` | not executed | ByteList.AsWrittenEmptyBroken | ByteList.ArrayRoundTrip |
| Sources/BuildEnvFile/BuildEnvFile.swift:96 | the same literal in `BuildEnvFile`'s `encodedCode` | the env line `K = ` (a blank after the `=`), which loads the empty value (`LooseEnv.LooseEmptyValue`), run with `-e` | the same as above | not executed | Emitter.AsWrittenGetterEmptyBroken | Emitter.GetterRoundTrip |

`ByteList.AsWrittenArrayText` and `Emitter.AsWrittenGetter` model the
literal as written. `ByteList.ArrayText` and `Emitter.Getter` are the
corrected ones, and the rest of the model uses them.
`ByteList.AsWrittenAgrees` and `Emitter.GetterAgrees` show that the two
agree on every non-empty value.
