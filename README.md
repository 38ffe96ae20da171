# tts-app in Dafny

tts-app is a small command-line program. It turns every `*.txt` file under `input/` into
speech files under `output/`, calling a speech-synthesis REST service once per file and
voice. This project models the deterministic core of `Program.cs` and proves
properties of it:

- **Voice resolution** (`Voices`). The parsed `languages.json` records are filtered to
  the requested locale, compared case-insensitively. The first record whose gender
  lowercases to `male` and the first whose gender lowercases to `female` are kept.
  Either may be absent.
- **Short-name extraction** (`ShortNames`). `GetShortNameFromMapping` returns capture
  group 1 of the leftmost match of `\([a-zA-Z\-]*\, ([a-zA-Z0-9\,\s]*)\)`, or `""`.
  The model is a hand-written leftmost scanner. It is proved equal to the pattern's own
  meaning (`IsOccurrence`): the prefix class has no `,` and the group class has no `)`,
  so greedy matching at a position is unique.
- **Output naming** (`OutputPaths`). `GetOutFileName` and the three .NET path helpers it
  uses (`GetFileNameWithoutExtension`, `ChangeExtension`, `Combine`). They are modelled
  on paths whose only separator is `/`.
- **Request body** (`Ssml`). The SSML 1.0 document string of `GenerateAudio`, with a
  parser that reads the voice name and the text back.
- **Batch loop** (`Batch`). The `foreach` loop of `Main` is a method with a loop. It
  reads each file, tries the male voice and then the female voice, and stops a file at
  its first failure. The caught file is reported and the loop goes on. The early exits
  of `Main` are modelled around it.

File reads, synthesis calls and the token exchange are inputs to the model:
- a file's text is `None` when reading it throws;
- `ok(i, g)` says whether the synthesis call for file `i` and gender `g` succeeds;
- `tokenOk` and `inputExists` are booleans.

The output name uses only capture group 1 of the mapping, never the locale. For
`input/greeting.txt` and a mapping whose group 1 is `GuyNeural`, such as
`Microsoft Server Speech Text to Speech Voice (en-US, GuyNeural)`, the male file is
`output/vo_greeting_GuyNeural_m.wav` (`OutputPaths.ExampleGreeting`). A mapping without
the parenthesised `(<locale>, <name>)` pattern has the short name `""`, and then the
male file is `output/vo_greeting__m.wav`.

Modules: `Wrappers` (Option), `Text` (ASCII lower-casing, index search), `Voices`,
`ShortNames`, `OutputPaths`, `Ssml`, `Batch`.

## Model

| member | source | states |
|---|---|---|
| Text.Lower | Program.cs:49 | `ToLower` keeps the length and lowers every character, ASCII only |
| Text.LowerIdempotent | Program.cs:49 | lowering twice is lowering once |
| Voices.ForLocale | Program.cs:49 | the `Where` result holds exactly the records whose lowered locale equals the lowered argument |
| Voices.FirstOfGender | Program.cs:51-52 | `FirstOrDefault` yields a record of the gender from the list, and yields nothing exactly when no record has that gender |
| Voices.Resolve | Program.cs:49-52 | a resolved male (female) voice is a record of the input whose locale matches and whose lowered gender is `male` (`female`) |
| Voices.Count | Program.cs:49-52 | at most two voices are resolved, and none exactly when both are absent |
| Voices.Pick | Program.cs:49-52 | the `Where`/`FirstOrDefault` query for one gender yields, if anything, a record of the input with the locale and the gender |
| Voices.PickIsFirst | Program.cs:49-52 | the query yields exactly the first record, in input order, that has the locale and the gender |
| Voices.PickNone | Program.cs:51-52 | the query yields nothing if and only if no record has both the locale and the gender |
| Voices.NoLocaleNoVoices | Program.cs:49-52 | a locale that no record has resolves neither voice |
| Voices.ResolveIgnoresCase | Program.cs:49 | the argument's ASCII case does not change which voices are resolved |
| ShortNames.IsOccurrence | Program.cs:17 | what the pattern matches: `(`, prefix characters, `, `, group characters, `)` |
| ShortNames.Group | Program.cs:135 | capture group 1 of an occurrence: the characters between `, ` and `)` |
| ShortNames.SpanEnd | Program.cs:17 | the greedy run of one character class stops at the first character outside it |
| ShortNames.MatchAt | Program.cs:17 | an attempt at a position that succeeds returns an occurrence of the pattern starting there |
| ShortNames.MatchAtComplete | Program.cs:17 | whenever the pattern occurs at a position, the attempt there finds that very occurrence |
| ShortNames.LeftmostFrom | Program.cs:135 | the scan returns the leftmost occurrence at or after a position, or none when there is none |
| ShortNames.ShortNameFromMapping | Program.cs:17 | the short name holds only ASCII letters, digits, commas and `\s` characters |
| ShortNames.ShortNameIsLeftmostGroup | Program.cs:133-136 | the short name is group 1 of the leftmost occurrence of the pattern |
| ShortNames.ShortNameNoMatch | Program.cs:135 | without an occurrence the result is `""`, not a failure |
| ShortNames.ShortNameNonEmpty | Program.cs:133-136 | a non-empty short name is group 1 of some occurrence |
| ShortNames.ShortNameHasNoPathCharacters | Program.cs:17 | a short name never holds `.`, `/`, `(` or `)` |
| ShortNames.ShortNameSkipsLeadingText | Program.cs:133-136 | text before the first `(` never changes the short name |
| ShortNames.ShortNameOfPair | Program.cs:17 | `(<prefix>, <group>)` with characters of the two classes yields `<group>` |
| ShortNames.ShortNameNeedsCommaSpace | Program.cs:17 | without a `,` followed by a space the short name is `""` |
| ShortNames.ExampleBare | Program.cs:133-136 | `(en-US, GuyNeural)` yields `GuyNeural` |
| ShortNames.ExampleDisplayName | Program.cs:133-136 | `Microsoft Server Speech Text to Speech Voice (en-US, GuyNeural)` yields `GuyNeural` |
| ShortNames.ExampleNoSpace | Program.cs:17 | `(en-US,GuyNeural)` yields `""` |
| OutputPaths.FileName | Program.cs:128 | `GetFileName` is the suffix after the last `/` and holds no `/` |
| OutputPaths.FileNameWithoutExtension | Program.cs:128 | `GetFileNameWithoutExtension` is the stem of `GetFileName`; `Stem`, `FileNameOfJoin` and `StemOfJoin` state what it is |
| OutputPaths.Stem | Program.cs:128 | the name up to its last `.`, or all of it when it has no `.` |
| OutputPaths.ExtensionStart | Program.cs:129 | `ChangeExtension` cuts at the last `.` that no `/` follows, or nowhere |
| OutputPaths.ChangeExtension | Program.cs:129 | the renamed path ends in `.` + extension; an empty path stays empty |
| OutputPaths.Combine | Program.cs:130 | `Combine(dir, name)` joins with one `/` when neither side supplies it, and an empty name leaves `dir` unchanged |
| OutputPaths.BaseName | Program.cs:129 | the interpolated name `vo_<stem>_<voice with ' ' and ',' made '_'>_<m/f>`; `BaseNameUndotted` and `OutFileNameGenderSuffix` state its shape |
| OutputPaths.SanitizeVoice | Program.cs:129 | the voice keeps its length, every ` ` and `,` becomes `_`, and every other character is kept |
| OutputPaths.OutFileName | Program.cs:126-131 | the output path starts with `output/vo_` and ends in `.wav` |
| OutputPaths.OutFileNameFlat | Program.cs:126-131 | with a voice name free of `/`, no `/` follows `output/`: the file is directly under `output` |
| OutputPaths.ChangeExtensionKeeps | Program.cs:129 | a path already ending in `.wav` is not changed |
| OutputPaths.ChangeExtensionIdempotent | Program.cs:129 | changing to the same extension twice is changing it once |
| OutputPaths.ChangeExtensionAppends | Program.cs:129 | a path without `.` gains `.` + extension |
| OutputPaths.ChangeExtensionCuts | Program.cs:129 | a path is cut at its last `.` when no separator follows it |
| OutputPaths.RenameDotted | Program.cs:129 | a `.` in the stem starts the extension, and the voice and gender suffix are dropped |
| OutputPaths.CutAtStemDot | Program.cs:129 | `vo_<stem><rest>` is cut at the stem's last `.` when `rest` has no `.` |
| OutputPaths.OutFileNameUndotted | Program.cs:126-131 | with no `.` in the stem and the voice, the path is `output/vo_<stem>_<voice>_<m/f>.wav` |
| OutputPaths.OutFileNameGenderSuffix | Program.cs:126-131 | then the name ends in `_m.wav` for the male flag and `_f.wav` otherwise |
| OutputPaths.FileNameOfJoin | Program.cs:128 | the file name of `dir/name` is `name` |
| OutputPaths.StemOfJoin | Program.cs:128 | the stem of `dir/name` is `name` up to its last `.` |
| OutputPaths.OutFileNameDotted | Program.cs:126-131 | a dotted stem gives `output/vo_<stem before its last .>.wav` |
| OutputPaths.MaleAndFemaleNamesDiffer | Program.cs:104-110 | without a `.` in the way, the male and female files of one input differ |
| OutputPaths.DottedStemNamesCollide | Program.cs:104-110 | with a dotted stem, the male and female files of one input are the same file |
| OutputPaths.SanitizeKeepsPlainVoice | Program.cs:129 | a voice with no ` ` and no `,` is unchanged |
| OutputPaths.ExampleGreeting | Program.cs:126-131 | `input/greeting.txt` with `GuyNeural`, male, gives `output/vo_greeting_GuyNeural_m.wav` |
| OutputPaths.ExampleDottedInput | Program.cs:126-131 | `input/a.b.txt` with `GuyNeural`, male, gives `output/vo_a.wav` |
| Ssml.RequestBody | Program.cs:140-141 | the request body: `Document` with the fixed `speak` and `voice` markup around the voice name and the text |
| Ssml.ParseDocument | Program.cs:140-141 | reads a voice name up to the first quote and a text up to the closing back out of a document |
| Ssml.ParseBody | Program.cs:140-141 | `ParseDocument` with the request body's markup; its round trips are `ParseRequestBody` and `ParsedBodyIsRequestBody` |
| Ssml.Document | Program.cs:140-141 | the body is the opening, the voice name, `'>`, the text and the closing, each at its place and unchanged |
| Ssml.DocumentRoundTrip | Program.cs:140-141 | a voice name without a quote, and any text, are read back from the document |
| Ssml.ParsedDocumentRebuilds | Program.cs:140-141 | any document that parses is the document of what it parses to |
| Ssml.ParseRequestBody | Program.cs:140-141 | for a voice name without `'`, the voice name and the text are read back from the request body |
| Ssml.ParsedBodyIsRequestBody | Program.cs:140-141 | every string that parses is the request body of the voice name and text it parses to |
| Ssml.RequestBodyInjective | Program.cs:140-141 | one voice name with two different texts gives two different bodies |
| Batch.MakeJob | Program.cs:104-111 | a job records its file, its gender, the file's text and the record's full mapping as the voice name |
| Batch.FileCalls | Program.cs:98-112 | a file makes at most one call per resolved voice, only when readable, male before female |
| Batch.Synthesize | Program.cs:102-111 | one `if` block calls with the record's full mapping and the file's text, writes a `vo_` `.wav` file directly under `output` (the short name holds no `/`), marked `_m` for the male voice and `_f` for the female one when the stem has no `.`, and succeeds as the service call does |
| Batch.JobPath | Program.cs:104-110 | a job's output path is a `vo_` `.wav` file directly under `output`, with no `/` after `output/`, marked with the gender when the stem has no `.` |
| Batch.FileAttempts | Program.cs:98-112 | the jobs one file's `try` block attempts: the male job if a male voice is resolved, then the female job unless the male call failed; none for an unreadable file |
| Batch.FileFailed | Program.cs:98-118 | a file ends in the `catch` when it is unreadable, its male call fails, or its female call fails after the male call did not |
| Batch.Attempts | Program.cs:96-120 | the jobs of the whole loop: each file's jobs in enumeration order; `ProcessFiles` is proved to log exactly these |
| Batch.Calls | Program.cs:96-120 | the calls of the whole loop in order; `CallsBound`, `AllCalled`, `CallsOfFile` and `CallsInOrder` state what they are |
| Batch.Reported | Program.cs:114-118 | the paths the `catch` reports in order; `ReportedFiles` and `FirstFailureEndsFile` state which |
| Batch.AttemptFile | Program.cs:98-118 | the `try` block attempts the jobs `FileAttempts` names and fails exactly as `FileFailed` says |
| Batch.ProcessFiles | Program.cs:96-120 | the loop logs `Attempts`, whose calls are `Calls`, and reports `Reported` |
| Batch.Run | Program.cs:18-124 | `Main` stops without a locale, without an input directory, or without a token, and otherwise runs the loop on the resolved voices |
| Batch.FilePolicy | Program.cs:100-112 | the male call is made iff the file is readable and a male voice is resolved; the female call iff the file is readable, a female voice is resolved, and the male call did not happen or succeeded |
| Batch.FirstFailureEndsFile | Program.cs:98-118 | a file is reported iff it is unreadable or its last call failed, and every earlier call of that file succeeded |
| Batch.Project | Program.cs:96-120 | the projection of a job log keeps its length and the file and gender of each job |
| Batch.ProjectAppend | Program.cs:96-120 | projecting a concatenated log is concatenating the projections |
| Batch.FileAttemptsAreCalls | Program.cs:98-112 | the jobs of one file are exactly its calls |
| Batch.CallsBound | Program.cs:96-120 | `N` files and `k` resolved voices give at most `N * k` calls |
| Batch.FileSucceeds | Program.cs:98-112 | a readable file whose calls succeed makes one call per resolved voice and is not reported |
| Batch.AllCalled | Program.cs:96-120 | with every file readable and every call succeeding there are exactly `N * k` calls |
| Batch.NoneReported | Program.cs:114-118 | then no file is reported |
| Batch.AllSucceed | Program.cs:96-120 | both of the above together |
| Batch.CallsFromFiles | Program.cs:96 | every call belongs to one of the files |
| Batch.CallsOfFile | Program.cs:96-120 | the calls of file `i` in the whole run are exactly the calls of file `i` on its own |
| Batch.OutcomeIsolation | Program.cs:114-118 | what happens in file `i` depends only on the outcomes of file `i`'s own calls |
| Batch.CallsInOrder | Program.cs:96-112 | calls go in file order, and within a file the male call comes first |
| Batch.ReportedFiles | Program.cs:114-118 | a path is reported iff some file with that path failed |
| Batch.NoVoicesNoCalls | Program.cs:49-112 | a locale that no record has leads to no calls at all |
| Batch.NoVoicesReportsUnreadable | Program.cs:49-118 | then only unreadable files are reported |
| Batch.LoggedJobs | Program.cs:104-111 | every logged job's path is `GetOutFileName` of its file and the record's short name: `true` for the male job, the default `false` for the female one; its voice name is the full mapping and its text is its file's text |
| Batch.OutPathGenderSuffix | Program.cs:104-110 | for a stem without `.`, the male path ends in `_m.wav` and the female path in `_f.wav` |
| Batch.RequestNamesMapping | Program.cs:105-141 | the request body of every logged job whose mapping has no `'` reads back as the resolved record's full mapping and the text of that job's own file |

## Left out

- The token exchange and the HTTPS synthesis call (Program.cs:82-94, 143-179) are network I/O. Their outcomes are the inputs `tokenOk` and `ok`; headers, endpoints, credentials and the response byte stream are not modelled.
- Directory checks, the recursive `*.txt` enumeration, file reads and writes, and the creation of `output/` (Program.cs:26-37, 100, 170-173) are filesystem I/O. The model takes the enumerated files and their contents as a sequence, in enumeration order.
- The parsing of `languages.json` (Program.cs:41-48) is done by a foreign JSON library. Records come already parsed, with all four fields present.
- Console output and `Console.ReadKey` (Program.cs:39, 54-70, 116-117, 122-123) are not modelled. Reported files appear as the `reported` sequence.
- `async`/`await` is not modelled: the calls run one after another, as the `await`s make them.
- Text.Lower: lowers ASCII letters only, the same way in every culture. .NET's culture-sensitive `ToLower` also lowers other letters, and under a Turkish culture it lowers ASCII `I` to `ı`, so the locale comparison can differ even on ASCII input.
- ShortNames.IsRegexSpace: lists .NET's `\s` set by code point, as of the Unicode separator categories.
- OutputPaths.FileName: `/` is the only directory separator; .NET on Windows also accepts `\` and drive prefixes.
- OutputPaths.ChangeExtension: models a non-null extension only, which is the only kind the program passes.
- Batch.RequestNamesMapping: holds only for a mapping without `'`. The body is built without escaping, so in a mapping holding `'>` the parser ends the voice name at that quote and reads the rest of the mapping as part of the text. Ssml.ParseRequestBody has the same condition.
- OutputPaths.Combine: models two parts as the program calls it.
- OutputPaths.OutFileName: does not model the .NET Framework's check for invalid path characters. There, `GetFileNameWithoutExtension`, `ChangeExtension` and `Combine` throw on such characters. These include `\t`, `\n`, `\r`, `\v` and `\f`, which the group class's `\s` admits into a short name. The model instead returns a path that holds them.
- The job log records each call's voice name, text and output path. The body a call sends is `Ssml.RequestBody` of the job's voice name and text.
- Records with missing fields are not modelled, because records always have all four fields. In the program, the queries at Program.cs:49-52 are lazy, so the three cases differ:
  - a missing `locale` or `gender` on a record the query reaches makes `ToLower` throw outside the `try`, which ends the program;
  - a missing `mapping` on a resolved record makes `Regex.Match` throw inside the `try` (Program.cs:104, 110), so every file is reported and the run completes;
  - a missing `language` has no effect, since it is never read.
