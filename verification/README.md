# woodpecker log spec, levels and lazy record — a Dafny model

This project models three parts of the woodpecker logging library:

- **Log levels** (`src/levels.rs`). There are eight ordered levels. Each has a gap-coded `isize` projection, a display name and a place in the `LEVELS` table.
- **The log-spec parser** (`src/parser.rs`). `parse` turns a textual log spec into a `Root`: an optional default level plus ordered per-module overrides. A spec comes in one of two forms:
  - comma-separated `level`, `path` and `path=level` tokens;
  - a JSON document whose `level`, `modules`, `path` and `lines` members it validates.
  Every malformed input maps to one precise `ParseError`.
- **The log record** (`src/record/record.rs`). A record has eager metadata and a memo cell of three parts computed on first use: the rendered message, the formatter's output and the UTC timestamp. A `SyncRecord` holds the format arguments. Converting it to an `AsyncRecord` renders the message once and hands the cell over.

The project has these files:

- `wrappers.dfy`: `Option` and `Result`.
- `ints.dfy`: `u32`, `i32` and `i64` as integer ranges.
- `text.dfy`: the `str` operations the parser uses (`trim`, `split`, `to_uppercase`), and `eq_ignore_ascii_case`, on which the model of level parsing is built.
- `json.dfy`: `serde_json::Value` and its accessors.
- `levels.dfy`: the levels.
- `parser.dfy`: the parser.
- `parser_props.dfy`: whole-spec properties of the token form.
- `parser_examples.dfy` and `parser_json_examples.dfy`: the parser's unit tests, restated as lemmas. Most are first proved for every spec of the test's shape, then for the test's literal.
- `record.dfy`: the record and its cell.
- `record_runs.dfy`: what every answer over a record's life satisfies.

Foreign code is passed in as function-typed fields, so it stays uninterpreted:

- `Parser.Externals` holds `serde_json::from_str` as `decode` and `line_range::prepare_ranges` as `prepare`.
- `Record.Env` holds three functions:
  - `render` for writing `fmt::Arguments`;
  - `toUtc` for chrono's timestamp conversion;
  - `format` for the record's `Formatter`.

The JSON unit tests therefore take the decoded tree as a hypothesis about `decode`. Where a test reaches `prepare_ranges`, its outcome is a hypothesis too.

## Model

| member | source | states |
|---|---|---|
| Levels.ToIsize | src/levels.rs:29-42 | Every code is a multiple of ten in [-30, 40], namely ten times the level's position minus 30 |
| Levels.FromIsize | src/levels.rs:44-59 | Defined exactly on the eight codes (anything else panics); the level it returns encodes back to the code |
| Levels.DecodeEncode | src/levels.rs:29-59 | Encoding a level gives a code, and decoding that code gives the level back |
| Levels.CodesAreTheEncodings | src/levels.rs:44-59 | The accepted integers are exactly the multiples of ten in [-30, 40], and exactly the encodings of levels |
| Levels.EncodingPreservesOrder | src/levels.rs:17-42 | The derived level order agrees with the order of the codes, and distinct levels have distinct codes |
| Levels.LevelsTable | src/levels.rs:61-70 | `LEVELS` has eight entries and holds each level exactly once, at its declaration position |
| Levels.LevelsAscending | src/levels.rs:61-70 | `LEVELS` is strictly ascending in the level order |
| Levels.NameIsUpperAscii | src/levels.rs:72-86 | Every display name is non-empty upper-case ASCII |
| Levels.NamesDistinct | src/levels.rs:72-86 | Two levels share a name, with or without ASCII case, only if they are the same level |
| Levels.FromStr | src/parser.rs:119-125 | Parsing a level from text succeeds exactly on a case-insensitive match of a display name, and returns that name's level |
| Levels.ParseName | src/levels.rs:72-86 | Display then parse is the identity; parsing gives `l` exactly for the spellings of `l`'s name in any ASCII case |
| Levels.ParseUpper | src/parser.rs:204-221 | Upper-casing and then parsing gives `l` exactly when the upper case of the text is `l`'s name |
| Text.TrimIsSlice | src/parser.rs:228 | Trimming removes only whitespace: the result is a slice of the text with nothing but whitespace before and after it |
| Text.TrimEmpty | src/parser.rs:228-231 | Trimming leaves nothing exactly when the text is all whitespace |
| Text.SplitJoin | src/parser.rs:238 | Splitting on a separator recovers the pieces the text was joined from, when no piece holds the separator |
| Text.JoinSplit | src/parser.rs:238 | Joining the pieces of a split restores the text |
| Text.SplitPieces | src/parser.rs:189-212 | The first piece is the text before the first separator; a text without separators is one piece; with one separator the second piece is the rest |
| Text.ToUpperIdempotent | src/parser.rs:206 | Upper-casing an already upper-cased text changes nothing |
| Text.ToUpperFoldsAscii | src/parser.rs:206 | On ASCII characters, upper-casing leaves no lower-case letter and keeps each character's ASCII-lower-case form |
| Parser.WithLevel | src/parser.rs:31-37 | A module built with a level has that level and no line ranges |
| Parser.WithLranges | src/parser.rs:39-45 | A module built with line ranges succeeds exactly when `prepare_ranges` does; it then has no flat level and holds the prepared ranges. On failure, `prepare_ranges`' error is passed on |
| Parser.ParsePair | src/parser.rs:155-170 | A `lines` entry is accepted exactly when it is a two-element array of integers that fit 32 bits; otherwise the error is `Json(LineRange)` |
| Parser.ParsePairs | src/parser.rs:154-171 | All entries are accepted exactly when each one is, and the pairs come out in order, one per entry; any failure is `Json(LineRange)` |
| Parser.ParseLines | src/parser.rs:147-171 | `lines` must be a non-empty array of valid entries; every fault is `Json(LineRange)` |
| Parser.ParseModuleLevel | src/parser.rs:139-145 | A module level is absent (giving TRACE) or a string naming a level; anything else is `Json(ModuleLogLevel)` |
| Parser.ParseModule | src/parser.rs:133-177 | Checks run in order: object with string `path` (else `Module`), then level (else `ModuleLogLevel`), then `lines` (else `LineRange`, including a `prepare_ranges` failure). A module without `lines` is the path at its level (TRACE when absent). One with `lines` is the path with no level and the ranges `prepare_ranges` makes from the module's level and the `lines` pairs in order |
| Parser.FirstInvalid | src/parser.rs:133-178 | Gives the position of the first element that is not a valid module: every element before it is valid, and the one at it is not |
| Parser.ParseModules | src/parser.rs:133-178 | Succeeds exactly when every element is a valid module, giving one module per element in order; otherwise fails with the first invalid element's own error |
| Parser.ParseRootLevel | src/parser.rs:119-125 | The root level is absent or a string naming a level; anything else is `Json(RootLogLevel)` |
| Parser.ParseModulesMember | src/parser.rs:127-179 | `modules` is absent (no modules) or a non-empty array of valid modules, read element by element in order; a non-array or empty array is `Json(Module)`, and otherwise the first invalid element's error is passed on |
| Parser.ParseDocument | src/parser.rs:111-181 | A non-object or empty object is `Json(Root)`; then come the root-level and `modules` errors, in that order. A success carries the named level and, in order, one module per element of `modules` (none when it is absent) |
| Parser.DocumentModuleError | src/parser.rs:127-179 | A document whose root is fine fails only through `modules`, with the first invalid module's error |
| Parser.ParseJson | src/parser.rs:108-110 | Undecodable text is `Json(Json)`; decodable text is validated as its tree |
| Parser.ParseToken | src/parser.rs:184-225 | A token is rejected with `Spec` exactly when it is empty, has more than one `=`, or has an empty key, an empty value or a value naming no level. A bare level sets the root level; a bare non-level adds a TRACE module; `k=level` adds that module |
| Parser.TokenPieces | src/parser.rs:189-212 | The pieces of the split on `=` are the trimmed key and value texts, and their number is one more than the count of `=` |
| Parser.ParseTokens | src/parser.rs:237-242 | The token loop succeeds exactly when no token is invalid (no partial root). The root level is the last one set, and the modules are those the tokens add, in order |
| Parser.Parse | src/parser.rs:227-235 | A blank spec is `Spec`, and a spec whose trimmed text starts with `{` is handed to the JSON path whole |
| Parser.TokenFormParse | src/parser.rs:237-242 | Any other spec succeeds exactly when none of its comma-separated tokens is invalid, else fails with `Spec`. On success the root level is the last one a token sets and the modules are those the tokens add, in order |
| Parser.MeaningOfPieces | src/parser.rs:189-221 | Reading a token through the pieces `split('=')` yields gives the same effect as reading it off its characters |
| ParserProps.LastLevelKeeps | src/parser.rs:204-207 | Tokens that set no root level leave the root level as it was |
| ParserProps.LastLevelWins | src/parser.rs:204-207 | The root level is the level of the last bare-level token: later tokens do not change it |
| ParserProps.AddedModulesAppend | src/parser.rs:237-242 | The modules of a concatenation of tokens are the modules of each part, in order |
| ParserProps.AddedModulesMembers | src/parser.rs:204-222 | A module is in the result exactly when some token adds it |
| ParserProps.TokenModulesFlat | src/parser.rs:204-222 | Every module of a token-form spec has a level and no line ranges |
| ParserProps.TokenRootLevel | src/parser.rs:227-243 | A token-form spec's root level is that of its last bare-level token |
| ParserProps.TokenNoRootLevel | src/parser.rs:227-243 | A token-form spec without bare-level tokens leaves the root level unset |
| ParserExamples.BareLevelToken | src/parser.rs:204-207 | A level spelling in any case, as a token, sets the root level |
| ParserExamples.BareModuleToken | src/parser.rs:208-210 | A plain non-level word, as a token, adds that path at TRACE |
| ParserExamples.KeyLevelToken | src/parser.rs:211-218 | `path=level` adds that path at that level |
| ParserExamples.KeyNonLevelToken | src/parser.rs:217-221 | `path=word`, with a word that is no level, is invalid |
| ParserExamples.EmptyValueToken | src/parser.rs:212-215 | `path=` is invalid |
| ParserExamples.LeadingEqualsToken | src/parser.rs:199-202 | A token that starts with `=` has an empty key and is invalid |
| ParserExamples.BlankToken | src/parser.rs:184-202 | An empty or blank token is invalid |
| ParserExamples.BlankSpec | src/parser.rs:228-231 | An all-whitespace spec is `Spec` |
| ParserExamples.ParseRejects | src/parser.rs:238-240 | One invalid token anywhere makes the whole spec `Spec` |
| ParserExamples.BareLevelSpec | src/parser.rs:204-207 | A spec that is one level spelling sets the root level and adds no module |
| ParserExamples.BareModuleSpec | src/parser.rs:208-210 | A spec that is one plain non-level word yields one TRACE module and no root level |
| ParserExamples.KeyLevelSpec | src/parser.rs:217-218 | A `path=level` spec yields exactly that module and no root level |
| ParserExamples.KeyNonLevelSpec | src/parser.rs:219-221 | A `path=word` spec, with a word that is no level, is `Spec` |
| ParserExamples.EmptyValueSpec | src/parser.rs:212-215 | A `path=` spec is `Spec` |
| ParserExamples.LeadingEqualsSpec | src/parser.rs:199-202 | A spec whose first non-blank character is `=` is `Spec` |
| ParserExamples.BlankTokenSpec | src/parser.rs:184-202 | A spec with a blank token before, between or after commas is `Spec` |
| ParserExamples.SpecInvalidBlank | src/parser.rs:251 | `""` is `Spec` |
| ParserExamples.SpecInvalidComma | src/parser.rs:252 | `","` is `Spec` |
| ParserExamples.SpecInvalidEquals | src/parser.rs:253 | `"="` is `Spec` |
| ParserExamples.SpecInvalidEmptyValue | src/parser.rs:254 | `"foo="` is `Spec` |
| ParserExamples.SpecInvalidEmptyKey | src/parser.rs:255 | `"=error"` is `Spec` |
| ParserExamples.SpecInvalidTrailingComma | src/parser.rs:256 | `"foo,"` is `Spec` |
| ParserExamples.SpecInvalidLeadingComma | src/parser.rs:257 | `",foo"` is `Spec` |
| ParserExamples.SpecInvalidValue | src/parser.rs:258 | `"foo=bar"` is `Spec` |
| ParserExamples.SpecGlobal | src/parser.rs:262-265 | `"error"` sets the root level to ERROR |
| ParserExamples.SpecModuleLevel | src/parser.rs:268-271 | `"foo=error"` yields module foo at ERROR |
| ParserExamples.SpecModuleBare | src/parser.rs:273-275 | `"foo"` yields module foo at TRACE |
| ParserExamples.SpecCombined | src/parser.rs:279-285 | `"critical,foo,bar,qux=error"` yields root CRITICAL and modules foo at TRACE, bar at TRACE and qux at ERROR, in that order |
| ParserJsonExamples.JsonSpec | src/parser.rs:233-235 | A `{`-led spec is validated as the tree it decodes to |
| ParserJsonExamples.UndecodableSpec | src/parser.rs:108-110 | A `{`-led spec that does not decode is `Json(Json)` |
| ParserJsonExamples.OneModuleDocument | src/parser.rs:127-178 | A document whose only member is a one-module array fails with that module's error |
| ParserJsonExamples.BadLinesModule | src/parser.rs:147-171 | A module with malformed `lines` is `Json(LineRange)` |
| ParserJsonExamples.BadRootLevelDocument | src/parser.rs:119-125 | A root level naming no level is `Json(RootLogLevel)` |
| ParserJsonExamples.BadModuleLevel | src/parser.rs:139-142 | A module level naming no level is `Json(ModuleLogLevel)` |
| ParserJsonExamples.PathOnlyModule | src/parser.rs:136-145 | A module with only a path is that path at TRACE |
| ParserJsonExamples.RangedModule | src/parser.rs:139-173 | A module with path, level and valid lines is the ranged module built with that level |
| ParserJsonExamples.SpecJsonUndecodable | src/parser.rs:316 | `{` is `Json(Json)` |
| ParserJsonExamples.SpecJsonEmptyRoot | src/parser.rs:318-319 | `{}` is `Json(Root)` |
| ParserJsonExamples.SpecJsonRootLevel | src/parser.rs:321-322 | `{"level": "foo"}` is `Json(RootLogLevel)` |
| ParserJsonExamples.SpecJsonModulesObject | src/parser.rs:324-325 | `modules` as an object is `Json(Module)` |
| ParserJsonExamples.SpecJsonModulesEmpty | src/parser.rs:326-327 | `modules` as an empty array is `Json(Module)` |
| ParserJsonExamples.SpecJsonModuleNoPath | src/parser.rs:328-329 | A module without a path is `Json(Module)` |
| ParserJsonExamples.SpecJsonModuleLevel | src/parser.rs:331-332 | A module level `foo` is `Json(ModuleLogLevel)` |
| ParserJsonExamples.SpecJsonBadLines | src/parser.rs:334-343 | Each of the five malformed `lines` values is `Json(LineRange)` |
| ParserJsonExamples.SpecJsonInvertedLines | src/parser.rs:344-345 | `[[10, 1]]` is `Json(LineRange)` when `prepare_ranges` rejects an inverted range |
| ParserJsonExamples.SpecJson | src/parser.rs:288-311 | The test document yields root CRITICAL with foo at TRACE, bar at TRACE, and bar over (10, 100) and (120, 130) at ERROR, in order |
| Record.NewCell | src/record/record.rs:64-72 | A fresh cell holds no message, formatted text or UTC time |
| Record.MkMsg | src/record/record.rs:74-80 | Afterwards a message is present: the one already there, else the rendered arguments. The other parts are untouched |
| Record.MkMsgIdempotent | src/record/record.rs:74-80 | Making the message twice is making it once |
| Record.NsecAsU32 | src/record/record.rs:84 | The `as u32` cast keeps non-negative nanoseconds and maps negative ones to 2^32 more (two's complement) |
| Record.MkTsUtc | src/record/record.rs:82-87 | Afterwards a UTC time is present: the one already there, else the converted timestamp. The other parts are untouched |
| Record.MkTsUtcIdempotent | src/record/record.rs:82-87 | Converting twice is converting once |
| Record.MkTsUtcReadsOnlyTs | src/record/record.rs:82-87 | The conversion depends on the record's timestamp only |
| Record.LazyMsg | src/record/record.rs:104-109 | The message is present afterwards and equals the returned value: the stored one if present, else the rendered arguments |
| Record.LazyFormatted | src/record/record.rs:111-128 | Absent: the formatter's output is stored and returned. Present: the stored text is returned and the cell is unchanged. Either way the text is stored and the other parts are untouched |
| Record.LazyTsUtc | src/record/record.rs:130-135 | The UTC time is present afterwards and equals the returned value |
| Record.SyncNew | src/record/record.rs:152-160 | A new record is sync, keeps its arguments and has a fresh cell |
| Record.NewGetters | src/record/record.rs:164-187 | The eager getters of a new record return the level, module, file, line and timestamp it was created with |
| Record.Msg | src/record/record.rs:189-191 | A sync record's message goes through its cell. An async record returns its own message and leaves the cell alone (lines 237-239) |
| Record.Formatted | src/record/record.rs:193-195 | Formats through the cell; only the cell's formatted part can change |
| Record.TsUtc | src/record/record.rs:197-199 | Converts through the cell; only the cell's UTC part can change |
| Record.ToAsync | src/record/record.rs:250-260 | Conversion keeps the metadata and the cell and renders the arguments into the message |
| Record.NewIsConsistent | src/record/record.rs:152-160 | A new record's cell agrees with the record |
| Record.MsgAnswer | src/record/record.rs:189-191 | On a consistent record, `msg` answers the record's message and keeps the record consistent |
| Record.TsUtcAnswer | src/record/record.rs:197-199 | On a consistent record, `ts_utc` answers the converted timestamp |
| Record.FormattedConsistent | src/record/record.rs:193-195 | Formatting keeps a consistent record consistent |
| Record.FormattedTwice | src/record/record.rs:111-128 | Formatting twice gives the same text and leaves the record as the first call did |
| Record.ToAsyncKeepsRecord | src/record/record.rs:250-260 | The async record answers `msg` as the sync one would and has the same getters. A formatted text or UTC time already stored carries over unchanged |
| RecordRuns.Step | src/record/record.rs:104-135 | Each call keeps the metadata and never drops or changes a stored part; `formatted` leaves its answer stored |
| RecordRuns.Run | src/record/record.rs:58-260 | Over any run of calls, the metadata is unchanged and the cell only grows |
| RecordRuns.RunKeepsGetters | src/record/record.rs:164-235 | After any calls the eager getters answer as before |
| RecordRuns.RunConsistent | src/record/record.rs:58-260 | Every call, including the conversion, keeps the cell consistent with the record and keeps the record's message |
| RecordRuns.RunMessages | src/record/record.rs:189-191 | Every `msg` of a run, before or after the conversion, answers the starting record's message |
| RecordRuns.RunTimes | src/record/record.rs:197-199 | Every `ts_utc` of a run answers the converted timestamp |
| RecordRuns.RunFormattedStored | src/record/record.rs:111-128 | Every `formatted` of a run answers the text stored in the cell at its end |
| RecordRuns.RunFormattedAgree | src/record/record.rs:111-128 | Any two `formatted` calls of a run answer the same text, across a conversion too |
| RecordRuns.RunFormattedKeepsStored | src/record/record.rs:111-128 | A formatted text already stored is what every later `formatted` answers |
| RecordRuns.FreshRun | src/record/record.rs:152-160 | From a new record, every `msg` answers the rendered arguments and every `ts_utc` the converted timestamp |

## Left out

- Locking and sharing. `Mutex` and `Arc` are not modelled, and each accessor is one sequential transition. No exactly-once claim about the formatter is made under concurrency: `RecordLazyMeta::formatted` releases the lock between its absence check and its store (src/record/record.rs:112-121).
- Record.Formatted: the formatter is a pure function of the record as it stands. A real formatter may call `msg()` or `ts_utc()` on the record and fill those parts of the cell while it runs; the model does not track that.
- Record.MkMsg: `render` is total. `write_fmt(..).unwrap()` panics when a `Display` implementation inside the arguments returns `fmt::Error` (src/record/record.rs:77, 254), and that panic is not modelled.
- Record.ToAsync: `render` is total, as for Record.MkMsg; the panic of `write_fmt(..).unwrap()` in the conversion (src/record/record.rs:254) is not modelled.
- Record.MkTsUtc: `toUtc` is total. chrono's `from_timestamp` panics on an out-of-range timestamp, and that panic is not modelled.
- Levels.FromIsize: the panic on an integer that is not a code is modelled as a precondition.
- Levels.FromStr: `FromStr for LogLevel` is not part of this model. Parsing is modelled as an ASCII case-insensitive match against the display names. That choice rests on how the parser uses it. The token form upper-cases before parsing (src/parser.rs:206, 217). The JSON form parses the string as given (src/parser.rs:122, 141), and the JSON unit test expects the lower-case `"critical"` and `"error"` to parse (src/parser.rs:294-311).
- Text.ToUpper: only `a`..`z`, U+0131 and U+017F are mapped, and every other character is kept, so the length never changes. `str::to_uppercase` also expands ß, the ligatures and some other characters into several letters. None of those expansions (SS, FF, FI, FL, FFI, FFL, ST) occurs inside a level name, so no such spelling parses as a level either way. The model still differs from `str::to_uppercase` in the upper-cased text itself.
- `prepare_ranges` and `LineRangeSpec`: the `line_range` module is not part of this model. `LineRangeSpec` is assumed to hold a start, an end and a level, and the parser only stores what `prepare` returns.
- `serde_json::from_str` is uninterpreted; the JSON tests state the decoded tree as a hypothesis.
- The `k.is_none()` check (src/parser.rs:196-198) cannot fire, because `split` always yields a first piece; it is not modelled as a separate branch.
- `ParseError::LogLevel` and `ParseError::LineRange(String)` are declared, but `parse` never returns them; they appear only in the datatype.
- The derived `PartialEq`/`PartialOrd` on `Module`, `Root` and the errors, `Clone`/`Debug`, and the test-only builders `Root::with_level` and `Root::module` are datatype equality and constructors here.
- Timestamps, dates and format arguments are opaque: `Timespec` holds `i64` seconds and `i32` nanoseconds, `UtcTime` and `Args` are only carried around, and chrono's calendar arithmetic is not modelled.
- `benches/benches.rs` and `src/macros/helpers.rs` are not modelled: they hold benchmarks and macro helpers, not parser, level or record logic.
