/** The log-spec parser: the configuration tree (`Root`, `Module`), its two
    textual encodings (comma-separated tokens and a JSON document) and the
    precise error each malformed input yields. */
module Parser {
  import opened Wrappers
  import Text
  import opened Levels
  import opened JsonValue
  import opened Ints

  /** One normalized range of `line_range::LineRangeSpec`, the output of
      `prepare_ranges`. Its shape is an assumption: the `line_range` module is
      not part of this model, and the parser only stores what it is given. */
  datatype LineRangeSpec = LineRangeSpec(from: U32, to: U32, level: LogLevel)

  /** A per-module override: a path with either a flat level or a list of
      line ranges. */
  datatype Module = Module(path: string, level: Option<LogLevel>, lranges: Option<seq<LineRangeSpec>>)
  {
    /** Exactly one of the two policies is present. */
    predicate Shaped() {
      level.Some? != lranges.Some?
    }

    /** A flat-level override, as the token form produces. */
    predicate Flat() {
      level.Some? && lranges.None?
    }
  }

  /** The parsed configuration: an optional default level and the ordered
      module overrides. */
  datatype Root = Root(level: Option<LogLevel>, modules: seq<Module>)

  /** `Root::new`. */
  const EmptyRoot: Root := Root.Root(None, [])

  /** Where in a JSON document validation failed. */
  datatype JsonError = Json | Root | Module | RootLogLevel | ModuleLogLevel | LineRange

  /** Why a log spec was rejected. `LogLevel` and `LineRange` are part of the
      public error type but `parse` never produces them. */
  datatype ParseError = Spec | LogLevel | LineRange(msg: string) | Json(kind: JsonError)

  /** The foreign functions the parser calls: `serde_json::from_str`
      restricted to `Value` (failing with `None`) and
      `line_range::prepare_ranges`. Both are left uninterpreted. */
  datatype Externals = Externals(
    decode: string -> Option<Value>,
    prepare: (LogLevel, seq<(U32, U32)>) -> Result<seq<LineRangeSpec>, string>)

  /** `Module::with_level`. */
  function WithLevel(path: string, level: LogLevel): (m: Module)
    ensures m.Flat() && m.Shaped()
    ensures m.path == path && m.level == Some(level)
  {
    Module.Module(path, Some(level), None)
  }

  /** `Module::with_lranges`: the ranges are handed to `prepare_ranges` with
      the module's level, and its failure is passed on. */
  function WithLranges(path: string, level: LogLevel, ranges: seq<(U32, U32)>,
                       prepare: (LogLevel, seq<(U32, U32)>) -> Result<seq<LineRangeSpec>, string>)
    : (r: Result<Module, string>)
    ensures r.Ok? <==> prepare(level, ranges).Ok?
    ensures r.Err? ==> r.error == prepare(level, ranges).error
    ensures r.Ok? ==> r.value.Shaped() && r.value.level.None? && r.value.path == path
                      && r.value.lranges == Some(prepare(level, ranges).value)
  {
    var lranges :- prepare(level, ranges);
    Ok(Module.Module(path, None, Some(lranges)))
  }

  function JsonErr<T>(kind: JsonError): Result<T, ParseError>
  {
    Err(ParseError.Json(kind))
  }

  // ---------------------------------------------------------------------
  // The JSON document form.
  // ---------------------------------------------------------------------

  /** The level a JSON value names: a string that parses as a level. */
  function LevelText(v: Value): Option<LogLevel>
  {
    if v.Str? then FromStr(v.s) else None
  }

  /** A `[from, to]` entry of `lines`: a two-element array of unsigned
      integers that each fit 32 bits. */
  predicate ValidPair(v: Value)
  {
    && v.Array? && |v.items| == 2
    && AsU64(v.items[0]).Some? && AsU64(v.items[0]).value <= U32_MAX
    && AsU64(v.items[1]).Some? && AsU64(v.items[1]).value <= U32_MAX
  }

  function PairOf(v: Value): (U32, U32)
    requires ValidPair(v)
  {
    (v.items[0].n.i, v.items[1].n.i)
  }

  /** Reads one `[from, to]` entry, in the order `parse_json` checks it. */
  function ParsePair(v: Value): (r: Result<(U32, U32), ParseError>)
    ensures r.Ok? <==> ValidPair(v)
    ensures r.Ok? ==> r.value == PairOf(v)
    ensures r.Err? ==> r.error == ParseError.Json(JsonError.LineRange)
  {
    var line :- AsArray(v).OkOr(ParseError.Json(JsonError.LineRange));
    if |line| != 2 then JsonErr(JsonError.LineRange)
    else
      var from :- AsU64(line[0]).OkOr(ParseError.Json(JsonError.LineRange));
      if from > U32_MAX then JsonErr(JsonError.LineRange)
      else
        var to :- AsU64(line[1]).OkOr(ParseError.Json(JsonError.LineRange));
        if to > U32_MAX then JsonErr(JsonError.LineRange)
        else Ok((from as U32, to as U32))
  }

  /** Reads every entry of a `lines` array, stopping at the first bad one. */
  function ParsePairs(lines: seq<Value>): (r: Result<seq<(U32, U32)>, ParseError>)
    ensures r.Ok? <==> forall i :: 0 <= i < |lines| ==> ValidPair(lines[i])
    ensures r.Ok? ==> |r.value| == |lines| && forall i :: 0 <= i < |lines| ==> r.value[i] == PairOf(lines[i])
    ensures r.Err? ==> r.error == ParseError.Json(JsonError.LineRange)
  {
    if |lines| == 0 then Ok([])
    else
      var head :- ParsePair(lines[0]);
      var tail :- ParsePairs(lines[1..]);
      assert forall i :: 1 <= i < |lines| ==> lines[i] == lines[1..][i - 1];
      Ok([head] + tail)
  }

  /** The `lines` member of a module object: a non-empty array of pairs. */
  function ParseLines(v: Value): (r: Result<seq<(U32, U32)>, ParseError>)
    ensures r.Ok? <==> v.Array? && |v.items| > 0 && forall i :: 0 <= i < |v.items| ==> ValidPair(v.items[i])
    ensures r.Ok? ==> |r.value| == |v.items| && forall i :: 0 <= i < |v.items| ==> r.value[i] == PairOf(v.items[i])
    ensures r.Err? ==> r.error == ParseError.Json(JsonError.LineRange)
  {
    var lines :- AsArray(v).OkOr(ParseError.Json(JsonError.LineRange));
    if |lines| == 0 then JsonErr(JsonError.LineRange)
    else ParsePairs(lines)
  }

  /** The `path` member of a module object is present and a string. */
  predicate HasPath(fields: map<string, Value>)
  {
    "path" in fields && fields["path"].Str?
  }

  /** The `level` member of a module object is absent or names a level. */
  predicate ModuleLevelOk(fields: map<string, Value>)
  {
    "level" !in fields || LevelText(fields["level"]).Some?
  }

  /** The level a well-formed module object declares; TRACE when absent. */
  function DeclaredLevel(fields: map<string, Value>): LogLevel
    requires ModuleLevelOk(fields)
  {
    if "level" in fields then LevelText(fields["level"]).value else TRACE
  }

  /** Reads the `level` member of a module object, defaulting to TRACE. */
  function ParseModuleLevel(fields: map<string, Value>): (r: Result<LogLevel, ParseError>)
    ensures r.Ok? <==> ModuleLevelOk(fields)
    ensures r.Ok? ==> r.value == DeclaredLevel(fields)
    ensures r.Err? ==> r.error == ParseError.Json(JsonError.ModuleLogLevel)
  {
    match Get(fields, "level")
    case None => Ok(TRACE)
    case Some(level) =>
      var text :- AsStr(level).OkOr(ParseError.Json(JsonError.ModuleLogLevel));
      FromStr(text).OkOr(ParseError.Json(JsonError.ModuleLogLevel))
  }

  /** One element of `modules`, in the order `parse_json` checks it: the
      object, its `path`, its `level`, then its `lines`. */
  function ParseModule(v: Value, prepare: (LogLevel, seq<(U32, U32)>) -> Result<seq<LineRangeSpec>, string>)
    : (r: Result<Module, ParseError>)
    ensures !v.Object? || !HasPath(v.fields) ==> r == JsonErr(JsonError.Module)
    ensures v.Object? && HasPath(v.fields) && !ModuleLevelOk(v.fields)
            ==> r == JsonErr(JsonError.ModuleLogLevel)
    ensures v.Object? && HasPath(v.fields) && ModuleLevelOk(v.fields) && "lines" !in v.fields
            ==> r == Ok(WithLevel(v.fields["path"].s, DeclaredLevel(v.fields)))
    ensures v.Object? && HasPath(v.fields) && ModuleLevelOk(v.fields) && "lines" in v.fields
            ==> r == (var ranges := ParseLines(v.fields["lines"]);
                      if ranges.Ok? && prepare(DeclaredLevel(v.fields), ranges.value).Ok?
                      then Ok(Module.Module(v.fields["path"].s, None,
                                            Some(prepare(DeclaredLevel(v.fields), ranges.value).value)))
                      else JsonErr(JsonError.LineRange))
    ensures r.Ok? ==> r.value.Shaped() && r.value.path == v.fields["path"].s
                      && (r.value.lranges.Some? <==> "lines" in v.fields)
  {
    var fields :- AsObject(v).OkOr(ParseError.Json(JsonError.Module));
    var pathValue :- Get(fields, "path").OkOr(ParseError.Json(JsonError.Module));
    var path :- AsStr(pathValue).OkOr(ParseError.Json(JsonError.Module));
    var level :- ParseModuleLevel(fields);
    match Get(fields, "lines")
    case Some(lines) =>
      var ranges :- ParseLines(lines);
      (match WithLranges(path, level, ranges, prepare)
       case Ok(m) => Ok(m)
       case Err(_) => JsonErr(JsonError.LineRange))
    case None => Ok(WithLevel(path, level))
  }

  /** The position of the first element of `items` that is not a valid
      module; `|items|` when there is none. */
  function FirstInvalid(items: seq<Value>, prepare: (LogLevel, seq<(U32, U32)>) -> Result<seq<LineRangeSpec>, string>)
    : (i: nat)
    ensures i <= |items|
    ensures forall j :: 0 <= j < i ==> ParseModule(items[j], prepare).Ok?
    ensures i < |items| ==> ParseModule(items[i], prepare).Err?
  {
    if |items| == 0 || ParseModule(items[0], prepare).Err? then 0
    else
      var i := FirstInvalid(items[1..], prepare);
      assert forall j :: 1 <= j < |items| ==> items[j] == items[1..][j - 1];
      1 + i
  }

  /** Every element of `modules`, in order, stopping at the first bad one. */
  function ParseModules(items: seq<Value>, prepare: (LogLevel, seq<(U32, U32)>) -> Result<seq<LineRangeSpec>, string>)
    : (r: Result<seq<Module>, ParseError>)
    ensures r.Ok? <==> forall i :: 0 <= i < |items| ==> ParseModule(items[i], prepare).Ok?
    ensures r.Ok? ==> |r.value| == |items|
                      && forall i :: 0 <= i < |items| ==> r.value[i] == ParseModule(items[i], prepare).value
    ensures r.Err? ==> FirstInvalid(items, prepare) < |items|
                       && Err(r.error) == ParseModule(items[FirstInvalid(items, prepare)], prepare)
  {
    if |items| == 0 then Ok([])
    else
      var head :- ParseModule(items[0], prepare);
      var tail :- ParseModules(items[1..], prepare);
      assert forall i :: 1 <= i < |items| ==> items[i] == items[1..][i - 1];
      Ok([head] + tail)
  }

  /** `e` is the error `modules` fails with: the member is not a non-empty
      array (a `Module` error), or `e` is the error of its first invalid
      element. */
  predicate FirstModuleError(modules: Value, prepare: (LogLevel, seq<(U32, U32)>) -> Result<seq<LineRangeSpec>, string>,
                             e: ParseError)
  {
    if !modules.Array? || |modules.items| == 0 then e == ParseError.Json(JsonError.Module)
    else FirstInvalid(modules.items, prepare) < |modules.items|
         && ParseModule(modules.items[FirstInvalid(modules.items, prepare)], prepare) == Err(e)
  }

  /** The root `level` member is absent or names a level. */
  predicate RootLevelOk(fields: map<string, Value>)
  {
    "level" !in fields || LevelText(fields["level"]).Some?
  }

  /** The root `modules` member is absent or a non-empty array whose every
      element is a valid module. */
  predicate ModulesOk(fields: map<string, Value>, prepare: (LogLevel, seq<(U32, U32)>) -> Result<seq<LineRangeSpec>, string>)
  {
    "modules" !in fields
    || (&& fields["modules"].Array?
        && |fields["modules"].items| > 0
        && forall i :: 0 <= i < |fields["modules"].items| ==> ParseModule(fields["modules"].items[i], prepare).Ok?)
  }

  /** `parse_json` after decoding: validates the document tree into a `Root`. */
  function ParseDocument(doc: Value, prepare: (LogLevel, seq<(U32, U32)>) -> Result<seq<LineRangeSpec>, string>)
    : (r: Result<Root, ParseError>)
    ensures !doc.Object? || |doc.fields| == 0 ==> r == JsonErr(JsonError.Root)
    ensures doc.Object? && |doc.fields| > 0 && !RootLevelOk(doc.fields) ==> r == JsonErr(JsonError.RootLogLevel)
    ensures doc.Object? && |doc.fields| > 0 && RootLevelOk(doc.fields) && "modules" in doc.fields
            && (!doc.fields["modules"].Array? || |doc.fields["modules"].items| == 0)
            ==> r == JsonErr(JsonError.Module)
    ensures r.Ok? <==> doc.Object? && |doc.fields| > 0 && RootLevelOk(doc.fields) && ModulesOk(doc.fields, prepare)
    ensures r.Ok? ==> r.value.level == (if "level" in doc.fields then LevelText(doc.fields["level"]) else None)
    ensures r.Ok? ==> ("modules" in doc.fields <==> |r.value.modules| > 0)
    ensures r.Ok? ==> forall i :: 0 <= i < |r.value.modules| ==> r.value.modules[i].Shaped()
    ensures r.Ok? ==> r.value.modules == (if "modules" in doc.fields
                                          then ParseModules(doc.fields["modules"].items, prepare).value
                                          else [])
  {
    var fields :- AsObject(doc).OkOr(ParseError.Json(JsonError.Root));
    if |fields| == 0 then JsonErr(JsonError.Root)
    else
      var level :- ParseRootLevel(fields);
      var modules :- ParseModulesMember(fields, prepare);
      Ok(Root.Root(level, modules))
  }

  /** Once the root and its `level` are fine, a document fails only where
      its `modules` member does: not a non-empty array, or the first
      invalid element, whose own error is passed on unchanged. */
  lemma DocumentModuleError(doc: Value, prepare: (LogLevel, seq<(U32, U32)>) -> Result<seq<LineRangeSpec>, string>)
    requires doc.Object? && |doc.fields| > 0 && RootLevelOk(doc.fields)
    requires ParseDocument(doc, prepare).Err?
    ensures "modules" in doc.fields
    ensures FirstModuleError(doc.fields["modules"], prepare, ParseDocument(doc, prepare).error)
  { }

  function ParseRootLevel(fields: map<string, Value>): (r: Result<Option<LogLevel>, ParseError>)
    ensures r.Ok? <==> RootLevelOk(fields)
    ensures r.Ok? ==> r.value == (if "level" in fields then LevelText(fields["level"]) else None)
    ensures r.Err? ==> r.error == ParseError.Json(JsonError.RootLogLevel)
  {
    match Get(fields, "level")
    case None => Ok(None)
    case Some(level) =>
      var text :- AsStr(level).OkOr(ParseError.Json(JsonError.RootLogLevel));
      var l :- FromStr(text).OkOr(ParseError.Json(JsonError.RootLogLevel));
      Ok(Some(l))
  }

  function ParseModulesMember(fields: map<string, Value>, prepare: (LogLevel, seq<(U32, U32)>) -> Result<seq<LineRangeSpec>, string>)
    : (r: Result<seq<Module>, ParseError>)
    ensures r.Ok? <==> ModulesOk(fields, prepare)
    ensures "modules" in fields && (!fields["modules"].Array? || |fields["modules"].items| == 0)
            ==> r == JsonErr(JsonError.Module)
    ensures r.Ok? ==> ("modules" in fields <==> |r.value| > 0)
    ensures r.Ok? ==> forall i :: 0 <= i < |r.value| ==> r.value[i].Shaped()
    ensures "modules" in fields && r.Err? ==> FirstModuleError(fields["modules"], prepare, r.error)
    ensures r.Ok? && "modules" in fields ==> r == ParseModules(fields["modules"].items, prepare)
  {
    match Get(fields, "modules")
    case None => Ok([])
    case Some(modules) =>
      var items :- AsArray(modules).OkOr(ParseError.Json(JsonError.Module));
      if |items| == 0 then JsonErr(JsonError.Module)
      else ParseModules(items, prepare)
  }

  /** `parse_json`: decode the text, then validate the tree. */
  function ParseJson(text: string, ext: Externals): (r: Result<Root, ParseError>)
    ensures ext.decode(text).None? ==> r == JsonErr(JsonError.Json)
    ensures ext.decode(text).Some? ==> r == ParseDocument(ext.decode(text).value, ext.prepare)
  {
    var doc :- ext.decode(text).OkOr(ParseError.Json(JsonError.Json));
    ParseDocument(doc, ext.prepare)
  }

  // ---------------------------------------------------------------------
  // The comma-separated token form.
  // ---------------------------------------------------------------------

  /** What one token contributes to the configuration. */
  datatype Effect = SetsRootLevel(l: LogLevel) | AddsModule(m: Module) | Invalid

  /** The trimmed text before the first `=` (the whole token if none). */
  function KeyText(token: string): string
  {
    Text.Trim(token[..Text.IndexOf(token, '=')])
  }

  /** The trimmed text after the first `=`. */
  function ValueText(token: string): string
    requires '=' in token
  {
    Text.Trim(token[Text.IndexOf(token, '=') + 1..])
  }

  /** The meaning of a token, read off its characters: at most one `=`, a
      non-empty key, and when there is a `=`, a non-empty value naming a
      level. A bare key names the root level if it is one, a module at
      TRACE otherwise. */
  function Meaning(token: string): Effect
  {
    if token == [] || Text.Count(token, '=') > 1 || KeyText(token) == [] then Invalid
    else if '=' !in token then
      match FromUpperStr(KeyText(token))
      case Some(l) => SetsRootLevel(l)
      case None => AddsModule(WithLevel(KeyText(token), TRACE))
    else if ValueText(token) == [] then Invalid
    else
      match FromUpperStr(ValueText(token))
      case Some(l) => AddsModule(WithLevel(KeyText(token), l))
      case None => Invalid
  }

  /** `parse_token`: splits on `=`, trims key and value, and updates the root. */
  function ParseToken(root: Root, token: string): (r: Result<Root, ParseError>)
    ensures r.Err? <==> Meaning(token) == Invalid
    ensures r.Err? ==> r.error == ParseError.Spec
    ensures Meaning(token).SetsRootLevel? ==> r == Ok(root.(level := Some(Meaning(token).l)))
    ensures Meaning(token).AddsModule? ==> r == Ok(root.(modules := root.modules + [Meaning(token).m]))
  {
    if token == [] then Err(ParseError.Spec)
    else
      var kv := Text.Split(token, '=');
      MeaningOfPieces(token);
      if |kv| > 2 then Err(ParseError.Spec)
      else
        var k := Text.Trim(kv[0]);
        if k == [] then Err(ParseError.Spec)
        else if |kv| == 1 then
          match FromUpperStr(k)
          case Some(level) => Ok(root.(level := Some(level)))
          case None => Ok(root.(modules := root.modules + [WithLevel(k, TRACE)]))
        else
          var v := Text.Trim(kv[1]);
          if v == [] then Err(ParseError.Spec)
          else
            match FromUpperStr(v)
            case Some(level) => Ok(root.(modules := root.modules + [WithLevel(k, level)]))
            case None => Err(ParseError.Spec)
  }

  /** The meaning of the pieces `split('=')` yields, read the way
      `parse_token` reads them: a third piece, an empty key, or an empty or
      unknown value make the token invalid. */
  function PiecesMeaning(kv: seq<string>): Effect
    requires |kv| > 0
  {
    if |kv| > 2 || Text.Trim(kv[0]) == [] then Invalid
    else if |kv| == 1 then
      match FromUpperStr(Text.Trim(kv[0]))
      case Some(l) => SetsRootLevel(l)
      case None => AddsModule(WithLevel(Text.Trim(kv[0]), TRACE))
    else if Text.Trim(kv[1]) == [] then Invalid
    else
      match FromUpperStr(Text.Trim(kv[1]))
      case Some(l) => AddsModule(WithLevel(Text.Trim(kv[0]), l))
      case None => Invalid
  }

  /** Reading a non-empty token through its pieces gives its meaning. */
  lemma MeaningOfPieces(token: string)
    requires token != []
    ensures Meaning(token) == PiecesMeaning(Text.Split(token, '='))
  {
    TokenPieces(token);
  }

  /** The pieces `split('=')` yields are the key and value texts. */
  lemma TokenPieces(token: string)
    ensures |Text.Split(token, '=')| == Text.Count(token, '=') + 1
    ensures Text.Trim(Text.Split(token, '=')[0]) == KeyText(token)
    ensures '=' !in token <==> |Text.Split(token, '=')| == 1
    ensures Text.Count(token, '=') == 1 ==> Text.Trim(Text.Split(token, '=')[1]) == ValueText(token)
  {
    Text.SplitPieces(token, '=');
    Text.CountZero(token, '=');
  }

  /** The meanings of a run of tokens, in order. */
  function Effects(tokens: seq<string>): (es: seq<Effect>)
    ensures |es| == |tokens|
    ensures forall i :: 0 <= i < |tokens| ==> es[i] == Meaning(tokens[i])
    decreases |tokens|
  {
    if |tokens| == 0 then []
    else
      var rest := Effects(tokens[1..]);
      assert forall i :: 1 <= i < |tokens| ==> tokens[1..][i - 1] == tokens[i];
      [Meaning(tokens[0])] + rest
  }

  /** The modules a run of effects appends, in order. */
  function AddedModules(es: seq<Effect>): seq<Module>
  {
    if |es| == 0 then []
    else (if es[0].AddsModule? then [es[0].m] else []) + AddedModules(es[1..])
  }

  /** The root level after a run of effects: the last bare level wins. */
  function LastLevel(es: seq<Effect>, initial: Option<LogLevel>): Option<LogLevel>
  {
    if |es| == 0 then initial
    else LastLevel(es[1..], if es[0].SetsRootLevel? then Some(es[0].l) else initial)
  }

  /** The loop of `parse` over the tokens, stopping at the first bad one. */
  function ParseTokens(root: Root, tokens: seq<string>): (r: Result<Root, ParseError>)
    ensures r.Ok? <==> Invalid !in Effects(tokens)
    ensures r.Err? ==> r.error == ParseError.Spec
    ensures r.Ok? ==> r.value == Root.Root(LastLevel(Effects(tokens), root.level),
                                           root.modules + AddedModules(Effects(tokens)))
    decreases |tokens|
  {
    if |tokens| == 0 then Ok(root)
    else
      var next :- ParseToken(root, tokens[0]);
      var r := ParseTokens(next, tokens[1..]);
      TokensStep(root, next, Meaning(tokens[0]), Effects(tokens[1..]));
      r
  }

  /** One step of the token loop, in terms of the first token's effect. */
  lemma TokensStep(root: Root, next: Root, e: Effect, es: seq<Effect>)
    requires e != Invalid
    requires e.SetsRootLevel? ==> next == root.(level := Some(e.l))
    requires e.AddsModule? ==> next == root.(modules := root.modules + [e.m])
    ensures Invalid in [e] + es <==> Invalid in es
    ensures LastLevel([e] + es, root.level) == LastLevel(es, next.level)
    ensures root.modules + AddedModules([e] + es) == next.modules + AddedModules(es)
  {
    assert ([e] + es)[1..] == es;
    if e.AddsModule? {
      assert AddedModules([e] + es) == [e.m] + AddedModules(es);
    }
  }

  /** Whether `parse` takes the token path: non-blank and not `{`-led. */
  predicate IsTokenForm(spec: string)
  {
    Text.Trim(spec) != [] && Text.Trim(spec)[0] != '{'
  }

  /** The tokens of a token-form spec. */
  function Tokens(spec: string): seq<string>
  {
    Text.Split(Text.Trim(spec), ',')
  }

  /** `parse`: a blank spec is rejected, a `{`-led one is a JSON document,
      anything else is a comma-separated token list. */
  function Parse(spec: string, ext: Externals): (r: Result<Root, ParseError>)
    ensures Text.Trim(spec) == [] ==> r == Err(ParseError.Spec)
    ensures Text.Trim(spec) != [] && Text.Trim(spec)[0] == '{' ==> r == ParseJson(Text.Trim(spec), ext)
  {
    var t := Text.Trim(spec);
    if t == [] then Err(ParseError.Spec)
    else if t[0] == '{' then ParseJson(t, ext)
    else ParseTokens(EmptyRoot, Tokens(spec))
  }

  /** The token form of `parse`: it succeeds exactly when no token is
      invalid, failing with `Spec` otherwise, and then the root level is the
      last one a token sets and the modules are those the tokens add, in
      token order. */
  lemma TokenFormParse(spec: string, ext: Externals)
    requires IsTokenForm(spec)
    ensures Parse(spec, ext).Ok? <==> Invalid !in Effects(Tokens(spec))
    ensures Parse(spec, ext).Err? ==> Parse(spec, ext).error == ParseError.Spec
    ensures Parse(spec, ext).Ok? ==>
      Parse(spec, ext).value == Root.Root(LastLevel(Effects(Tokens(spec)), None), AddedModules(Effects(Tokens(spec))))
  {
    FromEmptyRoot(Tokens(spec));
  }

  /** The token loop started from `Root::new()`: the root level is only what
      the tokens set, and the modules are only those they add. */
  lemma FromEmptyRoot(tokens: seq<string>)
    ensures ParseTokens(EmptyRoot, tokens).Ok? ==>
      ParseTokens(EmptyRoot, tokens).value
      == Root.Root(LastLevel(Effects(tokens), None), AddedModules(Effects(tokens)))
  {
    assert EmptyRoot.modules + AddedModules(Effects(tokens)) == AddedModules(Effects(tokens));
  }
}
