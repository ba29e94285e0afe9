/** What `parse` does with the JSON documents its unit tests use. Decoding
    text into a `Value` is serde_json's business, so each scenario takes the
    decoded tree as a hypothesis about `Externals.decode`; `prepare_ranges`
    is likewise a hypothesis where a scenario reaches it. */
module ParserJsonExamples {
  import opened Wrappers
  import Text
  import opened Levels
  import opened JsonValue
  import opened Ints
  import opened Parser

  /** A spec that opens with `{` and ends without a blank. */
  predicate JsonText(text: string)
  {
    |text| > 0 && text[0] == '{' && !Text.IsWhitespace(text[|text| - 1])
  }

  /** A `{`-led spec is validated as the document it decodes to. */
  lemma JsonSpec(text: string, doc: Value, ext: Externals)
    requires JsonText(text) && ext.decode(text) == Some(doc)
    ensures Parse(text, ext) == ParseDocument(doc, ext.prepare)
  {
    ParseJsonLed(text, ext);
  }

  /** A `{`-led spec that does not decode is a `Json` error. */
  lemma UndecodableSpec(text: string, ext: Externals)
    requires JsonText(text) && ext.decode(text) == None
    ensures Parse(text, ext) == Err(ParseError.Json(JsonError.Json))
  {
    ParseJsonLed(text, ext);
  }

  lemma ParseJsonLed(text: string, ext: Externals)
    requires JsonText(text)
    ensures Parse(text, ext) == ParseJson(text, ext)
  {
    Text.TrimUnchanged(text);
  }

  /** `prepare_ranges` rejects any list holding a range whose start lies
      after its end. */
  ghost predicate RejectsInverted(prepare: (LogLevel, seq<(U32, U32)>) -> Result<seq<LineRangeSpec>, string>)
  {
    forall l, ranges: seq<(U32, U32)>, i :: 0 <= i < |ranges| && ranges[i].0 > ranges[i].1 ==> prepare(l, ranges).Err?
  }

  /** A document whose only member is a one-element `modules` array fails
      with the error of that element. */
  lemma OneModuleDocument(m: Value, prepare: (LogLevel, seq<(U32, U32)>) -> Result<seq<LineRangeSpec>, string>)
    requires ParseModule(m, prepare).Err?
    ensures ParseDocument(Object(map["modules" := Array([m])]), prepare) == Err(ParseModule(m, prepare).error)
  {
    var doc := Object(map["modules" := Array([m])]);
    assert "level" !in doc.fields;
    assert doc.fields["modules"].items[0] == m;
    assert FirstInvalid([m], prepare) == 0;
  }

  /** The module object `{"path": "bar", "lines": lines}`. */
  function BarLines(lines: Value): Value
  {
    Object(map["path" := Str("bar"), "lines" := lines])
  }

  /** A module whose `lines` member is malformed is a `LineRange` error. */
  lemma BadLinesModule(lines: Value, prepare: (LogLevel, seq<(U32, U32)>) -> Result<seq<LineRangeSpec>, string>)
    requires ParseLines(lines).Err?
    ensures ParseModule(BarLines(lines), prepare) == Err(ParseError.Json(JsonError.LineRange))
  {
    assert "level" !in BarLines(lines).fields;
  }

  // ---------------------------------------------------------------------
  // `test_spec_json_invalid`, one document at a time.
  // ---------------------------------------------------------------------

  /** `{` is not a JSON document. */
  lemma SpecJsonUndecodable(ext: Externals)
    requires ext.decode("{") == None
    ensures Parse("{", ext) == Err(ParseError.Json(JsonError.Json))
  {
    UndecodableSpec("{", ext);
  }

  /** `{}`: an empty root object. */
  lemma SpecJsonEmptyRoot(ext: Externals)
    requires ext.decode("{}") == Some(Object(map[]))
    ensures Parse("{}", ext) == Err(ParseError.Json(JsonError.Root))
  {
    JsonSpec("{}", Object(map[]), ext);
  }

  /** A root `level` that names no level is a `RootLogLevel` error. */
  lemma BadRootLevelDocument(word: string, prepare: (LogLevel, seq<(U32, U32)>) -> Result<seq<LineRangeSpec>, string>)
    requires FromStr(word) == None
    ensures ParseDocument(Object(map["level" := Str(word)]), prepare) == Err(ParseError.Json(JsonError.RootLogLevel))
  {
  }

  /** `{"level": "foo"}`: a root level that names no level. */
  lemma SpecJsonRootLevel(ext: Externals)
    requires ext.decode("{\"level\": \"foo\"}") == Some(Object(map["level" := Str("foo")]))
    ensures Parse("{\"level\": \"foo\"}", ext) == Err(ParseError.Json(JsonError.RootLogLevel))
  {
    ShortTextNoLevel("foo");
    BadRootLevelDocument("foo", ext.prepare);
    JsonSpec("{\"level\": \"foo\"}", Object(map["level" := Str("foo")]), ext);
  }

  /** `{"modules": {}}`: `modules` is not an array. */
  lemma SpecJsonModulesObject(ext: Externals)
    requires ext.decode("{\"modules\": {}}") == Some(Object(map["modules" := Object(map[])]))
    ensures Parse("{\"modules\": {}}", ext) == Err(ParseError.Json(JsonError.Module))
  {
    JsonSpec("{\"modules\": {}}", Object(map["modules" := Object(map[])]), ext);
  }

  /** `{"modules": []}`: `modules` is empty. */
  lemma SpecJsonModulesEmpty(ext: Externals)
    requires ext.decode("{\"modules\": []}") == Some(Object(map["modules" := Array([])]))
    ensures Parse("{\"modules\": []}", ext) == Err(ParseError.Json(JsonError.Module))
  {
    JsonSpec("{\"modules\": []}", Object(map["modules" := Array([])]), ext);
  }

  /** `{"modules": [{"level": "critical"}]}`: a module without a path. */
  lemma SpecJsonModuleNoPath(text: string, ext: Externals)
    requires JsonText(text)
    requires ext.decode(text) == Some(Object(map["modules" := Array([Object(map["level" := Str("critical")])])]))
    ensures Parse(text, ext) == Err(ParseError.Json(JsonError.Module))
  {
    var m := Object(map["level" := Str("critical")]);
    assert !HasPath(m.fields);
    OneModuleDocument(m, ext.prepare);
    JsonSpec(text, Object(map["modules" := Array([m])]), ext);
  }

  /** A module `level` that names no level is a `ModuleLogLevel` error. */
  lemma BadModuleLevel(path: string, word: string, prepare: (LogLevel, seq<(U32, U32)>) -> Result<seq<LineRangeSpec>, string>)
    requires FromStr(word) == None
    ensures ParseModule(Object(map["path" := Str(path), "level" := Str(word)]), prepare)
            == Err(ParseError.Json(JsonError.ModuleLogLevel))
  {
    var m := Object(map["path" := Str(path), "level" := Str(word)]);
    assert HasPath(m.fields) && !ModuleLevelOk(m.fields);
  }

  /** `{"modules": [{"path": "bar", "level": "foo"}]}`: a module level that
      names no level. */
  lemma SpecJsonModuleLevel(text: string, ext: Externals)
    requires JsonText(text)
    requires ext.decode(text) == Some(Object(map["modules" := Array([Object(map["path" := Str("bar"), "level" := Str("foo")])])]))
    ensures Parse(text, ext) == Err(ParseError.Json(JsonError.ModuleLogLevel))
  {
    var m := Object(map["path" := Str("bar"), "level" := Str("foo")]);
    ShortTextNoLevel("foo");
    BadModuleLevel("bar", "foo", ext.prepare);
    OneModuleDocument(m, ext.prepare);
    JsonSpec(text, Object(map["modules" := Array([m])]), ext);
  }

  /** `{"modules": [{"path": "bar", "lines": L}]}` for each malformed `L` of
      the test: `{}`, `[]`, `[[]]`, `[[1]]` and `[[1, 10, 20]]`. */
  lemma SpecJsonBadLines(text: string, lines: Value, ext: Externals)
    requires JsonText(text)
    requires lines in {Object(map[]), Array([]), Array([Array([])]), Array([Array([Num(Int(1))])]),
                       Array([Array([Num(Int(1)), Num(Int(10)), Num(Int(20))])])}
    requires ext.decode(text) == Some(Object(map["modules" := Array([BarLines(lines)])]))
    ensures Parse(text, ext) == Err(ParseError.Json(JsonError.LineRange))
  {
    if lines.Array? && |lines.items| > 0 {
      assert !ValidPair(lines.items[0]);
    }
    BadLinesModule(lines, ext.prepare);
    OneModuleDocument(BarLines(lines), ext.prepare);
    JsonSpec(text, Object(map["modules" := Array([BarLines(lines)])]), ext);
  }

  /** `{"modules": [{"path": "bar", "lines": [[10, 1]]}]}`: well-formed
      lines that `prepare_ranges` rejects because the range is inverted. */
  lemma SpecJsonInvertedLines(text: string, ext: Externals)
    requires JsonText(text) && RejectsInverted(ext.prepare)
    requires ext.decode(text) == Some(Object(map["modules" := Array([BarLines(Array([Array([Num(Int(10)), Num(Int(1))])]))])]))
    ensures Parse(text, ext) == Err(ParseError.Json(JsonError.LineRange))
  {
    var m := BarLines(Array([Array([Num(Int(10)), Num(Int(1))])]));
    assert "level" !in m.fields;
    assert ParseLines(m.fields["lines"]).value == [(10, 1)];
    assert ext.prepare(TRACE, [(10, 1)]).Err?;
    OneModuleDocument(m, ext.prepare);
    JsonSpec(text, Object(map["modules" := Array([m])]), ext);
  }

  // ---------------------------------------------------------------------
  // `test_spec_json`.
  // ---------------------------------------------------------------------

  /** The tree `test_spec_json` decodes to. */
  function SpecJsonDocument(): Value
  {
    Object(map["level" := Str("critical"), "modules" := Array(SpecJsonItems())])
  }

  /** A module object with only a path is a flat TRACE module. */
  lemma PathOnlyModule(path: string, prepare: (LogLevel, seq<(U32, U32)>) -> Result<seq<LineRangeSpec>, string>)
    ensures ParseModule(Object(map["path" := Str(path)]), prepare) == Ok(WithLevel(path, TRACE))
  {
    assert "level" !in map["path" := Str(path)];
  }

  /** A module object with a path, a level and valid lines is the module
      `Module::with_lranges` builds from them. */
  lemma RangedModule(path: string, word: string, l: LogLevel, lines: Value, pairs: seq<(U32, U32)>,
                     prepare: (LogLevel, seq<(U32, U32)>) -> Result<seq<LineRangeSpec>, string>)
    requires Text.EqualsIgnoreAsciiCase(word, Name(l)) && ParseLines(lines) == Ok(pairs) && prepare(l, pairs).Ok?
    ensures ParseModule(Object(map["path" := Str(path), "level" := Str(word), "lines" := lines]), prepare)
            == Ok(WithLranges(path, l, pairs, prepare).value)
  {
    ParseName(word, l);
  }

  /** A valid module followed by valid modules. */
  lemma ConsModules(a: Value, rest: seq<Value>, ma: Module, ms: seq<Module>,
                    prepare: (LogLevel, seq<(U32, U32)>) -> Result<seq<LineRangeSpec>, string>)
    requires ParseModule(a, prepare) == Ok(ma) && ParseModules(rest, prepare) == Ok(ms)
    ensures ParseModules([a] + rest, prepare) == Ok([ma] + ms)
  {
    assert ([a] + rest)[0] == a && ([a] + rest)[1..] == rest;
  }

  /** `modules` of three valid elements, in order. */
  lemma ThreeModules(a: Value, b: Value, c: Value, ma: Module, mb: Module, mc: Module,
                     prepare: (LogLevel, seq<(U32, U32)>) -> Result<seq<LineRangeSpec>, string>)
    requires ParseModule(a, prepare) == Ok(ma) && ParseModule(b, prepare) == Ok(mb) && ParseModule(c, prepare) == Ok(mc)
    ensures ParseModules([a, b, c], prepare) == Ok([ma, mb, mc])
  {
    ConsModules(c, [], mc, [], prepare);
    assert [c] + [] == [c] && [mc] + [] == [mc];
    ConsModules(b, [c], mb, [mc], prepare);
    assert [b] + [c] == [b, c] && [mb] + [mc] == [mb, mc];
    ConsModules(a, [b, c], ma, [mb, mc], prepare);
    assert [a] + [b, c] == [a, b, c] && [ma] + [mb, mc] == [ma, mb, mc];
  }

  /** A root `level` member that names `l`, in any ASCII case. */
  lemma RootLevelNames(fields: map<string, Value>, word: string, l: LogLevel)
    requires "level" in fields && fields["level"] == Str(word) && Text.EqualsIgnoreAsciiCase(word, Name(l))
    ensures ParseRootLevel(fields) == Ok(Some(l))
  {
    ParseName(word, l);
  }

  /** A `modules` member that is a non-empty array of valid modules. */
  lemma ModulesMemberOf(fields: map<string, Value>, items: seq<Value>, ms: seq<Module>,
                        prepare: (LogLevel, seq<(U32, U32)>) -> Result<seq<LineRangeSpec>, string>)
    requires "modules" in fields && fields["modules"] == Array(items) && |items| > 0
    requires ParseModules(items, prepare) == Ok(ms)
    ensures ParseModulesMember(fields, prepare) == Ok(ms)
  {
  }

  /** A document is the root its two members describe. */
  lemma DocumentOf(fields: map<string, Value>, level: Option<LogLevel>, ms: seq<Module>,
                   prepare: (LogLevel, seq<(U32, U32)>) -> Result<seq<LineRangeSpec>, string>)
    requires "level" in fields
    requires ParseRootLevel(fields) == Ok(level) && ParseModulesMember(fields, prepare) == Ok(ms)
    ensures ParseDocument(Object(fields), prepare) == Ok(Root.Root(level, ms))
  {
    assert |fields| > 0 by {
      assert fields.Keys == (fields.Keys - {"level"}) + {"level"};
    }
  }

  /** Two well-formed `[from, to]` entries. */
  lemma TwoLines(a: U32, b: U32, c: U32, d: U32)
    ensures ParseLines(Array([Array([Num(Int(a)), Num(Int(b))]), Array([Num(Int(c)), Num(Int(d))])]))
            == Ok([(a, b), (c, d)])
  {
    var lines := Array([Array([Num(Int(a)), Num(Int(b))]), Array([Num(Int(c)), Num(Int(d))])]);
    assert ValidPair(lines.items[0]) && ValidPair(lines.items[1]);
    var r := ParseLines(lines);
    assert r.Ok? && |r.value| == 2;
    assert r.value[0] == PairOf(lines.items[0]) == (a, b);
    assert r.value[1] == PairOf(lines.items[1]) == (c, d);
    assert r.value == [(a, b), (c, d)];
  }

  /** The `lines` of the third module of `test_spec_json`. */
  function SpecJsonLines(): Value
  {
    Array([Array([Num(Int(10)), Num(Int(100))]), Array([Num(Int(120)), Num(Int(130))])])
  }

  /** The `modules` of `test_spec_json`. */
  function SpecJsonItems(): seq<Value>
  {
    [Object(map["path" := Str("foo")]), Object(map["path" := Str("bar")]),
     Object(map["path" := Str("bar"), "level" := Str("error"), "lines" := SpecJsonLines()])]
  }

  /** The modules `test_spec_json` expects; the third is what
      `Module::with_lranges` builds. */
  function SpecJsonModules(prepare: (LogLevel, seq<(U32, U32)>) -> Result<seq<LineRangeSpec>, string>): seq<Module>
    requires prepare(ERROR, [(10, 100), (120, 130)]).Ok?
  {
    [WithLevel("foo", TRACE), WithLevel("bar", TRACE), WithLranges("bar", ERROR, [(10, 100), (120, 130)], prepare).value]
  }

  lemma SpecJsonThirdModule(prepare: (LogLevel, seq<(U32, U32)>) -> Result<seq<LineRangeSpec>, string>)
    requires prepare(ERROR, [(10, 100), (120, 130)]).Ok?
    ensures ParseModule(SpecJsonItems()[2], prepare) == Ok(SpecJsonModules(prepare)[2])
  {
    TwoLines(10, 100, 120, 130);
    assert Text.EqualsIgnoreAsciiCase("error", Name(ERROR));
    RangedModule("bar", "error", ERROR, SpecJsonLines(), [(10, 100), (120, 130)], prepare);
  }

  lemma SpecJsonModuleList(prepare: (LogLevel, seq<(U32, U32)>) -> Result<seq<LineRangeSpec>, string>)
    requires prepare(ERROR, [(10, 100), (120, 130)]).Ok?
    ensures ParseModules(SpecJsonItems(), prepare) == Ok(SpecJsonModules(prepare))
  {
    var items := SpecJsonItems();
    var ms := SpecJsonModules(prepare);
    PathOnlyModule("foo", prepare);
    PathOnlyModule("bar", prepare);
    SpecJsonThirdModule(prepare);
    ThreeModules(items[0], items[1], items[2], ms[0], ms[1], ms[2], prepare);
    assert items == [items[0], items[1], items[2]] && ms == [ms[0], ms[1], ms[2]];
  }

  lemma SpecJsonTree(prepare: (LogLevel, seq<(U32, U32)>) -> Result<seq<LineRangeSpec>, string>)
    requires prepare(ERROR, [(10, 100), (120, 130)]).Ok?
    ensures ParseDocument(SpecJsonDocument(), prepare) == Ok(Root.Root(Some(CRITICAL), SpecJsonModules(prepare)))
  {
    var fields := map["level" := Str("critical"), "modules" := Array(SpecJsonItems())];
    assert SpecJsonDocument() == Object(fields);
    assert Text.EqualsIgnoreAsciiCase("critical", Name(CRITICAL));
    RootLevelNames(fields, "critical", CRITICAL);
    SpecJsonModuleList(prepare);
    ModulesMemberOf(fields, SpecJsonItems(), SpecJsonModules(prepare), prepare);
    DocumentOf(fields, Some(CRITICAL), SpecJsonModules(prepare), prepare);
  }

  /** `test_spec_json`: a root level, two modules at the default TRACE and
      one with line ranges, in document order. */
  lemma SpecJson(text: string, ext: Externals)
    requires JsonText(text) && ext.decode(text) == Some(SpecJsonDocument())
    requires ext.prepare(ERROR, [(10, 100), (120, 130)]).Ok?
    ensures Parse(text, ext)
            == Ok(Root.Root(Some(CRITICAL), [WithLevel("foo", TRACE), WithLevel("bar", TRACE),
                                              WithLranges("bar", ERROR, [(10, 100), (120, 130)], ext.prepare).value]))
  {
    SpecJsonTree(ext.prepare);
    JsonSpec(text, SpecJsonDocument(), ext);
  }
}
