/** What `parse` does with the spec shapes its unit tests exercise, first for
    every spec of that shape and then for the tests' literal specs. For the
    JSON form the decoded tree is a hypothesis: turning text into a `Value`
    belongs to serde_json. */
module ParserExamples {
  import opened Wrappers
  import Text
  import opened Levels
  import opened JsonValue
  import opened Ints
  import opened Parser

  // ---------------------------------------------------------------------
  // Single tokens.
  // ---------------------------------------------------------------------

  /** A key or value as a token spells it: non-empty, free of `,` and `=`,
      and with no blanks at either end. */
  predicate Plain(s: string)
  {
    |s| > 0 && ',' !in s && '=' !in s && !Text.IsWhitespace(s[0]) && !Text.IsWhitespace(s[|s| - 1])
  }

  /** A level spelling consists of letters only, so it is plain text that
      does not open a JSON document. */
  lemma LevelSpellingPlain(s: string, l: LogLevel)
    requires FromUpperStr(s) == Some(l)
    ensures Plain(s) && s[0] != '{'
  {
    ParseUpper(s, l);
    NameIsUpperAscii(l);
    forall i | 0 <= i < |s|
      ensures !Text.IsWhitespace(s[i]) && s[i] != ',' && s[i] != '=' && s[i] != '{'
    {
      assert 'A' <= Text.UpperChar(s[i]) <= 'Z';
    }
  }

  /** A token with no `=` and no surrounding blanks is its own key. */
  lemma BareKey(token: string)
    requires |token| > 0 && '=' !in token
    requires !Text.IsWhitespace(token[0]) && !Text.IsWhitespace(token[|token| - 1])
    ensures Text.Count(token, '=') == 0 && KeyText(token) == token
  {
    Text.CountZero(token, '=');
    assert token[..Text.IndexOf(token, '=')] == token;
    Text.TrimUnchanged(token);
  }

  /** The single `=` of `key=tail` sits right after the key. */
  lemma KeySplit(t: string, key: string, tail: string)
    requires t == key + "=" + tail
    requires Plain(key) && '=' !in tail
    ensures Text.Count(t, '=') == 1 && '=' in t
    ensures KeyText(t) == key && ValueText(t) == Text.Trim(tail)
  {
    assert t[|key|] == '=';
    assert Text.IndexOf(t, '=') == |key| by {
      assert forall j :: 0 <= j < |key| ==> t[j] == key[j] && t[j] != '=';
      assert |key| < |t|;
    }
    assert t[..|key|] == key && t[|key| + 1..] == tail;
    Text.CountAfterFirst(t, '=');
    Text.CountZero(tail, '=');
    Text.TrimUnchanged(key);
  }

  /** The texts around the single `=` of `key=value`. */
  lemma KeyValue(t: string, key: string, value: string)
    requires t == key + "=" + value
    requires Plain(key) && Plain(value)
    ensures Text.Count(t, '=') == 1 && '=' in t
    ensures KeyText(t) == key && ValueText(t) == value
  {
    KeySplit(t, key, value);
    Text.TrimUnchanged(value);
  }

  /** A bare level spelling, in any case, sets the root level. */
  lemma BareLevelToken(token: string, l: LogLevel)
    requires FromUpperStr(token) == Some(l)
    ensures Plain(token) && token[0] != '{'
    ensures Meaning(token) == SetsRootLevel(l)
  {
    LevelSpellingPlain(token, l);
    BareKey(token);
  }

  /** A bare word that is not a level adds a TRACE module of that path. */
  lemma BareModuleToken(path: string)
    requires Plain(path) && FromUpperStr(path) == None
    ensures Meaning(path) == AddsModule(WithLevel(path, TRACE))
  {
    BareKey(path);
  }

  /** `path=LEVEL` adds a flat module. */
  lemma KeyLevelToken(path: string, value: string, l: LogLevel)
    requires Plain(path) && FromUpperStr(value) == Some(l)
    ensures Meaning(path + "=" + value) == AddsModule(WithLevel(path, l))
  {
    LevelSpellingPlain(value, l);
    KeyValue(path + "=" + value, path, value);
  }

  /** `path=word` with a word that is not a level is rejected. */
  lemma KeyNonLevelToken(path: string, value: string)
    requires Plain(path) && Plain(value) && FromUpperStr(value) == None
    ensures Meaning(path + "=" + value) == Invalid
  {
    KeyValue(path + "=" + value, path, value);
  }

  /** `path=` with nothing after the `=` is rejected. */
  lemma EmptyValueToken(path: string)
    requires Plain(path)
    ensures Meaning(path + "=") == Invalid
  {
    assert path + "=" == path + "=" + [];
    KeySplit(path + "=", path, []);
  }

  /** A token that starts with `=` has an empty key and is rejected. */
  lemma LeadingEqualsToken(token: string)
    requires |token| > 0 && token[0] == '='
    ensures Meaning(token) == Invalid
  {
    assert Text.IndexOf(token, '=') == 0;
    assert token[..0] == [];
  }

  /** A blank token is rejected. */
  lemma BlankToken(token: string)
    requires Text.AllWhitespace(token)
    ensures Meaning(token) == Invalid
  {
    if token != [] {
      Text.TrimEmpty(token);
      Text.CountZero(token, '=');
      assert token[..Text.IndexOf(token, '=')] == token;
    }
  }

  // ---------------------------------------------------------------------
  // Whole specs in token form.
  // ---------------------------------------------------------------------

  /** A spec without surrounding blanks that is not `{`-led is the token
      form, and its tokens are the pieces it was joined from. */
  lemma TokenSpec(spec: string, tokens: seq<string>)
    requires |spec| > 0 && !Text.IsWhitespace(spec[0]) && !Text.IsWhitespace(spec[|spec| - 1])
    requires spec[0] != '{'
    requires |tokens| >= 1 && spec == Text.Join(tokens, ',')
    requires forall i :: 0 <= i < |tokens| ==> ',' !in tokens[i]
    ensures IsTokenForm(spec) && Tokens(spec) == tokens
  {
    Text.TrimUnchanged(spec);
    Text.SplitJoin(tokens, ',');
  }

  /** `parse` of a token-form spec whose tokens have the given effects. */
  lemma ParseEffects(spec: string, tokens: seq<string>, es: seq<Effect>, ext: Externals, expected: Root)
    requires IsTokenForm(spec) && Tokens(spec) == tokens && Effects(tokens) == es
    requires Invalid !in es
    requires expected == Root.Root(LastLevel(es, None), AddedModules(es))
    ensures Parse(spec, ext) == Ok(expected)
  {
    TokenFormParse(spec, ext);
  }

  /** `parse` of a token-form spec one of whose tokens is rejected. */
  lemma ParseRejects(spec: string, i: nat, ext: Externals)
    requires IsTokenForm(spec) && i < |Tokens(spec)| && Meaning(Tokens(spec)[i]) == Invalid
    ensures Parse(spec, ext) == Err(ParseError.Spec)
  {
    TokenFormParse(spec, ext);
    assert Effects(Tokens(spec))[i] == Invalid;
  }

  /** A blank spec is rejected. */
  lemma BlankSpec(spec: string, ext: Externals)
    requires Text.AllWhitespace(spec)
    ensures Parse(spec, ext) == Err(ParseError.Spec)
  {
    Text.TrimEmpty(spec);
  }

  /** A one-token spec: non-blank at both ends, no `,`, not `{`-led. */
  predicate OneToken(spec: string)
  {
    |spec| > 0 && ',' !in spec && spec[0] != '{'
    && !Text.IsWhitespace(spec[0]) && !Text.IsWhitespace(spec[|spec| - 1])
  }

  /** `parse` of a one-token spec is that token's effect on an empty root. */
  lemma OneTokenSpec(spec: string, e: Effect, ext: Externals)
    requires OneToken(spec) && Meaning(spec) == e && e != Invalid
    ensures Parse(spec, ext) == Ok(Root.Root(LastLevel([e], None), AddedModules([e])))
  {
    OneTokenForm(spec);
    ParseOneToken(spec, e, ext);
  }

  lemma ParseOneToken(spec: string, e: Effect, ext: Externals)
    requires IsTokenForm(spec) && Tokens(spec) == [spec] && Meaning(spec) == e && e != Invalid
    ensures Parse(spec, ext) == Ok(Root.Root(LastLevel([e], None), AddedModules([e])))
  {
    TokenFormParse(spec, ext);
    OneEffect(spec, e);
  }

  /** The root one level token leaves. */
  lemma LevelEffectRoot(l: LogLevel)
    ensures LastLevel([SetsRootLevel(l)], None) == Some(l) && AddedModules([SetsRootLevel(l)]) == []
  { }

  /** The root one module token leaves. */
  lemma ModuleEffectRoot(m: Module)
    ensures LastLevel([AddsModule(m)], None) == None && AddedModules([AddsModule(m)]) == [m]
  {
    assert [AddsModule(m)][1..] == [];
  }

  lemma OneTokenForm(spec: string)
    requires OneToken(spec)
    ensures IsTokenForm(spec) && Tokens(spec) == [spec]
  {
    TokenSpec(spec, [spec]);
  }

  lemma OneEffect(token: string, e: Effect)
    requires Meaning(token) == e
    ensures Effects([token]) == [e]
  { }

  /** `parse` of a one-token spec whose token is rejected. */
  lemma OneTokenRejected(spec: string, ext: Externals)
    requires OneToken(spec) && Meaning(spec) == Invalid
    ensures Parse(spec, ext) == Err(ParseError.Spec)
  {
    OneTokenForm(spec);
    ParseRejects(spec, 0, ext);
  }

  /** `key=value` of two plain texts is a one-token spec. */
  lemma KeyValueOneToken(key: string, value: string)
    requires Plain(key) && key[0] != '{' && (value == [] || Plain(value))
    ensures OneToken(key + "=" + value)
  {
    var t := key + "=" + value;
    assert t[0] == key[0];
    assert t[|t| - 1] == if value == [] then '=' else value[|value| - 1];
    assert forall i :: 0 <= i < |t| ==> t[i] == ',' ==> (i < |key| && key[i] == ',') || (i > |key| && value[i - |key| - 1] == ',');
  }

  lemma BareLevelParse(spec: string, l: LogLevel, ext: Externals)
    requires FromUpperStr(spec) == Some(l)
    ensures Parse(spec, ext) == Ok(Root.Root(Some(l), []))
  {
    BareLevelToken(spec, l);
    OneTokenSpec(spec, SetsRootLevel(l), ext);
    LevelEffectRoot(l);
  }

  lemma KeyLevelOneToken(spec: string, path: string, value: string, l: LogLevel)
    requires spec == path + "=" + value
    requires Plain(path) && path[0] != '{' && Text.ToUpper(value) == Name(l)
    ensures OneToken(spec) && Meaning(spec) == AddsModule(WithLevel(path, l))
  {
    UpperLevel(value, l);
    KeyLevelToken(path, value, l);
    LevelSpellingPlain(value, l);
    KeyValueOneToken(path, value);
  }

  /** A bare word that is not a level yields one TRACE module. */
  lemma BareModuleSpec(path: string, ext: Externals)
    requires Plain(path) && path[0] != '{' && FromUpperStr(path) == None
    ensures Parse(path, ext) == Ok(Root.Root(None, [WithLevel(path, TRACE)]))
  {
    BareModuleToken(path);
    OneTokenSpec(path, AddsModule(WithLevel(path, TRACE)), ext);
    ModuleEffectRoot(WithLevel(path, TRACE));
  }

  /** `path=word` with a word that is not a level is rejected. */
  lemma KeyNonLevelSpec(spec: string, path: string, value: string, ext: Externals)
    requires spec == path + "=" + value
    requires Plain(path) && path[0] != '{' && Plain(value) && FromUpperStr(value) == None
    ensures Parse(spec, ext) == Err(ParseError.Spec)
  {
    KeyNonLevelToken(path, value);
    KeyValueOneToken(path, value);
    OneTokenRejected(spec, ext);
  }

  /** `path=` is rejected. */
  lemma EmptyValueSpec(spec: string, path: string, ext: Externals)
    requires spec == path + "="
    requires Plain(path) && path[0] != '{'
    ensures Parse(spec, ext) == Err(ParseError.Spec)
  {
    EmptyValueToken(path);
    assert path + "=" == path + "=" + [];
    KeyValueOneToken(path, []);
    OneTokenRejected(spec, ext);
  }

  /** A spec that is one level spelling, in any case, sets the root level and
      adds no module. */
  lemma BareLevelSpec(spec: string, l: LogLevel, ext: Externals)
    requires Text.ToUpper(spec) == Name(l)
    ensures Parse(spec, ext) == Ok(Root.Root(Some(l), []))
  {
    UpperLevel(spec, l);
    BareLevelParse(spec, l, ext);
  }

  /** `path=LEVEL`, the level in any case, yields exactly one flat module and
      no root level. */
  lemma KeyLevelSpec(spec: string, path: string, value: string, l: LogLevel, ext: Externals)
    requires spec == path + "=" + value
    requires Plain(path) && path[0] != '{' && Text.ToUpper(value) == Name(l)
    ensures Parse(spec, ext) == Ok(Root.Root(None, [WithLevel(path, l)]))
  {
    KeyLevelOneToken(spec, path, value, l);
    OneTokenSpec(spec, AddsModule(WithLevel(path, l)), ext);
    ModuleEffectRoot(WithLevel(path, l));
  }

  /** A spec whose first non-blank character is `=` is rejected: its first
      token has an empty key. */
  lemma LeadingEqualsSpec(spec: string, ext: Externals)
    requires Text.Trim(spec) != [] && Text.Trim(spec)[0] == '='
    ensures Parse(spec, ext) == Err(ParseError.Spec)
  {
    var t := Text.Trim(spec);
    assert IsTokenForm(spec);
    Text.SplitPieces(t, ',');
    assert Text.IndexOf(t, ',') > 0;
    assert Tokens(spec)[0][0] == '=';
    LeadingEqualsToken(Tokens(spec)[0]);
    ParseRejects(spec, 0, ext);
  }

  lemma LeadingEqualsUnpadded(spec: string, ext: Externals)
    requires |spec| > 0 && spec[0] == '=' && !Text.IsWhitespace(spec[|spec| - 1])
    ensures Parse(spec, ext) == Err(ParseError.Spec)
  {
    LeadingEqualsTrim(spec);
    LeadingEqualsSpec(spec, ext);
  }

  lemma LeadingEqualsTrim(spec: string)
    requires |spec| > 0 && spec[0] == '=' && !Text.IsWhitespace(spec[|spec| - 1])
    ensures Text.Trim(spec) != [] && Text.Trim(spec)[0] == '='
  {
    Text.TrimUnchanged(spec);
  }

  /** A spec with a blank token (before, between or after commas) is
      rejected. */
  lemma BlankTokenSpec(spec: string, i: nat, ext: Externals)
    requires IsTokenForm(spec) && i < |Tokens(spec)| && Text.AllWhitespace(Tokens(spec)[i])
    ensures Parse(spec, ext) == Err(ParseError.Spec)
  {
    BlankToken(Tokens(spec)[i]);
    ParseRejects(spec, i, ext);
  }

  // ---------------------------------------------------------------------
  // The token-form unit tests.
  // ---------------------------------------------------------------------

  lemma UpperLevel(s: string, l: LogLevel)
    requires Text.ToUpper(s) == Name(l)
    ensures FromUpperStr(s) == Some(l)
  {
    ParseUpper(s, l);
  }

  /** `test_spec_global`. */
  lemma SpecGlobal(ext: Externals)
    ensures Parse("error", ext) == Ok(Root.Root(Some(ERROR), []))
  {
    ErrorSpelling();
    BareLevelSpec("error", ERROR, ext);
  }

  lemma ErrorSpelling()
    ensures Text.ToUpper("error") == Name(ERROR)
  { }

  /** `test_spec_module`, first half. */
  lemma SpecModuleLevel(ext: Externals)
    ensures Parse("foo=error", ext) == Ok(Root.Root(None, [WithLevel("foo", ERROR)]))
  {
    KeyLevelSpec("foo=error", "foo", "error", ERROR, ext);
  }

  /** `test_spec_module`, second half. */
  lemma SpecModuleBare(ext: Externals)
    ensures Parse("foo", ext) == Ok(Root.Root(None, [WithLevel("foo", TRACE)]))
  {
    ShortTextNoLevel("foo");
    FooBarWords();
    BareModuleSpec("foo", ext);
  }

  /** `test_spec_invalid`: the blank spec. */
  lemma SpecInvalidBlank(ext: Externals)
    ensures Parse("", ext) == Err(ParseError.Spec)
  {
    BlankSpec("", ext);
  }

  /** `test_spec_invalid`: a lone comma has two blank tokens. */
  lemma SpecInvalidComma(ext: Externals)
    ensures Parse(",", ext) == Err(ParseError.Spec)
  {
    TokenSpec(",", ["", ""]);
    BlankTokenSpec(",", 0, ext);
  }

  /** `test_spec_invalid`: a trailing comma leaves a blank last token. */
  lemma SpecInvalidTrailingComma(ext: Externals)
    ensures Parse("foo,", ext) == Err(ParseError.Spec)
  {
    TokenSpec("foo,", ["foo", ""]);
    BlankTokenSpec("foo,", 1, ext);
  }

  /** `test_spec_invalid`: a leading comma leaves a blank first token. */
  lemma SpecInvalidLeadingComma(ext: Externals)
    ensures Parse(",foo", ext) == Err(ParseError.Spec)
  {
    TokenSpec(",foo", ["", "foo"]);
    BlankTokenSpec(",foo", 0, ext);
  }

  /** `test_spec_invalid`: a lone `=` has an empty key. */
  lemma SpecInvalidEquals(ext: Externals)
    ensures Parse("=", ext) == Err(ParseError.Spec)
  {
    LeadingEqualsUnpadded("=", ext);
  }

  /** `test_spec_invalid`: an empty key before a level. */
  lemma SpecInvalidEmptyKey(ext: Externals)
    ensures Parse("=error", ext) == Err(ParseError.Spec)
  {
    LeadingEqualsUnpadded("=error", ext);
  }

  /** `test_spec_invalid`: an empty value. */
  lemma SpecInvalidEmptyValue(ext: Externals)
    ensures Parse("foo=", ext) == Err(ParseError.Spec)
  {
    EmptyValueSpec("foo=", "foo", ext);
  }

  /** `test_spec_invalid`: a value that is not a level. */
  lemma SpecInvalidValue(ext: Externals)
    ensures Parse("foo=bar", ext) == Err(ParseError.Spec)
  {
    ShortTextNoLevel("bar");
    FooBarWords();
    KeyNonLevelSpec("foo=bar", "foo", "bar", ext);
  }

  lemma FooBarWords()
    ensures "foo=bar" == "foo" + "=" + "bar"
    ensures Plain("foo") && "foo"[0] != '{' && Plain("bar")
  { }

  /** The effects of the tokens of `critical,foo,bar,qux=error`. */
  lemma CombinedEffects()
    ensures Effects(["critical", "foo", "bar", "qux=error"])
            == [SetsRootLevel(CRITICAL), AddsModule(WithLevel("foo", TRACE)),
                AddsModule(WithLevel("bar", TRACE)), AddsModule(WithLevel("qux", ERROR))]
  {
    CriticalToken();
    FooToken();
    BarToken();
    QuxToken();
    FourEffects("critical", "foo", "bar", "qux=error",
                SetsRootLevel(CRITICAL), AddsModule(WithLevel("foo", TRACE)),
                AddsModule(WithLevel("bar", TRACE)), AddsModule(WithLevel("qux", ERROR)));
  }

  lemma FourEffects(t0: string, t1: string, t2: string, t3: string, e0: Effect, e1: Effect, e2: Effect, e3: Effect)
    requires Meaning(t0) == e0 && Meaning(t1) == e1 && Meaning(t2) == e2 && Meaning(t3) == e3
    ensures Effects([t0, t1, t2, t3]) == [e0, e1, e2, e3]
  {
  }

  lemma CriticalToken()
    ensures Meaning("critical") == SetsRootLevel(CRITICAL)
  {
    UpperLevel("critical", CRITICAL);
    BareLevelToken("critical", CRITICAL);
  }

  lemma FooToken()
    ensures Meaning("foo") == AddsModule(WithLevel("foo", TRACE))
  {
    WordToken("foo");
  }

  lemma BarToken()
    ensures Meaning("bar") == AddsModule(WithLevel("bar", TRACE))
  {
    WordToken("bar");
  }

  lemma QuxToken()
    ensures Meaning("qux=error") == AddsModule(WithLevel("qux", ERROR))
  {
    KeyLevelOneToken("qux=error", "qux", "error", ERROR);
  }

  /** A plain three-letter word is a TRACE module. */
  lemma WordToken(word: string)
    requires |word| == 3 && Plain(word)
    ensures Meaning(word) == AddsModule(WithLevel(word, TRACE))
  {
    ShortTextNoLevel(word);
    BareModuleToken(word);
  }

  lemma CombinedTokens()
    ensures IsTokenForm("critical,foo,bar,qux=error")
    ensures Tokens("critical,foo,bar,qux=error") == ["critical", "foo", "bar", "qux=error"]
  {
    TokenSpec("critical,foo,bar,qux=error", ["critical", "foo", "bar", "qux=error"]);
  }

  lemma CombinedRoot()
    ensures var es := [SetsRootLevel(CRITICAL), AddsModule(WithLevel("foo", TRACE)),
                       AddsModule(WithLevel("bar", TRACE)), AddsModule(WithLevel("qux", ERROR))];
            && Invalid !in es
            && Root.Root(LastLevel(es, None), AddedModules(es))
               == Root.Root(Some(CRITICAL), [WithLevel("foo", TRACE), WithLevel("bar", TRACE), WithLevel("qux", ERROR)])
  {
  }

  /** `test_spec_combined`: one root level and three modules, in token
      order. */
  lemma SpecCombined(ext: Externals)
    ensures Parse("critical,foo,bar,qux=error", ext)
            == Ok(Root.Root(Some(CRITICAL), [WithLevel("foo", TRACE), WithLevel("bar", TRACE), WithLevel("qux", ERROR)]))
  {
    CombinedTokens();
    CombinedEffects();
    CombinedRoot();
    ParseEffects("critical,foo,bar,qux=error", ["critical", "foo", "bar", "qux=error"],
                 [SetsRootLevel(CRITICAL), AddsModule(WithLevel("foo", TRACE)),
                  AddsModule(WithLevel("bar", TRACE)), AddsModule(WithLevel("qux", ERROR))], ext,
                 Root.Root(Some(CRITICAL), [WithLevel("foo", TRACE), WithLevel("bar", TRACE), WithLevel("qux", ERROR)]));
  }
}
