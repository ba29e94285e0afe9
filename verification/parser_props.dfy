/** Properties of the token form of `parse` that hold for every spec: the
    root level is the last bare level, the modules come in token order,
    and every module is a flat-level one. */
module ParserProps {
  import opened Wrappers
  import opened Levels
  import opened Parser

  /** Without a `SetsRootLevel` effect the root level stays as it was. */
  lemma {:induction false} LastLevelKeeps(es: seq<Effect>, initial: Option<LogLevel>)
    requires forall i :: 0 <= i < |es| ==> !es[i].SetsRootLevel?
    ensures LastLevel(es, initial) == initial
    decreases |es|
  {
    if |es| > 0 {
      assert forall i :: 0 <= i < |es[1..]| ==> es[1..][i] == es[i + 1];
      LastLevelKeeps(es[1..], initial);
    }
  }

  /** The root level after a run of effects is the level of the last
      `SetsRootLevel`: later effects leave it alone. */
  lemma {:induction false} LastLevelWins(es: seq<Effect>, initial: Option<LogLevel>, i: nat)
    requires i < |es| && es[i].SetsRootLevel?
    requires forall j :: i < j < |es| ==> !es[j].SetsRootLevel?
    ensures LastLevel(es, initial) == Some(es[i].l)
    decreases |es|
  {
    assert forall j :: 0 <= j < |es[1..]| ==> es[1..][j] == es[j + 1];
    if i == 0 {
      LastLevelKeeps(es[1..], Some(es[0].l));
    } else {
      LastLevelWins(es[1..], if es[0].SetsRootLevel? then Some(es[0].l) else initial, i - 1);
    }
  }

  /** Appending effects appends their modules: the modules keep the order
      of the tokens that add them. */
  lemma {:induction false} AddedModulesAppend(a: seq<Effect>, b: seq<Effect>)
    ensures AddedModules(a + b) == AddedModules(a) + AddedModules(b)
    decreases |a|
  {
    if |a| > 0 {
      assert (a + b)[0] == a[0] && (a + b)[1..] == a[1..] + b;
      AddedModulesAppend(a[1..], b);
    } else {
      assert a + b == b;
    }
  }

  /** The modules added are exactly those of the `AddsModule` effects. */
  lemma {:induction false} AddedModulesMembers(es: seq<Effect>, m: Module)
    ensures m in AddedModules(es) <==> AddsModule(m) in es
    decreases |es|
  {
    if |es| > 0 {
      AddedModulesMembers(es[1..], m);
      assert es == [es[0]] + es[1..];
    }
  }

  /** A token only ever adds a flat-level module. */
  lemma MeaningFlat(token: string)
    ensures Meaning(token).AddsModule? ==> Meaning(token).m.Flat()
  { }

  lemma {:induction false} AddedModulesFlat(es: seq<Effect>)
    requires forall i :: 0 <= i < |es| && es[i].AddsModule? ==> es[i].m.Flat()
    ensures forall k :: 0 <= k < |AddedModules(es)| ==> AddedModules(es)[k].Flat()
    decreases |es|
  {
    if |es| > 0 {
      assert forall i :: 1 <= i < |es| ==> es[i] == es[1..][i - 1];
      AddedModulesFlat(es[1..]);
      if es[0].AddsModule? {
        assert AddedModules(es) == [es[0].m] + AddedModules(es[1..]);
      } else {
        assert AddedModules(es) == AddedModules(es[1..]);
      }
    }
  }

  /** Every module of a token-form spec has a level and no line ranges. */
  lemma TokenModulesFlat(spec: string, ext: Externals)
    requires IsTokenForm(spec) && Parse(spec, ext).Ok?
    ensures forall k :: 0 <= k < |Parse(spec, ext).value.modules| ==>
      Parse(spec, ext).value.modules[k].Flat()
  {
    TokenFormParse(spec, ext);
    var es := Effects(Tokens(spec));
    forall i | 0 <= i < |es| && es[i].AddsModule?
      ensures es[i].m.Flat()
    {
      MeaningFlat(Tokens(spec)[i]);
    }
    AddedModulesFlat(es);
  }

  /** The root level of a token-form spec is the last bare level token's. */
  lemma TokenRootLevel(spec: string, ext: Externals, i: nat)
    requires IsTokenForm(spec) && Parse(spec, ext).Ok?
    requires i < |Tokens(spec)| && Meaning(Tokens(spec)[i]).SetsRootLevel?
    requires forall j :: i < j < |Tokens(spec)| ==> !Meaning(Tokens(spec)[j]).SetsRootLevel?
    ensures Parse(spec, ext).value.level == Some(Meaning(Tokens(spec)[i]).l)
  {
    TokenFormParse(spec, ext);
    LastLevelWins(Effects(Tokens(spec)), None, i);
  }

  /** With no bare level token, a token-form spec leaves the root level unset. */
  lemma TokenNoRootLevel(spec: string, ext: Externals)
    requires IsTokenForm(spec) && Parse(spec, ext).Ok?
    requires forall j :: 0 <= j < |Tokens(spec)| ==> !Meaning(Tokens(spec)[j]).SetsRootLevel?
    ensures Parse(spec, ext).value.level.None?
  {
    TokenFormParse(spec, ext);
    LastLevelKeeps(Effects(Tokens(spec)), None);
  }
}
