/** A record over its whole life: a sequence of calls to its lazy accessors,
    with at most one conversion from the sync to the async kind. What the
    memo cell promises shows up here as facts about every answer of a run. */
module RecordRuns {
  import opened Wrappers
  import opened Record

  /** A call on a record: one of the three lazy accessors, or the
      conversion `AsyncRecord::from`. */
  datatype Call = CallMsg | CallFormatted | CallTsUtc | CallConvert

  datatype Answer = Text(text: string) | Time(time: UtcTime) | Converted

  /** Only a sync record can be converted, and a converted record is
      async for good: a run converts at most once, and not at all when it
      starts async. */
  predicate ValidCalls(r: Record, calls: seq<Call>) {
    if r.SyncRecord? then multiset(calls)[CallConvert] <= 1 else CallConvert !in calls
  }

  /** One call and its answer. */
  function Step(r: Record, call: Call, env: Env): (res: (Record, Answer))
    requires call == CallConvert ==> r.SyncRecord?
    ensures res.0.meta == r.meta && Extends(r.cell, res.0.cell)
    ensures call != CallConvert ==> res.0.SyncRecord? == r.SyncRecord?
    ensures call == CallConvert ==> res.0.AsyncRecord?
    ensures call == CallFormatted ==> res.1.Text? && res.0.cell.formatted == Some(res.1.text)
  {
    match call
    case CallMsg => var (r1, s) := Msg(r, env); (r1, Text(s))
    case CallFormatted => var (r1, s) := Formatted(r, env); (r1, Text(s))
    case CallTsUtc => var (r1, t) := TsUtc(r, env); (r1, Time(t))
    case CallConvert => (ToAsync(r, env.render), Converted)
  }

  lemma ValidCallsTail(r: Record, calls: seq<Call>, env: Env)
    requires |calls| > 0 && ValidCalls(r, calls)
    ensures calls[0] == CallConvert ==> r.SyncRecord?
    ensures calls[0] == CallConvert ==> ValidCalls(Step(r, calls[0], env).0, calls[1..])
    ensures calls[0] != CallConvert ==> ValidCalls(Step(r, calls[0], env).0, calls[1..])
  {
    assert calls == [calls[0]] + calls[1..];
    assert multiset(calls) == multiset([calls[0]]) + multiset(calls[1..]);
  }

  /** The record after the calls, and the answer to each call in order. */
  function Run(r: Record, calls: seq<Call>, env: Env): (res: (Record, seq<Answer>))
    requires ValidCalls(r, calls)
    ensures |res.1| == |calls|
    ensures res.0.meta == r.meta && Extends(r.cell, res.0.cell)
    decreases |calls|
  {
    if |calls| == 0 then (r, [])
    else
      ValidCallsTail(r, calls, env);
      var (r1, a) := Step(r, calls[0], env);
      var (r2, rest) := Run(r1, calls[1..], env);
      ExtendsTransitive(r.cell, r1.cell, r2.cell);
      (r2, [a] + rest)
  }

  /** Whatever the calls, the eager getters answer as before. */
  lemma RunKeepsGetters(r: Record, calls: seq<Call>, env: Env)
    requires ValidCalls(r, calls)
    ensures var f := Run(r, calls, env).0;
      Level(f) == Level(r) && ModuleName(f) == ModuleName(r) && File(f) == File(r)
      && Line(f) == Line(r) && Ts(f) == Ts(r)
  { }

  /** Consistency and the record's message survive every call. */
  lemma {:induction false} RunConsistent(r: Record, calls: seq<Call>, env: Env)
    requires ValidCalls(r, calls) && Consistent(r, env)
    ensures Consistent(Run(r, calls, env).0, env)
    ensures MessageOf(Run(r, calls, env).0, env.render) == MessageOf(r, env.render)
    decreases |calls|
  {
    if |calls| > 0 {
      ValidCallsTail(r, calls, env);
      StepConsistent(r, calls[0], env);
      RunConsistent(Step(r, calls[0], env).0, calls[1..], env);
    }
  }

  lemma StepConsistent(r: Record, call: Call, env: Env)
    requires call == CallConvert ==> r.SyncRecord?
    requires Consistent(r, env)
    ensures Consistent(Step(r, call, env).0, env)
    ensures MessageOf(Step(r, call, env).0, env.render) == MessageOf(r, env.render)
    ensures call == CallMsg ==> Step(r, call, env).1 == Text(MessageOf(r, env.render))
    ensures call == CallTsUtc ==> Step(r, call, env).1 == Time(UtcOf(r.meta.ts, env.toUtc))
  {
    match call
    case CallMsg => MsgAnswer(r, env);
    case CallFormatted => FormattedConsistent(r, env);
    case CallTsUtc => TsUtcAnswer(r, env);
    case CallConvert => ToAsyncKeepsRecord(r, env);
  }

  /** Every `msg` of a run, before or after conversion, answers the
      message of the record the run started from. */
  lemma {:induction false} RunMessages(r: Record, calls: seq<Call>, env: Env)
    requires ValidCalls(r, calls) && Consistent(r, env)
    ensures forall i :: 0 <= i < |calls| && calls[i] == CallMsg ==>
      Run(r, calls, env).1[i] == Text(MessageOf(r, env.render))
    decreases |calls|
  {
    if |calls| > 0 {
      ValidCallsTail(r, calls, env);
      StepConsistent(r, calls[0], env);
      var r1 := Step(r, calls[0], env).0;
      RunMessages(r1, calls[1..], env);
      assert forall i :: 1 <= i < |calls| ==> Run(r, calls, env).1[i] == Run(r1, calls[1..], env).1[i - 1];
    }
  }

  /** Every `ts_utc` of a run answers the converted timestamp. */
  lemma {:induction false} RunTimes(r: Record, calls: seq<Call>, env: Env)
    requires ValidCalls(r, calls) && Consistent(r, env)
    ensures forall i :: 0 <= i < |calls| && calls[i] == CallTsUtc ==>
      Run(r, calls, env).1[i] == Time(UtcOf(r.meta.ts, env.toUtc))
    decreases |calls|
  {
    if |calls| > 0 {
      ValidCallsTail(r, calls, env);
      StepConsistent(r, calls[0], env);
      var r1 := Step(r, calls[0], env).0;
      RunTimes(r1, calls[1..], env);
      assert forall i :: 1 <= i < |calls| ==> Run(r, calls, env).1[i] == Run(r1, calls[1..], env).1[i - 1];
    }
  }

  /** Every `formatted` of a run answers the text the cell holds at the
      end: the formatter's output is stored by the first call and returned
      unchanged by every later one, across a conversion too. */
  lemma {:induction false} RunFormattedStored(r: Record, calls: seq<Call>, env: Env)
    requires ValidCalls(r, calls)
    ensures forall i :: 0 <= i < |calls| && calls[i] == CallFormatted ==>
      Run(r, calls, env).1[i].Text?
      && Run(r, calls, env).0.cell.formatted == Some(Run(r, calls, env).1[i].text)
    decreases |calls|
  {
    if |calls| > 0 {
      ValidCallsTail(r, calls, env);
      var r1 := Step(r, calls[0], env).0;
      RunFormattedStored(r1, calls[1..], env);
      assert forall i :: 1 <= i < |calls| ==> Run(r, calls, env).1[i] == Run(r1, calls[1..], env).1[i - 1];
    }
  }

  /** Any two `formatted` calls of a run answer the same text. */
  lemma RunFormattedAgree(r: Record, calls: seq<Call>, env: Env, i: nat, j: nat)
    requires ValidCalls(r, calls)
    requires i < |calls| && j < |calls| && calls[i] == CallFormatted && calls[j] == CallFormatted
    ensures Run(r, calls, env).1[i] == Run(r, calls, env).1[j]
  {
    RunFormattedStored(r, calls, env);
  }

  /** A formatted text already stored is what every `formatted` answers. */
  lemma RunFormattedKeepsStored(r: Record, calls: seq<Call>, env: Env, i: nat)
    requires ValidCalls(r, calls) && r.cell.formatted.Some?
    requires i < |calls| && calls[i] == CallFormatted
    ensures Run(r, calls, env).1[i] == Text(r.cell.formatted.value)
  {
    RunFormattedStored(r, calls, env);
  }

  /** From a new record, every `msg` renders its arguments and every
      `ts_utc` converts its timestamp. */
  lemma FreshRun(r: Record, calls: seq<Call>, env: Env, i: nat)
    requires r.SyncRecord? && r.cell == NewCell() && ValidCalls(r, calls) && i < |calls|
    ensures calls[i] == CallMsg ==> Run(r, calls, env).1[i] == Text(env.render(r.args))
    ensures calls[i] == CallTsUtc ==> Run(r, calls, env).1[i] == Time(UtcOf(r.meta.ts, env.toUtc))
  {
    RunMessages(r, calls, env);
    RunTimes(r, calls, env);
  }
}
