/** A log record and its lazily computed parts (`record/record.rs`).

    A record carries eager metadata (level, module, file, line, timestamp)
    and a memo cell of three parts computed on first use: the rendered
    message, the formatter's output and the timestamp as a UTC date-time.
    The cell is modelled as a value and every lazy accessor as a pure
    transition that returns the new cell with its answer; the mutex and the
    reference counting around it are not modelled. Rendering the format
    arguments, converting a timestamp and formatting a record are foreign
    code, so they are the function-typed fields of `Env`. */
module Record {
  import opened Wrappers
  import opened Ints
  import opened Levels

  /** `time::Timespec`: seconds and nanoseconds since the Unix epoch. */
  datatype Timespec = Timespec(sec: I64, nsec: I32)

  /** `chrono::DateTime<UTC>`; what it holds is chrono's business. */
  datatype UtcTime = UtcTime(secs: int, nanos: nat)

  /** `fmt::Arguments`: the literal pieces of a format string and the
      arguments between them. Only `Env.render` looks inside. */
  datatype Args = Args(pieces: seq<string>, arguments: seq<string>)

  /** `RecordMeta`: the parts of a record fixed when it is created. */
  datatype RecordMeta = RecordMeta(level: LogLevel, moduleName: string, file: string, line: U32, ts: Timespec)

  /** `RecordLazyMetaInner`: each part is absent until first asked for. */
  datatype Cell = Cell(msg: Option<string>, formatted: Option<string>, tsUtc: Option<UtcTime>)

  /** `SyncRecord` (it still holds the format arguments) and `AsyncRecord`
      (its message rendered once, so it may outlive the arguments). Both
      own a lazy cell; conversion hands the cell over. */
  datatype Record =
    | SyncRecord(meta: RecordMeta, args: Args, cell: Cell)
    | AsyncRecord(meta: RecordMeta, text: string, cell: Cell)

  /** The foreign code a record calls:
      `render`  writes `fmt::Arguments` into a `String`; it is total here,
                although `write_fmt(..).unwrap()` panics on a `fmt::Error`;
      `toUtc`   is chrono's `NaiveDateTime::from_timestamp` followed by
                `DateTime::from_utc`, given seconds and unsigned nanoseconds;
      `format`  is the record's `Formatter`, applied to the record as it is. */
  datatype Env = Env(
    render: Args -> string,
    toUtc: (I64, U32) -> UtcTime,
    format: Record -> string)

  // ---------------------------------------------------------------------
  // The lazy cell

  /** `RecordLazyMetaInner::new`. */
  function NewCell(): (c: Cell)
    ensures c.msg.None? && c.formatted.None? && c.tsUtc.None?
  {
    Cell(None, None, None)
  }

  /** `d` keeps every part `c` already has: parts are never recomputed or
      dropped. */
  predicate Extends(c: Cell, d: Cell) {
    && (c.msg.Some? ==> d.msg == c.msg)
    && (c.formatted.Some? ==> d.formatted == c.formatted)
    && (c.tsUtc.Some? ==> d.tsUtc == c.tsUtc)
  }

  lemma ExtendsTransitive(a: Cell, b: Cell, c: Cell)
    requires Extends(a, b) && Extends(b, c)
    ensures Extends(a, c)
  { }

  /** `RecordLazyMetaInner::mk_msg`: render the message unless it is there. */
  function MkMsg(c: Cell, args: Args, render: Args -> string): (d: Cell)
    ensures d.msg.Some? && Extends(c, d)
    ensures c.msg.None? ==> d.msg == Some(render(args))
    ensures d.formatted == c.formatted && d.tsUtc == c.tsUtc
  {
    if c.msg.None? then c.(msg := Some(render(args))) else c
  }

  lemma MkMsgIdempotent(c: Cell, args: Args, render: Args -> string)
    ensures MkMsg(MkMsg(c, args, render), args, render) == MkMsg(c, args, render)
  { }

  /** The `nsec as u32` cast: two's-complement reinterpretation, so a
      negative `i32` becomes a value of 2^31 or more. */
  function NsecAsU32(nsec: I32): (u: U32)
    ensures 0 <= nsec ==> u == nsec
    ensures nsec < 0 ==> u == nsec + 0x1_0000_0000 && u >= 0x8000_0000
  {
    nsec % 0x1_0000_0000
  }

  /** The UTC date-time of a timestamp, as `mk_ts_utc` computes it. */
  function UtcOf(ts: Timespec, toUtc: (I64, U32) -> UtcTime): UtcTime {
    toUtc(ts.sec, NsecAsU32(ts.nsec))
  }

  /** `RecordLazyMetaInner::mk_ts_utc`: convert the timestamp unless the
      conversion is there. */
  function MkTsUtc(c: Cell, meta: RecordMeta, toUtc: (I64, U32) -> UtcTime): (d: Cell)
    ensures d.tsUtc.Some? && Extends(c, d)
    ensures c.tsUtc.None? ==> d.tsUtc == Some(toUtc(meta.ts.sec, NsecAsU32(meta.ts.nsec)))
    ensures d.msg == c.msg && d.formatted == c.formatted
  {
    if c.tsUtc.None? then c.(tsUtc := Some(UtcOf(meta.ts, toUtc))) else c
  }

  lemma MkTsUtcIdempotent(c: Cell, meta: RecordMeta, toUtc: (I64, U32) -> UtcTime)
    ensures MkTsUtc(MkTsUtc(c, meta, toUtc), meta, toUtc) == MkTsUtc(c, meta, toUtc)
  { }

  /** Of the metadata, only the timestamp matters to the conversion. */
  lemma MkTsUtcReadsOnlyTs(c: Cell, m1: RecordMeta, m2: RecordMeta, toUtc: (I64, U32) -> UtcTime)
    requires m1.ts == m2.ts
    ensures MkTsUtc(c, m1, toUtc) == MkTsUtc(c, m2, toUtc)
  { }

  /** `RecordLazyMeta::msg`: make sure the message is there and return it. */
  function LazyMsg(c: Cell, args: Args, render: Args -> string): (r: (Cell, string))
    ensures r.0 == MkMsg(c, args, render) && r.0.msg == Some(r.1)
    ensures c.msg.Some? ==> r.1 == c.msg.value
    ensures c.msg.None? ==> r.1 == render(args)
  {
    var d := MkMsg(c, args, render);
    (d, d.msg.value)
  }

  /** `RecordLazyMeta::formatted`, for `rec` the record that owns `c`: if
      nothing is stored, format the record, store the text and return it;
      otherwise return what is stored and change nothing. */
  function LazyFormatted(c: Cell, rec: Record, format: Record -> string): (r: (Cell, string))
    ensures r.0.formatted == Some(r.1) && Extends(c, r.0)
    ensures r.0.msg == c.msg && r.0.tsUtc == c.tsUtc
    ensures c.formatted.Some? ==> r.0 == c
    ensures c.formatted.None? ==> r.1 == format(rec)
  {
    if c.formatted.None? then
      var s := format(rec);
      (c.(formatted := Some(s)), s)
    else
      (c, c.formatted.value)
  }

  /** `RecordLazyMeta::ts_utc`: make sure the conversion is there and
      return it. */
  function LazyTsUtc(c: Cell, meta: RecordMeta, toUtc: (I64, U32) -> UtcTime): (r: (Cell, UtcTime))
    ensures r.0 == MkTsUtc(c, meta, toUtc) && r.0.tsUtc == Some(r.1)
    ensures c.tsUtc.Some? ==> r.1 == c.tsUtc.value
    ensures c.tsUtc.None? ==> r.1 == UtcOf(meta.ts, toUtc)
  {
    var d := MkTsUtc(c, meta, toUtc);
    (d, d.tsUtc.value)
  }

  // ---------------------------------------------------------------------
  // Records

  /** `SyncRecord::new`: metadata as given, a fresh cell. */
  function SyncNew(level: LogLevel, moduleName: string, file: string, line: U32, ts: Timespec,
                   args: Args): (r: Record)
    ensures r.SyncRecord? && r.args == args && r.cell == NewCell()
  {
    SyncRecord(RecordMeta(level, moduleName, file, line, ts), args, NewCell())
  }

  /** `Record::level`, the same for both kinds. */
  function Level(r: Record): LogLevel { r.meta.level }

  /** `Record::module`. */
  function ModuleName(r: Record): string { r.meta.moduleName }

  /** `Record::file`. */
  function File(r: Record): string { r.meta.file }

  /** `Record::line`. */
  function Line(r: Record): U32 { r.meta.line }

  /** `Record::ts`. */
  function Ts(r: Record): Timespec { r.meta.ts }

  /** The eager getters of a new record give back what it was created with. */
  lemma NewGetters(level: LogLevel, moduleName: string, file: string, line: U32, ts: Timespec, args: Args)
    ensures var r := SyncNew(level, moduleName, file, line, ts, args);
      Level(r) == level && ModuleName(r) == moduleName && File(r) == file && Line(r) == line && Ts(r) == ts
  { }

  /** `Record::msg`: a sync record renders through its cell; an async
      record returns the message it carries and leaves its cell alone. */
  function Msg(r: Record, env: Env): (res: (Record, string))
    ensures res.0.meta == r.meta && res.0.SyncRecord? == r.SyncRecord?
    ensures Extends(r.cell, res.0.cell)
    ensures r.SyncRecord? ==>
      && res.0.args == r.args && res.0.cell.msg == Some(res.1)
      && res.0.cell.formatted == r.cell.formatted && res.0.cell.tsUtc == r.cell.tsUtc
    ensures r.AsyncRecord? ==> res.0 == r && res.1 == r.text
  {
    match r
    case SyncRecord(meta, args, c) =>
      var (d, s) := LazyMsg(c, args, env.render);
      (SyncRecord(meta, args, d), s)
    case AsyncRecord(_, text, _) =>
      (r, text)
  }

  /** `Record::formatted`: the formatter sees the record as it stands. */
  function Formatted(r: Record, env: Env): (res: (Record, string))
    ensures res.0 == r.(cell := res.0.cell)
    ensures res.0.cell.formatted == Some(res.1) && Extends(r.cell, res.0.cell)
    ensures res.0.cell.msg == r.cell.msg && res.0.cell.tsUtc == r.cell.tsUtc
    ensures r.cell.formatted.Some? ==> res == (r, r.cell.formatted.value)
    ensures r.cell.formatted.None? ==> res.1 == env.format(r)
  {
    var (d, s) := LazyFormatted(r.cell, r, env.format);
    (r.(cell := d), s)
  }

  /** `Record::ts_utc`. */
  function TsUtc(r: Record, env: Env): (res: (Record, UtcTime))
    ensures res.0 == r.(cell := res.0.cell)
    ensures res.0.cell.tsUtc == Some(res.1) && Extends(r.cell, res.0.cell)
    ensures res.0.cell.msg == r.cell.msg && res.0.cell.formatted == r.cell.formatted
    ensures r.cell.tsUtc.Some? ==> res.1 == r.cell.tsUtc.value
    ensures r.cell.tsUtc.None? ==> res.1 == env.toUtc(r.meta.ts.sec, NsecAsU32(r.meta.ts.nsec))
  {
    var (d, t) := LazyTsUtc(r.cell, r.meta, env.toUtc);
    (r.(cell := d), t)
  }

  /** `From<SyncRecord> for AsyncRecord`: render the arguments afresh and
      keep the metadata and the cell, with whatever it already holds. */
  function ToAsync(r: Record, render: Args -> string): (a: Record)
    requires r.SyncRecord?
    ensures a.AsyncRecord? && a.meta == r.meta && a.cell == r.cell
    ensures a.text == render(r.args)
  {
    AsyncRecord(r.meta, render(r.args), r.cell)
  }

  /** The message a record stands for. */
  function MessageOf(r: Record, render: Args -> string): string {
    match r
    case SyncRecord(_, args, _) => render(args)
    case AsyncRecord(_, text, _) => text
  }

  /** What the cell holds agrees with the record: a stored message is the
      record's message and a stored date-time is its timestamp converted.
      (A stored formatter output depends on when it was made, so nothing
      is said about it.) */
  predicate Consistent(r: Record, env: Env) {
    && (r.cell.msg.Some? ==> r.cell.msg.value == MessageOf(r, env.render))
    && (r.cell.tsUtc.Some? ==> r.cell.tsUtc.value == UtcOf(r.meta.ts, env.toUtc))
  }

  lemma NewIsConsistent(level: LogLevel, moduleName: string, file: string, line: U32, ts: Timespec,
                        args: Args, env: Env)
    ensures Consistent(SyncNew(level, moduleName, file, line, ts, args), env)
  { }

  /** On a consistent record, `msg` answers the record's message, whichever
      kind it is and whatever the cell held, and consistency is kept. */
  lemma MsgAnswer(r: Record, env: Env)
    requires Consistent(r, env)
    ensures Msg(r, env).1 == MessageOf(r, env.render)
    ensures Consistent(Msg(r, env).0, env) && MessageOf(Msg(r, env).0, env.render) == MessageOf(r, env.render)
  { }

  /** On a consistent record, `ts_utc` answers the converted timestamp. */
  lemma TsUtcAnswer(r: Record, env: Env)
    requires Consistent(r, env)
    ensures TsUtc(r, env).1 == UtcOf(r.meta.ts, env.toUtc)
    ensures Consistent(TsUtc(r, env).0, env) && MessageOf(TsUtc(r, env).0, env.render) == MessageOf(r, env.render)
  { }

  lemma FormattedConsistent(r: Record, env: Env)
    requires Consistent(r, env)
    ensures Consistent(Formatted(r, env).0, env) && MessageOf(Formatted(r, env).0, env.render) == MessageOf(r, env.render)
  { }

  /** Asking twice for the formatted text gives the same text and leaves
      the record as the first call left it. */
  lemma FormattedTwice(r: Record, env: Env)
    ensures var (r1, s1) := Formatted(r, env); Formatted(r1, env) == (r1, s1)
  { }

  /** Conversion keeps the record's message, so an async record answers
      `msg` exactly as the sync record would have; the getters and the
      stored parts carry over. */
  lemma ToAsyncKeepsRecord(r: Record, env: Env)
    requires r.SyncRecord? && Consistent(r, env)
    ensures var a := ToAsync(r, env.render);
      && MessageOf(a, env.render) == MessageOf(r, env.render)
      && Consistent(a, env)
      && Msg(a, env).1 == Msg(r, env).1
      && Level(a) == Level(r) && ModuleName(a) == ModuleName(r) && File(a) == File(r)
      && Line(a) == Line(r) && Ts(a) == Ts(r)
      && (r.cell.formatted.Some? ==> Formatted(a, env).1 == r.cell.formatted.value)
      && (r.cell.tsUtc.Some? ==> TsUtc(a, env).1 == r.cell.tsUtc.value)
  { }
}
