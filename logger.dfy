/** The level-threshold logger of the billing app: a logger holds a minimum
    level that `setLevel` changes, writes each entry at or above it to the
    console with a bracketed prefix, and returns the entry. The console is an
    object every logger of a family shares; the clock is the parameter
    `time`, the text `new Date().toISOString()` would give. */
module Logger {
  import opened Wrappers
  import Json
  import Seqs
  import Text

  datatype Level = Debug | Info | Warn | Error | Silent

  /** The `rank` table. */
  function Rank(l: Level): nat {
    match l
    case Debug => 10
    case Info => 20
    case Warn => 30
    case Error => 40
    case Silent => 99
  }

  /** The ranks climb strictly from debug to silent, so no two levels share
      one and the threshold order is the order of the type's constructors. */
  lemma RankStrictlyIncreasing(a: Level, b: Level)
    ensures Rank(Debug) < Rank(Info) < Rank(Warn) < Rank(Error) < Rank(Silent)
    ensures Rank(a) == Rank(b) <==> a == b
  {
  }

  /** The level as the string the source spells it. */
  function Name(l: Level): string {
    match l
    case Debug => "debug"
    case Info => "info"
    case Warn => "warn"
    case Error => "error"
    case Silent => "silent"
  }

  /** `if (rank[level] < rank[currentLevel]) return;` negated: the entry
      goes out when its level ranks at least the threshold. */
  predicate Emits(level: Level, current: Level) {
    Rank(level) >= Rank(current)
  }

  /** A threshold lets through its own level and everything above it, and
      at "silent" none of the four logging levels gets through. */
  lemma EmitsThreshold(level: Level, current: Level, higher: Level)
    ensures Emits(current, current)
    ensures Emits(level, current) && Rank(level) <= Rank(higher) ==> Emits(higher, current)
    ensures level != Silent ==> !Emits(level, Silent)
    ensures Emits(level, Debug)
  {
  }

  /** `${value}` between brackets. */
  function Bracket(s: string): string {
    "[" + s + "]"
  }

  /** `app && \`[${app}]\``: an absent or empty tag is falsy and becomes
      "" here. */
  function TagPart(tag: Option<string>): string {
    if tag.Some? && tag.value != "" then Bracket(tag.value) else ""
  }

  /** `lvl && \`[${lvl.toUpperCase()}]\``. */
  function LevelPart(lvl: Option<Level>): string {
    if lvl.Some? then Bracket(Text.Upper(Name(lvl.value))) else ""
  }

  /** `Boolean` on a string: only "" is falsy. */
  function NonEmpty(s: string): bool {
    s != ""
  }

  /** `prefix(ts, app, ctx, lvl)`: the four parts, the falsy ones dropped,
      joined with single spaces. */
  function Prefix(ts: string, app: Option<string>, ctx: Option<string>, lvl: Option<Level>): string {
    Text.Join(Seqs.Filter([Bracket(ts), TagPart(app), TagPart(ctx), LevelPart(lvl)], NonEmpty), " ")
  }

  /** The bracketed tag of a part that is present and non-empty, and nothing
      otherwise. */
  function Tags(tag: Option<string>): seq<string> {
    if tag.Some? && tag.value != "" then ["[" + tag.value + "]"] else []
  }

  /** The bracketed upper-cased level, when there is one. */
  function LevelTags(lvl: Option<Level>): seq<string> {
    if lvl.Some? then ["[" + ShoutedName(lvl.value) + "]"] else []
  }

  /** The upper-cased names of the levels. */
  function ShoutedName(l: Level): string {
    match l
    case Debug => "DEBUG"
    case Info => "INFO"
    case Warn => "WARN"
    case Error => "ERROR"
    case Silent => "SILENT"
  }

  /** The prefix is the time, then the app, the context and the level that
      are present, in that order, each in brackets and one space apart. */
  lemma PrefixParts(ts: string, app: Option<string>, ctx: Option<string>, lvl: Option<Level>)
    ensures Prefix(ts, app, ctx, lvl)
            == Text.Join(["[" + ts + "]"] + (Tags(app) + (Tags(ctx) + LevelTags(lvl))), " ")
  {
    PartsKept(ts, app, ctx, lvl);
  }

  lemma PartsKept(ts: string, app: Option<string>, ctx: Option<string>, lvl: Option<Level>)
    ensures Seqs.Filter([Bracket(ts), TagPart(app), TagPart(ctx), LevelPart(lvl)], NonEmpty)
            == ["[" + ts + "]"] + (Tags(app) + (Tags(ctx) + LevelTags(lvl)))
  {
    var a, b, c, d := Bracket(ts), TagPart(app), TagPart(ctx), LevelPart(lvl);
    if lvl.Some? {
      UpperName(lvl.value);
    }
    FilterFour(a, b, c, d);
    assert Kept(a) == ["[" + ts + "]"];
    assert Kept(b) == Tags(app);
    assert Kept(c) == Tags(ctx);
    assert Kept(d) == LevelTags(lvl);
  }

  lemma FilterFour(a: string, b: string, c: string, d: string)
    ensures Seqs.Filter([a, b, c, d], NonEmpty) == Kept(a) + (Kept(b) + (Kept(c) + Kept(d)))
  {
    Seqs.FilterFour(a, b, c, d, NonEmpty);
  }

  /** A part as `filter(Boolean)` keeps it. */
  function Kept(p: string): seq<string> {
    if NonEmpty(p) then [p] else []
  }

  lemma UpperName(l: Level)
    ensures Text.Upper(Name(l)) == ShoutedName(l)
  {
    var u := Text.Upper(Name(l));
    assert |u| == |ShoutedName(l)|;
    forall i | 0 <= i < |u| ensures u[i] == ShoutedName(l)[i] {
      assert u[i] == Text.UpperChar(Name(l)[i]);
    }
  }

  /** The prefix always starts with the bracketed time. */
  lemma PrefixStartsWithTime(ts: string, app: Option<string>, ctx: Option<string>, lvl: Option<Level>)
    ensures Text.StartsWith(Prefix(ts, app, ctx, lvl), "[" + ts + "]")
  {
    PrefixParts(ts, app, ctx, lvl);
    JoinHead("[" + ts + "]", Tags(app) + (Tags(ctx) + LevelTags(lvl)), " ");
  }

  /** The app-wide logger's warnings carry the time, the app and the level;
      an empty context is dropped like an absent one. */
  lemma AppWarnPrefix(ts: string)
    ensures Prefix(ts, Some("MyApp"), Some(""), Some(Warn)) == "[" + ts + "] [MyApp] [WARN]"
  {
    PrefixParts(ts, Some("MyApp"), Some(""), Some(Warn));
    assert "[" + "MyApp" + "]" == "[MyApp]";
    assert "[" + ShoutedName(Warn) + "]" == "[WARN]";
    var parts := ["[" + ts + "]"] + (Tags(Some("MyApp")) + (Tags(Some("")) + LevelTags(Some(Warn))));
    assert parts == ["[" + ts + "]", "[MyApp]", "[WARN]"];
    assert parts[1..] == ["[MyApp]", "[WARN]"];
    assert parts[1..][1..] == ["[WARN]"];
    assert Text.Join(parts[1..], " ") == "[MyApp] [WARN]";
    assert "[" + ts + "]" + " " + "[MyApp] [WARN]" == "[" + ts + "] [MyApp] [WARN]";
  }

  lemma JoinHead(head: string, rest: seq<string>, sep: string)
    ensures Text.StartsWith(Text.Join([head] + rest, sep), head)
  {
    if rest != [] {
      assert ([head] + rest)[1..] == rest;
    }
  }

  /** The console method: `log` for debug, the level's own name otherwise. */
  function ConsoleMethod(l: Level): string {
    if l == Debug then "log" else Name(l)
  }

  /** The record `emit` returns; `data` is `None` when it is `undefined`. */
  datatype LogEntry = LogEntry(time: string, level: Level, app: Option<string>, context: Option<string>,
                               message: string, data: Option<Json.Json>)

  /** One call `console[method](text)` or `console[method](text, data)`. */
  datatype ConsoleCall = ConsoleCall(channel: string, text: string, data: Option<Json.Json>)

  /** The `LoggerOptions` the logger reads: `transport` is never called and
      is not part of this model. */
  datatype Options = Options(app: Option<string>, context: Option<string>, level: Option<Level>)

  /** `Partial<LoggerOptions>` given to `child`: the outer `None` is a key
      the object lacks, `Some(None)` a key set to `undefined`. */
  datatype Extra = Extra(app: Option<Option<string>>, context: Option<Option<string>>, level: Option<Option<Level>>)

  /** `{ ...options, ...extra, level }`: a key of `extra` overrides, even
      when its value is `undefined`. */
  function Spread(options: Options, extra: Extra, level: Level): Options {
    Options(if extra.app.Some? then extra.app.value else options.app,
            if extra.context.Some? then extra.context.value else options.context,
            Some(level))
  }

  /** The spread sets the level last, so the child's level is the one given
      whatever `extra.level` holds, and `extra` keys override the parent's. */
  lemma SpreadIgnoresExtraLevel(options: Options, app: Option<Option<string>>, ctx: Option<Option<string>>,
                                x: Option<Option<Level>>, y: Option<Option<Level>>, level: Level)
    ensures Spread(options, Extra(app, ctx, x), level) == Spread(options, Extra(app, ctx, y), level)
    ensures Spread(options, Extra(app, ctx, x), level).level == Some(level)
    ensures app.Some? ==> Spread(options, Extra(app, ctx, x), level).app == app.value
    ensures app.None? ==> Spread(options, Extra(app, ctx, x), level).app == options.app
    ensures ctx.Some? ==> Spread(options, Extra(app, ctx, x), level).context == ctx.value
    ensures ctx.None? ==> Spread(options, Extra(app, ctx, x), level).context == options.context
  {
  }

  /** The global console, as the list of calls made to it. */
  class Console {
    var calls: seq<ConsoleCall>

    constructor()
      ensures calls == []
    {
      calls := [];
    }
  }

  /** The text written for an entry: `${p} ${message}`. */
  function Line(time: string, app: Option<string>, ctx: Option<string>, level: Level, message: string): string {
    Prefix(time, app, ctx, Some(level)) + " " + message
  }

  /** What `createLogger(options)` returns, with its closure. */
  class Log {
    const options: Options
    var currentLevel: Level
    const console: Console

    /** `createLogger(options)`: the level defaults to "info". */
    constructor(options: Options, console: Console)
      ensures this.options == options && this.console == console
      ensures currentLevel == if options.level.Some? then options.level.value else Info
    {
      this.options := options;
      this.console := console;
      currentLevel := if options.level.Some? then options.level.value else Info;
    }

    /** `setLevel(level)`. */
    method SetLevel(level: Level)
      modifies this
      ensures currentLevel == level
    {
      currentLevel := level;
    }

    /** `getLevel()`: the last level set. */
    method GetLevel() returns (level: Level)
      ensures level == currentLevel
    {
      level := currentLevel;
    }

    /** `child(extra)`: a new logger on the same console, with the options
        spread over by `extra` but the parent's current level whatever
        `extra.level` says. */
    method Child(extra: Extra) returns (c: Log)
      ensures fresh(c)
      ensures c.options == Spread(options, extra, currentLevel)
      ensures c.currentLevel == currentLevel && c.console == console
    {
      c := new Log(Spread(options, extra, currentLevel), console);
    }

    /** `emit(level, message, data)`: below the threshold nothing is written
        and `undefined` is returned; otherwise one console call is made and
        the entry is returned. */
    method Emit(level: Level, message: string, data: Option<Json.Json>, time: string) returns (r: Option<LogEntry>)
      modifies console
      ensures r.Some? <==> Emits(level, currentLevel)
      ensures r.Some? ==> r.value == LogEntry(time, level, options.app, options.context, message, data)
      ensures console.calls == old(console.calls)
                               + if r.Some?
                                 then [ConsoleCall(ConsoleMethod(level), Line(time, options.app, options.context, level, message), data)]
                                 else []
    {
      if Rank(level) < Rank(currentLevel) {
        return None;
      }
      var p := Prefix(time, options.app, options.context, Some(level));
      var channel := if level == Debug then "log" else Name(level);
      console.calls := console.calls + [ConsoleCall(channel, p + " " + message, data)];
      r := Some(LogEntry(time, level, options.app, options.context, message, data));
    }

    method LogDebug(message: string, data: Option<Json.Json>, time: string) returns (r: Option<LogEntry>)
      modifies console
      ensures r.Some? <==> Emits(Debug, currentLevel)
      ensures r.Some? ==> r.value == LogEntry(time, Debug, options.app, options.context, message, data)
      ensures console.calls == old(console.calls)
                               + if r.Some?
                                 then [ConsoleCall("log", Line(time, options.app, options.context, Debug, message), data)]
                                 else []
    {
      r := Emit(Debug, message, data, time);
    }

    method LogInfo(message: string, data: Option<Json.Json>, time: string) returns (r: Option<LogEntry>)
      modifies console
      ensures r.Some? <==> Emits(Info, currentLevel)
      ensures r.Some? ==> r.value == LogEntry(time, Info, options.app, options.context, message, data)
      ensures console.calls == old(console.calls)
                               + if r.Some?
                                 then [ConsoleCall("info", Line(time, options.app, options.context, Info, message), data)]
                                 else []
    {
      r := Emit(Info, message, data, time);
    }

    method LogWarn(message: string, data: Option<Json.Json>, time: string) returns (r: Option<LogEntry>)
      modifies console
      ensures r.Some? <==> Emits(Warn, currentLevel)
      ensures r.Some? ==> r.value == LogEntry(time, Warn, options.app, options.context, message, data)
      ensures console.calls == old(console.calls)
                               + if r.Some?
                                 then [ConsoleCall("warn", Line(time, options.app, options.context, Warn, message), data)]
                                 else []
    {
      r := Emit(Warn, message, data, time);
    }

    method LogError(message: string, data: Option<Json.Json>, time: string) returns (r: Option<LogEntry>)
      modifies console
      ensures r.Some? <==> Emits(Error, currentLevel)
      ensures r.Some? ==> r.value == LogEntry(time, Error, options.app, options.context, message, data)
      ensures console.calls == old(console.calls)
                               + if r.Some?
                                 then [ConsoleCall("error", Line(time, options.app, options.context, Error, message), data)]
                                 else []
    {
      r := Emit(Error, message, data, time);
    }
  }

  /** The app-wide `logger`: app "MyApp" at level "info". */
  method AppLogger(console: Console) returns (l: Log)
    ensures fresh(l) && l.console == console
    ensures l.options == Options(Some("MyApp"), None, Some(Info)) && l.currentLevel == Info
  {
    l := new Log(Options(Some("MyApp"), None, Some(Info)), console);
  }

  /** A child's `setLevel` leaves its parent's level alone, and the child
      starts at the parent's level even when `extra` names another. */
  method ChildLevelIsOwn(parent: Log, extra: Extra, level: Level) returns (c: Log)
    ensures fresh(c) && c.currentLevel == level
    ensures parent.currentLevel == old(parent.currentLevel)
  {
    c := parent.Child(extra);
    assert c.currentLevel == parent.currentLevel;
    c.SetLevel(level);
  }
}
