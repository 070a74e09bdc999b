/**
  * Launching the native host: the desktop program prints its launch options as a command line in
  * UTF-16; the host splits it, converts every argument to UTF-8 and parses what it has received.
  */
module HostLaunch {
  import opened CommandLine
  import opened Decimals
  import opened WideText
  import opened Wrappers

  // ---------------------------------------------------------------------------------------
  // Numbers the way the host reads them
  // ---------------------------------------------------------------------------------------

  function SkipSpaces(s: string): string {
    if s != [] && (s[0] == ' ' || '\t' <= s[0] <= '\r') then SkipSpaces(s[1..]) else s
  }

  const TWO_64: nat := 0x1_0000_0000_0000_0000

  /** std::stoull: leading spaces, a sign that wraps, then the longest run of digits. */
  function Stoull(s: string): (v: Option<nat>)
    ensures v.Some? ==> v.value < TWO_64
  {
    var t := SkipSpaces(s);
    var negative := t != [] && t[0] == '-';
    var digits := DigitPrefix(if t != [] && (t[0] == '-' || t[0] == '+') then t[1..] else t);
    if digits == [] || DigitsValue(digits) >= TWO_64 then None
    else Some(if negative then (TWO_64 - DigitsValue(digits)) % TWO_64 else DigitsValue(digits))
  }

  lemma StoullInvertsDecimal(n: nat)
    requires n < TWO_64
    ensures Stoull(Decimal(n)) == Some(n)
  {
    DigitsValueOfDecimal(n);
    DigitPrefixOfDigits(Decimal(n));
    assert IsDigit(Decimal(n)[0]);
  }

  // ---------------------------------------------------------------------------------------
  // The launch options of the desktop program
  // ---------------------------------------------------------------------------------------

  datatype ConverterMode = Disabled | BuiltInFb2Cng

  datatype LaunchOptions = LaunchOptions(
    executablePath: string,
    pipePath: string,
    libraryRoot: string,
    hostLogFilePath: Option<string>,
    converterWorkingDirectory: Option<string>,
    managedStorageStagingRoot: Option<string>,
    shutdownEventName: Option<string>,
    createNew: bool,
    parentProcessId: Option<int>,
    parentProcessCreatedAtUnixMs: Option<int>,
    serveOneSession: bool,
    maxSessions: Option<int>,
    converterMode: ConverterMode,
    fb2CngExecutablePath: Option<string>,
    fb2CngConfigPath: Option<string>)

  /** char.IsWhiteSpace. */
  predicate IsWhiteSpace(c: char) {
    || '\t' <= c <= '\r' || c == ' ' || c == '\U{0085}' || c == '\U{00A0}' || c == '\U{1680}'
    || '\U{2000}' <= c <= '\U{200A}' || c == '\U{2028}' || c == '\U{2029}' || c == '\U{202F}'
    || c == '\U{205F}' || c == '\U{3000}'
  }

  predicate IsNullOrWhiteSpace(s: Option<string>) {
    s.None? || forall i :: 0 <= i < |s.value| ==> IsWhiteSpace(s.value[i])
  }

  predicate IsSeparator(c: char) {
    c == '\\' || c == '/'
  }

  /** Path.IsPathFullyQualified on Windows. */
  predicate IsPathFullyQualified(p: string) {
    |p| >= 2 &&
    if IsSeparator(p[0]) then p[1] == '?' || IsSeparator(p[1])
    else |p| >= 3 && p[1] == ':' && IsSeparator(p[2]) && ('a' <= p[0] <= 'z' || 'A' <= p[0] <= 'Z')
  }

  predicate IsAbsoluteWhenProvided(p: Option<string>) {
    !IsNullOrWhiteSpace(p) ==> IsPathFullyQualified(p.value)
  }

  const INT32_MAX: nat := 0x7FFF_FFFF
  const INT64_MAX: nat := 0x7FFF_FFFF_FFFF_FFFF

  /** CoreHostLaunchOptions.Validate returns, on fields that hold values of their C# types. */
  predicate IsValid(o: LaunchOptions) {
    && !IsNullOrWhiteSpace(Some(o.executablePath)) && IsPathFullyQualified(o.executablePath)
    && !IsNullOrWhiteSpace(Some(o.pipePath)) && "\\\\.\\pipe\\" <= o.pipePath
    && !IsNullOrWhiteSpace(Some(o.libraryRoot)) && IsPathFullyQualified(o.libraryRoot)
    && IsAbsoluteWhenProvided(o.hostLogFilePath)
    && IsAbsoluteWhenProvided(o.converterWorkingDirectory)
    && IsAbsoluteWhenProvided(o.managedStorageStagingRoot)
    && (o.maxSessions.Some? ==> 0 < o.maxSessions.value <= INT32_MAX)
    && (o.parentProcessId.Some? ==> 0 < o.parentProcessId.value <= INT32_MAX)
    && (o.parentProcessId.Some? <==> o.parentProcessCreatedAtUnixMs.Some?)
    && (o.parentProcessId.Some? ==> 0 < o.parentProcessCreatedAtUnixMs.value <= INT64_MAX)
    && (o.converterMode.BuiltInFb2Cng? ==>
          && !IsNullOrWhiteSpace(o.fb2CngExecutablePath)
          && IsPathFullyQualified(o.fb2CngExecutablePath.value)
          && IsAbsoluteWhenProvided(o.fb2CngConfigPath))
  }

  // ---------------------------------------------------------------------------------------
  // The options the host understands
  // ---------------------------------------------------------------------------------------

  datatype OptionName =
    | Pipe | Help | Version | LibraryRoot | LogFile | ConverterWorkingDir | StagingRoot | ShutdownEvent
    | LibraryMode | ServeOne | ParentPid | ParentStart | MaxSessions | Fb2CngExe | Fb2CngConfig

  function NameText(k: OptionName): string {
    match k
    case Pipe => "--pipe"
    case Help => "--help"
    case Version => "--version"
    case LibraryRoot => "--library-root"
    case LogFile => "--log-file"
    case ConverterWorkingDir => "--converter-working-dir"
    case StagingRoot => "--managed-storage-staging-root"
    case ShutdownEvent => "--shutdown-event"
    case LibraryMode => "--library-mode"
    case ServeOne => "--serve-one"
    case ParentPid => "--parent-pid"
    case ParentStart => "--parent-start-unix-ms"
    case MaxSessions => "--max-sessions"
    case Fb2CngExe => "--fb2cng-exe"
    case Fb2CngConfig => "--fb2cng-config"
  }

  function OptionOf(argument: string): Option<OptionName> {
    if argument == "--pipe" then Some(Pipe)
    else if argument == "--help" || argument == "-h" then Some(Help)
    else if argument == "--version" then Some(Version)
    else if argument == "--library-root" then Some(LibraryRoot)
    else if argument == "--log-file" then Some(LogFile)
    else if argument == "--converter-working-dir" then Some(ConverterWorkingDir)
    else if argument == "--managed-storage-staging-root" then Some(StagingRoot)
    else if argument == "--shutdown-event" then Some(ShutdownEvent)
    else if argument == "--library-mode" then Some(LibraryMode)
    else if argument == "--serve-one" then Some(ServeOne)
    else if argument == "--parent-pid" then Some(ParentPid)
    else if argument == "--parent-start-unix-ms" then Some(ParentStart)
    else if argument == "--max-sessions" then Some(MaxSessions)
    else if argument == "--fb2cng-exe" then Some(Fb2CngExe)
    else if argument == "--fb2cng-config" then Some(Fb2CngConfig)
    else None
  }

  predicate TakesValue(k: OptionName) {
    !k.Help? && !k.Version? && !k.ServeOne?
  }

  datatype HostOptions = HostOptions(
    pipePath: string,
    libraryRoot: string,
    logFilePath: Option<string>,
    converterWorkingDirectory: Option<string>,
    managedStorageStagingRoot: Option<string>,
    shutdownEventName: Option<string>,
    createNew: bool,
    parentProcessId: Option<nat>,
    parentProcessCreatedAtUnixMs: Option<nat>,
    maxSessions: nat,
    showHelp: bool,
    showVersion: bool,
    converterMode: ConverterMode,
    fb2CngExecutablePath: string,
    fb2CngConfigPath: Option<string>)

  const DEFAULTS: HostOptions :=
    HostOptions("", "", None, None, None, None, false, None, None, 0, false, false, Disabled, "", None)

  datatype HostError =
    | UnknownOption(argument: string)
    | MissingValue(name: OptionName)
    | InvalidNumber(name: OptionName)
    | UnsupportedMode
    | MissingRequired(name: OptionName)
    | InvalidConverter
    | ParentHalfGiven

  function ApplyFlag(k: OptionName, o: HostOptions): HostOptions {
    match k
    case Help => o.(showHelp := true)
    case Version => o.(showVersion := true)
    case _ => o.(maxSessions := 1)
  }

  function PositiveUpTo(v: Option<nat>, limit: nat): Option<nat> {
    if v.None? || v.value == 0 || v.value > limit then None else v
  }

  function ApplyValue(k: OptionName, v: string, o: HostOptions): Result<HostOptions, HostError> {
    match k
    case Pipe => Ok(o.(pipePath := v))
    case LibraryRoot => Ok(o.(libraryRoot := v))
    case LogFile => Ok(o.(logFilePath := Some(v)))
    case ConverterWorkingDir => Ok(o.(converterWorkingDirectory := Some(v)))
    case StagingRoot => Ok(o.(managedStorageStagingRoot := Some(v)))
    case ShutdownEvent => Ok(o.(shutdownEventName := Some(v)))
    case LibraryMode =>
      if v == "open" then Ok(o.(createNew := false))
      else if v == "create" then Ok(o.(createNew := true))
      else Err(UnsupportedMode)
    case ParentPid =>
      var n := PositiveUpTo(Stoull(v), 0xFFFF_FFFF);
      if n.None? then Err(InvalidNumber(k)) else Ok(o.(parentProcessId := n))
    case ParentStart =>
      var n := PositiveUpTo(Stoull(v), INT64_MAX);
      if n.None? then Err(InvalidNumber(k)) else Ok(o.(parentProcessCreatedAtUnixMs := n))
    case MaxSessions =>
      var n := Stoull(v);
      if n.None? then Err(InvalidNumber(k)) else Ok(o.(maxSessions := n.value))
    case Fb2CngExe => Ok(o.(converterMode := BuiltInFb2Cng, fb2CngExecutablePath := v))
    case Fb2CngConfig => Ok(o.(converterMode := BuiltInFb2Cng, fb2CngConfigPath := Some(v)))
    case _ => Ok(o)
  }

  function ParseFrom(arguments: seq<string>, o: HostOptions): Result<HostOptions, HostError>
    decreases |arguments|
  {
    if arguments == [] then Ok(o)
    else
      match OptionOf(arguments[0])
      case None => Err(UnknownOption(arguments[0]))
      case Some(k) =>
        if !TakesValue(k) then ParseFrom(arguments[1..], ApplyFlag(k, o))
        else if |arguments| < 2 then Err(MissingValue(k))
        else match ApplyValue(k, arguments[1], o)
             case Err(e) => Err(e)
             case Ok(o') => ParseFrom(arguments[2..], o')
  }

  function CheckComplete(o: HostOptions): Result<HostOptions, HostError> {
    if o.showHelp || o.showVersion then Ok(o)
    else if o.pipePath == "" then Err(MissingRequired(Pipe))
    else if o.libraryRoot == "" then Err(MissingRequired(LibraryRoot))
    else if o.converterMode.BuiltInFb2Cng? && o.fb2CngExecutablePath == "" then Err(InvalidConverter)
    else if o.parentProcessId.Some? != o.parentProcessCreatedAtUnixMs.Some? then Err(ParentHalfGiven)
    else Ok(o)
  }

  /** The value CHostOptions::Parse returns or the exception it throws. */
  function ParsedOptions(arguments: seq<string>): Result<HostOptions, HostError> {
    match ParseFrom(arguments, DEFAULTS)
    case Err(e) => Err(e)
    case Ok(o) => CheckComplete(o)
  }

  method Parse(arguments: seq<string>) returns (r: Result<HostOptions, HostError>)
    ensures r == ParsedOptions(arguments)
  {
    var options := DEFAULTS;
    var index := 0;
    while index < |arguments|
      invariant 0 <= index <= |arguments|
      invariant ParseFrom(arguments[index..], options) == ParseFrom(arguments, DEFAULTS)
    {
      var argument := arguments[index];
      assert arguments[index..][1..] == arguments[index + 1..];
      var name := OptionOf(argument);
      if name.None? {
        return Err(UnknownOption(argument));
      }
      if !TakesValue(name.value) {
        options := ApplyFlag(name.value, options);
        index := index + 1;
        continue;
      }
      if index + 1 >= |arguments| {
        return Err(MissingValue(name.value));
      }
      assert arguments[index..][2..] == arguments[index + 2..];
      var applied := ApplyValue(name.value, arguments[index + 1], options);
      if applied.Err? {
        return Err(applied.error);
      }
      options := applied.value;
      index := index + 2;
    }
    r := CheckComplete(options);
  }

  /**
    * The arguments as the host reads them: converted to UTF-8, and back where they name a path. The
    * parser compares bytes, which is the same as comparing these (SameBytesIffSameReceived).
    */
  function HostArguments(line: string): seq<string> {
    var wide := SplitCommandLine(line);
    seq(|wide|, i requires 0 <= i < |wide| => Received(wide[i]))
  }

  method CollectArguments(line: string) returns (arguments: seq<string>)
    ensures arguments == HostArguments(line)
  {
    var wide := SplitCommandLine(line);
    arguments := [];
    for index := 0 to |wide|
      invariant arguments == HostArguments(line)[..index]
    {
      arguments := arguments + [Received(wide[index])];
    }
  }

  // ---------------------------------------------------------------------------------------
  // Printing the launch options
  // ---------------------------------------------------------------------------------------

  /** One option on the line with the argument that follows it, if it takes one. */
  datatype Setting = Setting(name: OptionName, value: Option<Printed>)

  ghost predicate IsWellPrinted(s: Setting) {
    (s.value.Some? <==> TakesValue(s.name)) && (s.value.Some? ==> ReadsBack(s.value.value))
  }

  function Text(k: OptionName, v: string): Setting {
    Setting(k, Some(Printed(Quoted(v), v)))
  }

  function Bare(k: OptionName, v: string): Setting {
    Setting(k, Some(Printed(v, v)))
  }

  function OptionalText(k: OptionName, v: Option<string>): seq<Setting> {
    if IsNullOrWhiteSpace(v) then [] else [Text(k, v.value)]
  }

  function RequiredPaths(o: LaunchOptions): seq<Setting> {
    [Text(Pipe, o.pipePath)] + [Text(LibraryRoot, o.libraryRoot)]
  }

  function OptionalPaths(o: LaunchOptions): seq<Setting> {
    OptionalText(LogFile, o.hostLogFilePath)
    + OptionalText(ConverterWorkingDir, o.converterWorkingDirectory)
    + OptionalText(StagingRoot, o.managedStorageStagingRoot)
    + OptionalText(ShutdownEvent, o.shutdownEventName)
  }

  function Mode(o: LaunchOptions): seq<Setting> {
    [Bare(LibraryMode, if o.createNew then "create" else "open")]
  }

  function Parent(o: LaunchOptions): seq<Setting>
    requires IsValid(o)
  {
    if o.parentProcessId.None? then []
    else [Bare(ParentPid, Decimal(o.parentProcessId.value))]
         + [Bare(ParentStart, Decimal(o.parentProcessCreatedAtUnixMs.value))]
  }

  function OneSession(o: LaunchOptions): seq<Setting> {
    if o.serveOneSession then [Setting(ServeOne, None)] else []
  }

  function SessionLimit(o: LaunchOptions): seq<Setting>
    requires IsValid(o)
  {
    if o.maxSessions.Some? then [Bare(MaxSessions, Decimal(o.maxSessions.value))] else []
  }

  function Modes(o: LaunchOptions): seq<Setting>
    requires IsValid(o)
  {
    (Mode(o) + Parent(o)) + (OneSession(o) + SessionLimit(o))
  }

  function Converter(o: LaunchOptions): seq<Setting>
    requires IsValid(o)
  {
    if o.converterMode.BuiltInFb2Cng?
    then [Text(Fb2CngExe, o.fb2CngExecutablePath.value)] + OptionalText(Fb2CngConfig, o.fb2CngConfigPath)
    else []
  }

  function Settings(o: LaunchOptions): seq<Setting>
    requires IsValid(o)
  {
    RequiredPaths(o) + OptionalPaths(o) + Modes(o) + Converter(o)
  }

  /** Both programs are compiled with the same spelling of every option name. */
  type Spelling = OptionName -> string

  function Arguments(settings: seq<Setting>, names: Spelling): seq<Printed> {
    if settings == [] then []
    else
      var s := settings[0];
      [Printed(names(s.name), names(s.name))]
      + (if s.value.Some? then [s.value.value] else []) + Arguments(settings[1..], names)
  }

  function SettingText(s: Setting, names: Spelling): string {
    [' '] + names(s.name) + if s.value.Some? then [' '] + s.value.value.image else []
  }

  lemma {:induction false} LineOfConcat(a: seq<Printed>, b: seq<Printed>)
    ensures Line(a + b) == Line(a) + Line(b)
  {
    if a == [] {
      assert a + b == b;
    } else {
      assert (a + b)[1..] == a[1..] + b;
      LineOfConcat(a[1..], b);
    }
  }

  lemma {:induction false} ArgumentsOfConcat(a: seq<Setting>, b: seq<Setting>, names: Spelling)
    ensures Arguments(a + b, names) == Arguments(a, names) + Arguments(b, names)
  {
    if a == [] {
      assert a + b == b;
    } else {
      assert (a + b)[1..] == a[1..] + b;
      ArgumentsOfConcat(a[1..], b, names);
    }
  }

  function Rendered(settings: seq<Setting>, names: Spelling): string {
    Line(Arguments(settings, names))
  }

  lemma RenderedConcat(a: seq<Setting>, b: seq<Setting>, names: Spelling)
    ensures Rendered(a + b, names) == Rendered(a, names) + Rendered(b, names)
  {
    ArgumentsOfConcat(a, b, names);
    LineOfConcat(Arguments(a, names), Arguments(b, names));
  }

  lemma RenderedOne(s: Setting, names: Spelling)
    ensures Rendered([s], names) == SettingText(s, names)
  {
    var name := Printed(names(s.name), names(s.name));
    assert Arguments([s], names) == if s.value.Some? then [name, s.value.value] else [name];
    assert Line([name]) == [' '] + name.image + [] == [' '] + name.image;
    if s.value.Some? {
      assert [name, s.value.value][1..] == [s.value.value];
      assert Line([s.value.value]) == [' '] + s.value.value.image + [] == [' '] + s.value.value.image;
    }
  }

  method AppendText(builder: string, k: OptionName, v: string, names: Spelling) returns (grown: string)
    ensures grown == builder + Rendered([Text(k, v)], names)
  {
    RenderedOne(Text(k, v), names);
    var quoted := Quote(v);
    grown := builder + ([' '] + names(k) + [' ']);
    grown := grown + quoted;
  }

  method AppendBare(builder: string, k: OptionName, v: string, names: Spelling) returns (grown: string)
    ensures grown == builder + Rendered([Bare(k, v)], names)
  {
    RenderedOne(Bare(k, v), names);
    grown := builder + ([' '] + names(k) + [' ']);
    grown := grown + v;
  }

  method AppendFlag(builder: string, k: OptionName, names: Spelling) returns (grown: string)
    ensures grown == builder + Rendered([Setting(k, None)], names)
  {
    RenderedOne(Setting(k, None), names);
    grown := builder + ([' '] + names(k));
  }

  method AppendOptionalText(builder: string, k: OptionName, v: Option<string>, names: Spelling) returns (grown: string)
    ensures grown == builder + Rendered(OptionalText(k, v), names)
  {
    grown := builder;
    if !IsNullOrWhiteSpace(v) {
      grown := AppendText(builder, k, v.value, names);
    }
  }

  lemma RenderedParts(o: LaunchOptions, names: Spelling)
    requires IsValid(o)
    ensures Rendered(Settings(o), names) == Rendered(RequiredPaths(o), names) + Rendered(OptionalPaths(o), names) + Rendered(Modes(o), names) + Rendered(Converter(o), names)
  {
    RenderedConcat(RequiredPaths(o), OptionalPaths(o), names);
    RenderedConcat(RequiredPaths(o) + OptionalPaths(o), Modes(o), names);
    RenderedConcat(RequiredPaths(o) + OptionalPaths(o) + Modes(o), Converter(o), names);
  }

  /** BuildArguments prints the settings in order, without a blank before the first. */
  method BuildArguments(o: LaunchOptions, names: Spelling) returns (line: string)
    requires IsValid(o)
    ensures [' '] + line == Rendered(Settings(o), names)
  {
    var required := AppendRequiredPaths(o, names);
    var paths := AppendOptionalPaths(o, required, names);
    var modes := AppendModes(o, paths, names);
    line := AppendConverter(o, modes, names);
    RenderedParts(o, names);
    Associate(required, Rendered(OptionalPaths(o), names), Rendered(Modes(o), names), Rendered(Converter(o), names));
  }

  lemma Associate(start: string, a: string, b: string, c: string)
    ensures [' '] + (start + a + b + c) == [' '] + start + a + b + c
  {
  }

  method AppendRequiredPaths(o: LaunchOptions, names: Spelling) returns (builder: string)
    ensures [' '] + builder == Rendered(RequiredPaths(o), names)
  {
    var quotedPipe := Quote(o.pipePath);
    builder := names(Pipe) + [' '] + quotedPipe;
    var first := Text(Pipe, o.pipePath);
    RenderedOne(first, names);
    assert [' '] + builder == SettingText(first, names);
    RenderedConcat([first], [Text(LibraryRoot, o.libraryRoot)], names);
    builder := AppendText(builder, LibraryRoot, o.libraryRoot, names);
  }

  lemma OptionalPathsRendered(o: LaunchOptions, start: string, names: Spelling)
    ensures start + Rendered(OptionalText(LogFile, o.hostLogFilePath), names)
                  + Rendered(OptionalText(ConverterWorkingDir, o.converterWorkingDirectory), names)
                  + Rendered(OptionalText(StagingRoot, o.managedStorageStagingRoot), names)
                  + Rendered(OptionalText(ShutdownEvent, o.shutdownEventName), names)
         == start + Rendered(OptionalPaths(o), names)
  {
    var a, b := OptionalText(LogFile, o.hostLogFilePath), OptionalText(ConverterWorkingDir, o.converterWorkingDirectory);
    var c, d := OptionalText(StagingRoot, o.managedStorageStagingRoot), OptionalText(ShutdownEvent, o.shutdownEventName);
    RenderedConcat(a, b, names);
    RenderedConcat(a + b, c, names);
    RenderedConcat(a + b + c, d, names);
    FourParts(start, Rendered(a, names), Rendered(b, names), Rendered(c, names), Rendered(d, names));
  }

  lemma FourParts(start: string, a: string, b: string, c: string, d: string)
    ensures start + a + b + c + d == start + (a + b + c + d)
  {
  }

  method AppendOptionalPaths(o: LaunchOptions, start: string, names: Spelling) returns (builder: string)
    ensures builder == start + Rendered(OptionalPaths(o), names)
  {
    OptionalPathsRendered(o, start, names);
    builder := AppendOptionalText(start, LogFile, o.hostLogFilePath, names);
    builder := AppendOptionalText(builder, ConverterWorkingDir, o.converterWorkingDirectory, names);
    builder := AppendOptionalText(builder, StagingRoot, o.managedStorageStagingRoot, names);
    builder := AppendOptionalText(builder, ShutdownEvent, o.shutdownEventName, names);
  }

  method AppendModes(o: LaunchOptions, start: string, names: Spelling) returns (builder: string)
    requires IsValid(o)
    ensures builder == start + Rendered(Modes(o), names)
  {
    builder := AppendModeAndParent(o, start, names);
    builder := AppendSessions(o, builder, names);
    RenderedAfter(start, Mode(o) + Parent(o), OneSession(o) + SessionLimit(o), names);
  }

  lemma RenderedAfter(start: string, a: seq<Setting>, b: seq<Setting>, names: Spelling)
    ensures start + Rendered(a, names) + Rendered(b, names) == start + Rendered(a + b, names)
  {
    RenderedConcat(a, b, names);
  }

  method AppendModeAndParent(o: LaunchOptions, start: string, names: Spelling) returns (builder: string)
    requires IsValid(o)
    ensures builder == start + Rendered(Mode(o) + Parent(o), names)
  {
    builder := AppendBare(start, LibraryMode, if o.createNew then "create" else "open", names);
    builder := AppendParent(o, builder, names);
    RenderedAfter(start, Mode(o), Parent(o), names);
  }

  method AppendSessions(o: LaunchOptions, start: string, names: Spelling) returns (builder: string)
    requires IsValid(o)
    ensures builder == start + Rendered(OneSession(o) + SessionLimit(o), names)
  {
    builder := start;
    if o.serveOneSession {
      builder := AppendFlag(builder, ServeOne, names);
    }
    builder := AppendSessionLimit(o, builder, names);
    RenderedAfter(start, OneSession(o), SessionLimit(o), names);
  }

  method AppendParent(o: LaunchOptions, start: string, names: Spelling) returns (builder: string)
    requires IsValid(o)
    ensures builder == start + Rendered(Parent(o), names)
  {
    builder := start;
    if o.parentProcessId.Some? {
      var pid, created := Decimal(o.parentProcessId.value), Decimal(o.parentProcessCreatedAtUnixMs.value);
      RenderedConcat([Bare(ParentPid, pid)], [Bare(ParentStart, created)], names);
      builder := AppendBare(builder, ParentPid, pid, names);
      builder := AppendBare(builder, ParentStart, created, names);
    }
  }

  method AppendSessionLimit(o: LaunchOptions, start: string, names: Spelling) returns (builder: string)
    requires IsValid(o)
    ensures builder == start + Rendered(SessionLimit(o), names)
  {
    builder := start;
    if o.maxSessions.Some? {
      builder := AppendBare(builder, MaxSessions, Decimal(o.maxSessions.value), names);
    }
  }

  method AppendConverter(o: LaunchOptions, start: string, names: Spelling) returns (builder: string)
    requires IsValid(o)
    ensures builder == start + Rendered(Converter(o), names)
  {
    builder := start;
    match o.converterMode {
      case BuiltInFb2Cng =>
        RenderedConcat([Text(Fb2CngExe, o.fb2CngExecutablePath.value)], OptionalText(Fb2CngConfig, o.fb2CngConfigPath), names);
        builder := AppendText(builder, Fb2CngExe, o.fb2CngExecutablePath.value, names);
        builder := AppendOptionalText(builder, Fb2CngConfig, o.fb2CngConfigPath, names);
      case Disabled =>
    }
  }

  // ---------------------------------------------------------------------------------------
  // The host recovers what the desktop program printed
  // ---------------------------------------------------------------------------------------

  /** Texts that no step on the way to the host changes: no NUL and no unpaired surrogate. */
  predicate Travels(v: string) {
    NUL !in v && IsWellFormedUtf16(v)
  }

  /** The host recognizes each spelling as its own option, and none needs quoting. */
  ghost predicate Spells(names: Spelling) {
    forall k :: OptionOf(names(k)) == Some(k) && IsPlain(names(k)) && Travels(names(k))
  }

  lemma PathNameSpells(k: OptionName)
    requires k.Pipe? || k.Help? || k.Version? || k.LogFile? || k.ConverterWorkingDir? || k.StagingRoot?
    ensures OptionOf(NameText(k)) == Some(k)
  {
  }

  lemma ModeNameSpells(k: OptionName)
    requires k.ShutdownEvent? || k.ServeOne? || k.ParentPid? || k.ParentStart?
    ensures OptionOf(NameText(k)) == Some(k)
  {
  }

  lemma ConverterNameSpells(k: OptionName)
    requires k.Fb2CngExe? || k.Fb2CngConfig?
    ensures OptionOf(NameText(k)) == Some(k)
  {
    assert "--fb2cng-exe"[2] != "--parent-pid"[2];
  }

  lemma LibraryNameSpells(k: OptionName)
    requires k.LibraryRoot? || k.LibraryMode? || k.MaxSessions?
    ensures OptionOf(NameText(k)) == Some(k)
  {
    assert "--library-mode"[10] != "--library-root"[10];
    assert "--max-sessions"[2] != "--library-root"[2];
    assert "--max-sessions"[2] != "--library-mode"[2];
  }

  /** Lower-case words joined by hyphens: all that option names are made of. */
  predicate IsNameText(s: string) {
    s != [] && forall i :: 0 <= i < |s| ==> s[i] == '-' || s[i] == '2' || 'a' <= s[i] <= 'z'
  }

  lemma PathNameIsName(k: OptionName)
    requires k.Pipe? || k.LibraryRoot? || k.LogFile? || k.ConverterWorkingDir? || k.StagingRoot?
    ensures IsNameText(NameText(k))
  {
    match k
    case Pipe => assert IsNameText("--pipe");
    case LibraryRoot => assert IsNameText("--library-root");
    case LogFile => assert IsNameText("--log-file");
    case ConverterWorkingDir => assert IsNameText("--converter-working-dir");
    case StagingRoot => assert IsNameText("--managed-storage-staging-root");
  }

  lemma ModeNameIsName(k: OptionName)
    requires k.ShutdownEvent? || k.LibraryMode? || k.ServeOne? || k.ParentPid? || k.ParentStart?
    ensures IsNameText(NameText(k))
  {
    match k
    case ShutdownEvent => assert IsNameText("--shutdown-event");
    case LibraryMode => assert IsNameText("--library-mode");
    case ServeOne => assert IsNameText("--serve-one");
    case ParentPid => assert IsNameText("--parent-pid");
    case ParentStart => assert IsNameText("--parent-start-unix-ms");
  }

  lemma OtherNameIsName(k: OptionName)
    requires k.Help? || k.Version? || k.MaxSessions? || k.Fb2CngExe? || k.Fb2CngConfig?
    ensures IsNameText(NameText(k))
  {
  }

  lemma NameTextIsName(k: OptionName)
    ensures IsNameText(NameText(k))
  {
    match k
    case Pipe | LibraryRoot | LogFile | ConverterWorkingDir | StagingRoot => PathNameIsName(k);
    case ShutdownEvent | LibraryMode | ServeOne | ParentPid | ParentStart => ModeNameIsName(k);
    case Help | Version | MaxSessions | Fb2CngExe | Fb2CngConfig => OtherNameIsName(k);
  }

  lemma NameTextSpells()
    ensures Spells(NameText)
  {
    forall k: OptionName
      ensures OptionOf(NameText(k)) == Some(k) && IsPlain(NameText(k)) && Travels(NameText(k))
    {
      NameTextIsName(k);
      AsciiIsWellFormedUtf16(NameText(k));
      match k
      case Pipe | Help | Version | LogFile | ConverterWorkingDir | StagingRoot => PathNameSpells(k);
      case ShutdownEvent | ServeOne | ParentPid | ParentStart => ModeNameSpells(k);
      case Fb2CngExe | Fb2CngConfig => ConverterNameSpells(k);
      case LibraryRoot | LibraryMode | MaxSessions => LibraryNameSpells(k);
    }
  }

  function Apply(s: Setting, o: HostOptions): Result<HostOptions, HostError> {
    if s.value.None? then Ok(ApplyFlag(s.name, o)) else ApplyValue(s.name, s.value.value.value, o)
  }

  function ApplyAll(settings: seq<Setting>, o: HostOptions): Result<HostOptions, HostError> {
    if settings == [] then Ok(o)
    else match Apply(settings[0], o)
         case Err(e) => Err(e)
         case Ok(o') => ApplyAll(settings[1..], o')
  }

  /** Parsing the printed arguments applies the settings one after the other. */
  lemma {:induction false} ParseAppliesSettings(settings: seq<Setting>, o: HostOptions, names: Spelling)
    requires Spells(names) && forall s :: s in settings ==> IsWellPrinted(s)
    ensures ParseFrom(Values(Arguments(settings, names)), o) == ApplyAll(settings, o)
  {
    if settings != [] {
      var s := settings[0];
      assert IsWellPrinted(s);
      var all := Values(Arguments(settings, names));
      ArgumentsHead(settings, names);
      ParseHead(all, s, o);
      match Apply(s, o)
      case Err(_) =>
      case Ok(o') => ParseAppliesSettings(settings[1..], o', names);
    }
  }

  lemma ArgumentsHead(settings: seq<Setting>, names: Spelling)
    requires settings != []
    ensures var all := Values(Arguments(settings, names));
            var s := settings[0];
            && all != [] && all[0] == names(s.name)
            && (s.value.None? ==> all[1..] == Values(Arguments(settings[1..], names)))
            && (s.value.Some? ==> |all| >= 2 && all[1] == s.value.value.value
                                  && all[2..] == Values(Arguments(settings[1..], names)))
  {
    var rest := Values(Arguments(settings[1..], names));
    var s := settings[0];
    assert Values(Arguments(settings, names)) ==
           [names(s.name)] + (if s.value.Some? then [s.value.value.value] else []) + rest;
  }

  lemma ParseHead(all: seq<string>, s: Setting, o: HostOptions)
    requires IsWellPrinted(s) && all != [] && OptionOf(all[0]) == Some(s.name)
    requires s.value.Some? ==> |all| >= 2 && all[1] == s.value.value.value
    ensures ParseFrom(all, o) == match Apply(s, o) {
              case Err(e) => Err(e)
              case Ok(o') => ParseFrom(if s.value.None? then all[1..] else all[2..], o') }
  {
  }

  lemma {:induction false} ApplyAllConcat(a: seq<Setting>, b: seq<Setting>, o: HostOptions)
    ensures ApplyAll(a + b, o) ==
            match ApplyAll(a, o) { case Err(e) => Err(e) case Ok(o') => ApplyAll(b, o') }
  {
    if a == [] {
      assert a + b == b;
    } else {
      assert (a + b)[1..] == a[1..] + b;
      match Apply(a[0], o)
      case Err(_) =>
      case Ok(o') => ApplyAllConcat(a[1..], b, o');
    }
  }

  function Provided(v: Option<string>): Option<string> {
    if IsNullOrWhiteSpace(v) then None else v
  }

  /** The host settings that a valid set of launch options asks for. */
  function Requested(o: LaunchOptions): HostOptions
    requires IsValid(o)
  {
    HostOptions(
      o.pipePath,
      o.libraryRoot,
      Provided(o.hostLogFilePath),
      Provided(o.converterWorkingDirectory),
      Provided(o.managedStorageStagingRoot),
      Provided(o.shutdownEventName),
      o.createNew,
      if o.parentProcessId.Some? then Some(o.parentProcessId.value) else None,
      if o.parentProcessId.Some? then Some(o.parentProcessCreatedAtUnixMs.value) else None,
      if o.maxSessions.Some? then o.maxSessions.value else if o.serveOneSession then 1 else 0,
      false,
      false,
      o.converterMode,
      if o.converterMode.BuiltInFb2Cng? then o.fb2CngExecutablePath.value else "",
      if o.converterMode.BuiltInFb2Cng? then Provided(o.fb2CngConfigPath) else None)
  }

  function WithPaths(o: LaunchOptions, h: HostOptions): HostOptions {
    h.(pipePath := o.pipePath,
       libraryRoot := o.libraryRoot,
       logFilePath := Provided(o.hostLogFilePath),
       converterWorkingDirectory := Provided(o.converterWorkingDirectory),
       managedStorageStagingRoot := Provided(o.managedStorageStagingRoot),
       shutdownEventName := Provided(o.shutdownEventName))
  }

  lemma ApplyOne(s: Setting, o: HostOptions)
    ensures ApplyAll([s], o) == Apply(s, o)
  {
  }

  lemma PathsApplied(o: LaunchOptions)
    ensures ApplyAll(RequiredPaths(o) + OptionalPaths(o), DEFAULTS) == Ok(WithPaths(o, DEFAULTS))
  {
    var h1 := DEFAULTS.(pipePath := o.pipePath);
    var h2 := h1.(libraryRoot := o.libraryRoot);
    ApplyOne(Text(Pipe, o.pipePath), DEFAULTS);
    ApplyOne(Text(LibraryRoot, o.libraryRoot), h1);
    ApplyAllConcat([Text(Pipe, o.pipePath)], [Text(LibraryRoot, o.libraryRoot)], DEFAULTS);
    ApplyAllConcat(RequiredPaths(o), OptionalPaths(o), DEFAULTS);
    OptionalPathsApplied(o, h2);
  }

  lemma OptionalPathsApplied(o: LaunchOptions, h2: HostOptions)
    requires h2 == DEFAULTS.(pipePath := o.pipePath, libraryRoot := o.libraryRoot)
    ensures ApplyAll(OptionalPaths(o), h2) == Ok(WithPaths(o, DEFAULTS))
  {
    var a, b := OptionalText(LogFile, o.hostLogFilePath), OptionalText(ConverterWorkingDir, o.converterWorkingDirectory);
    var c, d := OptionalText(StagingRoot, o.managedStorageStagingRoot), OptionalText(ShutdownEvent, o.shutdownEventName);
    var h3 := h2.(logFilePath := Provided(o.hostLogFilePath));
    var h4 := h3.(converterWorkingDirectory := Provided(o.converterWorkingDirectory));
    var h5 := h4.(managedStorageStagingRoot := Provided(o.managedStorageStagingRoot));
    OptionalApplied(LogFile, o.hostLogFilePath, h2);
    OptionalApplied(ConverterWorkingDir, o.converterWorkingDirectory, h3);
    OptionalApplied(StagingRoot, o.managedStorageStagingRoot, h4);
    OptionalApplied(ShutdownEvent, o.shutdownEventName, h5);
    assert ApplyAll(a + b, h2) == Ok(h4) by { ApplyAllConcat(a, b, h2); }
    assert ApplyAll(a + b + c, h2) == Ok(h5) by { ApplyAllConcat(a + b, c, h2); }
    ApplyAllConcat(a + b + c, d, h2);
  }

  lemma OptionalApplied(k: OptionName, v: Option<string>, h: HostOptions)
    ensures ApplyAll(OptionalText(k, v), h) == if IsNullOrWhiteSpace(v) then Ok(h) else ApplyValue(k, v.value, h)
  {
  }

  lemma ParentApplied(o: LaunchOptions, h: HostOptions)
    requires IsValid(o) && h.parentProcessId.None? && h.parentProcessCreatedAtUnixMs.None?
    ensures ApplyAll(Parent(o), h) ==
            Ok(if o.parentProcessId.None? then h
               else h.(parentProcessId := Some(o.parentProcessId.value),
                       parentProcessCreatedAtUnixMs := Some(o.parentProcessCreatedAtUnixMs.value)))
  {
    if o.parentProcessId.Some? {
      var pid, created := o.parentProcessId.value, o.parentProcessCreatedAtUnixMs.value;
      StoullInvertsDecimal(pid);
      StoullInvertsDecimal(created);
      var h1 := h.(parentProcessId := Some(pid));
      ApplyOne(Bare(ParentPid, Decimal(pid)), h);
      ApplyOne(Bare(ParentStart, Decimal(created)), h1);
      ApplyAllConcat([Bare(ParentPid, Decimal(pid))], [Bare(ParentStart, Decimal(created))], h);
    }
  }

  lemma SessionsApplied(o: LaunchOptions, h: HostOptions)
    requires IsValid(o) && h.maxSessions == 0
    ensures ApplyAll(OneSession(o) + SessionLimit(o), h) ==
            Ok(h.(maxSessions := if o.maxSessions.Some? then o.maxSessions.value else if o.serveOneSession then 1 else 0))
  {
    ApplyAllConcat(OneSession(o), SessionLimit(o), h);
    ApplyOne(Setting(ServeOne, None), h);
    if o.maxSessions.Some? {
      StoullInvertsDecimal(o.maxSessions.value);
      var h1 := if o.serveOneSession then h.(maxSessions := 1) else h;
      ApplyOne(Bare(MaxSessions, Decimal(o.maxSessions.value)), h1);
    }
  }

  lemma ModesApplied(o: LaunchOptions, h: HostOptions)
    requires IsValid(o) && h.parentProcessId.None? && h.parentProcessCreatedAtUnixMs.None? && h.maxSessions == 0
    ensures ApplyAll(Modes(o), h) ==
            Ok(h.(createNew := o.createNew,
                  parentProcessId := Requested(o).parentProcessId,
                  parentProcessCreatedAtUnixMs := Requested(o).parentProcessCreatedAtUnixMs,
                  maxSessions := Requested(o).maxSessions))
  {
    var h1 := h.(createNew := o.createNew);
    var h2 := h1.(parentProcessId := Requested(o).parentProcessId,
                  parentProcessCreatedAtUnixMs := Requested(o).parentProcessCreatedAtUnixMs);
    ModeApplied(o, h);
    ParentApplied(o, h1);
    ApplyAllConcat(Mode(o), Parent(o), h);
    SessionsApplied(o, h2);
    ApplyAllConcat(Mode(o) + Parent(o), OneSession(o) + SessionLimit(o), h);
  }

  lemma ModeApplied(o: LaunchOptions, h: HostOptions)
    ensures ApplyAll(Mode(o), h) == Ok(h.(createNew := o.createNew))
  {
  }

  lemma ConverterApplied(o: LaunchOptions, h: HostOptions)
    requires IsValid(o) && h.converterMode.Disabled? && h.fb2CngExecutablePath == "" && h.fb2CngConfigPath.None?
    ensures ApplyAll(Converter(o), h) ==
            Ok(h.(converterMode := o.converterMode,
                  fb2CngExecutablePath := Requested(o).fb2CngExecutablePath,
                  fb2CngConfigPath := Requested(o).fb2CngConfigPath))
  {
    if o.converterMode.BuiltInFb2Cng? {
      var exe := o.fb2CngExecutablePath.value;
      var h1 := h.(converterMode := BuiltInFb2Cng, fb2CngExecutablePath := exe);
      ApplyOne(Text(Fb2CngExe, exe), h);
      OptionalApplied(Fb2CngConfig, o.fb2CngConfigPath, h1);
      ApplyAllConcat([Text(Fb2CngExe, exe)], OptionalText(Fb2CngConfig, o.fb2CngConfigPath), h);
    }
  }

  lemma SettingsApplied(o: LaunchOptions)
    requires IsValid(o)
    ensures ApplyAll(Settings(o), DEFAULTS) == Ok(Requested(o))
    ensures CheckComplete(Requested(o)) == Ok(Requested(o))
  {
    var paths := RequiredPaths(o) + OptionalPaths(o);
    var h1 := WithPaths(o, DEFAULTS);
    var h2 := h1.(createNew := o.createNew,
                  parentProcessId := Requested(o).parentProcessId,
                  parentProcessCreatedAtUnixMs := Requested(o).parentProcessCreatedAtUnixMs,
                  maxSessions := Requested(o).maxSessions);
    PathsApplied(o);
    ModesApplied(o, h1);
    ApplyAllConcat(paths, Modes(o), DEFAULTS);
    ConverterApplied(o, h2);
    ApplyAllConcat(paths + Modes(o), Converter(o), DEFAULTS);
    assert h2.(converterMode := o.converterMode,
               fb2CngExecutablePath := Requested(o).fb2CngExecutablePath,
               fb2CngConfigPath := Requested(o).fb2CngConfigPath) == Requested(o);
  }

  /** The line keeps what follows the setting, and the host receives its value unchanged. */
  predicate PrintsForHost(s: Setting) {
    s.value.Some? ==> NUL !in s.value.value.image && IsWellFormedUtf16(s.value.value.value)
  }

  lemma DecimalIsPlain(n: nat)
    ensures IsPlain(Decimal(n)) && Travels(Decimal(n))
  {
    AsciiIsWellFormedUtf16(Decimal(n));
  }

  lemma ModeIsPlain(o: LaunchOptions)
    ensures IsWellPrinted(Mode(o)[0]) && PrintsForHost(Mode(o)[0])
  {
    assert IsNameText("create") && IsNameText("open");
    var v := if o.createNew then "create" else "open";
    assert IsNameText(v);
    assert IsPlain(v);
    AsciiIsWellFormedUtf16(v);
  }

  lemma ModesAreWellPrinted(o: LaunchOptions)
    requires IsValid(o)
    ensures forall s :: s in Modes(o) ==> IsWellPrinted(s) && PrintsForHost(s)
  {
    ModeIsPlain(o);
    if o.parentProcessId.Some? {
      DecimalIsPlain(o.parentProcessId.value);
      DecimalIsPlain(o.parentProcessCreatedAtUnixMs.value);
    }
    if o.maxSessions.Some? {
      DecimalIsPlain(o.maxSessions.value);
    }
    forall s | s in Modes(o) ensures IsWellPrinted(s) && PrintsForHost(s) {
      assert s in Mode(o) || s in Parent(o) || s in OneSession(o) || s in SessionLimit(o);
    }
  }

  lemma PathsAreWellPrinted(o: LaunchOptions)
    ensures forall s :: s in RequiredPaths(o) + OptionalPaths(o) ==> IsWellPrinted(s)
  {
  }

  lemma ConverterIsWellPrinted(o: LaunchOptions)
    requires IsValid(o)
    ensures forall s :: s in Converter(o) ==> IsWellPrinted(s)
  {
  }

  lemma SettingsAreWellPrinted(o: LaunchOptions)
    requires IsValid(o)
    ensures forall s :: s in Settings(o) ==> IsWellPrinted(s)
  {
    PathsAreWellPrinted(o);
    ModesAreWellPrinted(o);
    ConverterIsWellPrinted(o);
    var paths, modes, converter := RequiredPaths(o) + OptionalPaths(o), Modes(o), Converter(o);
    assert Settings(o) == paths + modes + converter;
  }

  // ---------------------------------------------------------------------------------------
  // The round trip, and the texts that break it
  // ---------------------------------------------------------------------------------------

  predicate TextTravels(v: Option<string>) {
    Provided(v).None? || Travels(v.value)
  }

  /** No string that gets printed contains a NUL or an unpaired surrogate, which validation allows. */
  predicate AllTextsTravel(o: LaunchOptions) {
    && Travels(o.pipePath) && Travels(o.libraryRoot)
    && TextTravels(o.hostLogFilePath)
    && TextTravels(o.converterWorkingDirectory)
    && TextTravels(o.managedStorageStagingRoot)
    && TextTravels(o.shutdownEventName)
    && (o.converterMode.BuiltInFb2Cng? ==> TextTravels(o.fb2CngExecutablePath) && TextTravels(o.fb2CngConfigPath))
  }

  lemma {:induction false} QuoteTailHasNoNul(v: string, pending: nat)
    requires NUL !in v
    ensures NUL !in QuoteTail(v, pending)
    decreases |v|
  {
    if v != [] {
      QuoteTailHasNoNul(v[1..], if v[0] == BACKSLASH then pending + 1 else 0);
    }
  }

  lemma OptionalTextPrintsForHost(k: OptionName, v: Option<string>)
    requires TextTravels(v)
    ensures forall s :: s in OptionalText(k, v) ==> PrintsForHost(s)
  {
    if Provided(v).Some? {
      QuoteTailHasNoNul(v.value, 0);
    }
  }

  lemma PathsPrintForHost(o: LaunchOptions)
    requires AllTextsTravel(o)
    ensures forall s :: s in RequiredPaths(o) + OptionalPaths(o) ==> PrintsForHost(s)
  {
    QuoteTailHasNoNul(o.pipePath, 0);
    QuoteTailHasNoNul(o.libraryRoot, 0);
    OptionalTextPrintsForHost(LogFile, o.hostLogFilePath);
    OptionalTextPrintsForHost(ConverterWorkingDir, o.converterWorkingDirectory);
    OptionalTextPrintsForHost(StagingRoot, o.managedStorageStagingRoot);
    OptionalTextPrintsForHost(ShutdownEvent, o.shutdownEventName);
  }

  lemma ConverterPrintsForHost(o: LaunchOptions)
    requires IsValid(o) && AllTextsTravel(o)
    ensures forall s :: s in Converter(o) ==> PrintsForHost(s)
  {
    if o.converterMode.BuiltInFb2Cng? {
      QuoteTailHasNoNul(o.fb2CngExecutablePath.value, 0);
      OptionalTextPrintsForHost(Fb2CngConfig, o.fb2CngConfigPath);
    }
  }

  lemma {:induction false} RenderedHasNoNul(settings: seq<Setting>, names: Spelling)
    requires Spells(names) && forall s :: s in settings ==> PrintsForHost(s)
    ensures NUL !in Rendered(settings, names)
  {
    if settings != [] {
      var s := settings[0];
      assert PrintsForHost(s);
      RenderedHasNoNul(settings[1..], names);
      assert settings == [s] + settings[1..];
      RenderedConcat([s], settings[1..], names);
      RenderedOne(s, names);
    }
  }

  lemma SettingsForHost(o: LaunchOptions)
    requires IsValid(o) && AllTextsTravel(o)
    ensures forall s :: s in Settings(o) ==> PrintsForHost(s)
  {
    PathsPrintForHost(o);
    ModesAreWellPrinted(o);
    ConverterPrintsForHost(o);
    var paths, modes, converter := RequiredPaths(o) + OptionalPaths(o), Modes(o), Converter(o);
    assert forall s :: s in modes ==> PrintsForHost(s);
    assert Settings(o) == paths + modes + converter;
  }

  lemma SettingsPrintNoNul(o: LaunchOptions, names: Spelling)
    requires Spells(names) && IsValid(o) && AllTextsTravel(o)
    ensures NUL !in Rendered(Settings(o), names)
  {
    SettingsForHost(o);
    RenderedHasNoNul(Settings(o), names);
  }

  ghost predicate HostTextsTravel(h: HostOptions) {
    && Travels(h.pipePath) && Travels(h.libraryRoot) && Travels(h.fb2CngExecutablePath)
    && (h.logFilePath.Some? ==> Travels(h.logFilePath.value))
    && (h.converterWorkingDirectory.Some? ==> Travels(h.converterWorkingDirectory.value))
    && (h.managedStorageStagingRoot.Some? ==> Travels(h.managedStorageStagingRoot.value))
    && (h.shutdownEventName.Some? ==> Travels(h.shutdownEventName.value))
    && (h.fb2CngConfigPath.Some? ==> Travels(h.fb2CngConfigPath.value))
  }

  /** The two host settings hold the same strings. */
  predicate SameStrings(a: HostOptions, b: HostOptions) {
    && a.pipePath == b.pipePath && a.libraryRoot == b.libraryRoot && a.logFilePath == b.logFilePath
    && a.converterWorkingDirectory == b.converterWorkingDirectory
    && a.managedStorageStagingRoot == b.managedStorageStagingRoot
    && a.shutdownEventName == b.shutdownEventName
    && a.fb2CngExecutablePath == b.fb2CngExecutablePath && a.fb2CngConfigPath == b.fb2CngConfigPath
  }

  predicate IsTextOption(k: OptionName) {
    TakesValue(k) && !k.LibraryMode? && !k.ParentPid? && !k.ParentStart? && !k.MaxSessions?
  }

  lemma OtherOptionsKeepStrings(k: OptionName, v: string, h: HostOptions)
    requires !IsTextOption(k)
    ensures SameStrings(ApplyFlag(k, h), h)
    ensures ApplyValue(k, v, h).Ok? ==> SameStrings(ApplyValue(k, v, h).value, h)
  {
  }

  lemma PathOptionKeepsTravelling(k: OptionName, v: string, h: HostOptions)
    requires k.Pipe? || k.LibraryRoot? || k.LogFile? || k.ConverterWorkingDir?
    requires HostTextsTravel(h) && Travels(v)
    ensures ApplyValue(k, v, h).Ok? && HostTextsTravel(ApplyValue(k, v, h).value)
  {
  }

  lemma OtherTextOptionKeepsTravelling(k: OptionName, v: string, h: HostOptions)
    requires k.StagingRoot? || k.ShutdownEvent? || k.Fb2CngExe? || k.Fb2CngConfig?
    requires HostTextsTravel(h) && Travels(v)
    ensures ApplyValue(k, v, h).Ok? && HostTextsTravel(ApplyValue(k, v, h).value)
  {
  }

  lemma ApplyKeepsTravelling(k: OptionName, v: string, h: HostOptions)
    requires HostTextsTravel(h) && Travels(v) && ApplyValue(k, v, h).Ok?
    ensures HostTextsTravel(ApplyValue(k, v, h).value)
  {
    if IsTextOption(k) {
      if k.Pipe? || k.LibraryRoot? || k.LogFile? || k.ConverterWorkingDir? {
        PathOptionKeepsTravelling(k, v, h);
      } else {
        OtherTextOptionKeepsTravelling(k, v, h);
      }
    } else {
      OtherOptionsKeepStrings(k, v, h);
    }
  }

  /** One step of the parse: the options after it and how many arguments it used. */
  lemma ParseStep(arguments: seq<string>, h: HostOptions) returns (h': HostOptions, used: nat)
    requires HostTextsTravel(h) && forall a :: a in arguments ==> Travels(a)
    requires arguments != [] && ParseFrom(arguments, h).Ok?
    ensures 1 <= used <= |arguments| && HostTextsTravel(h')
    ensures ParseFrom(arguments, h) == ParseFrom(arguments[used..], h')
  {
    var k := OptionOf(arguments[0]).value;
    if !TakesValue(k) {
      OtherOptionsKeepStrings(k, [], h);
      h', used := ApplyFlag(k, h), 1;
    } else {
      ApplyKeepsTravelling(k, arguments[1], h);
      h', used := ApplyValue(k, arguments[1], h).value, 2;
    }
  }

  lemma {:induction false} ParseKeepsTravelling(arguments: seq<string>, h: HostOptions)
    requires HostTextsTravel(h) && forall a :: a in arguments ==> Travels(a)
    requires ParseFrom(arguments, h).Ok?
    ensures HostTextsTravel(ParseFrom(arguments, h).value)
    decreases |arguments|
  {
    if arguments != [] {
      var h', used := ParseStep(arguments, h);
      ParseKeepsTravelling(arguments[used..], h');
    }
  }

  /**
    * Launch round trip. For every valid set of launch options, the host that splits, converts and
    * parses the printed line recovers exactly the requested settings, if and only if no printed
    * string contains a NUL or an unpaired surrogate.
    */
  lemma HostRecoversLaunchOptions(o: LaunchOptions, line: string, names: Spelling)
    requires IsValid(o) && Spells(names)
    requires [' '] + line == Rendered(Settings(o), names)
    ensures ParsedOptions(HostArguments(line)) == Ok(Requested(o)) <==> AllTextsTravel(o)
  {
    if AllTextsTravel(o) {
      TravellingOptionsAreRecovered(o, line, names);
    }
    ParsedTextsTravel(line);
    RequestedTextsTravelIff(o);
  }

  /** A command line ends at its first NUL and unpaired surrogates are replaced on the way. */
  lemma ArgumentsTravel(line: string)
    ensures forall a :: a in HostArguments(line) ==> Travels(a)
  {
    var wide := SplitCommandLine(line);
    ArgumentsHaveNoNul(UpToNul(line));
    forall i | 0 <= i < |wide| ensures Travels(HostArguments(line)[i]) {
      assert wide[i] in wide;
      ReceivedKeepsOut(wide[i], NUL);
      ReceivedIsWellFormed(wide[i]);
    }
  }

  /** Nothing the host parses from any command line contains a NUL or an unpaired surrogate. */
  lemma ParsedTextsTravel(line: string)
    ensures var r := ParsedOptions(HostArguments(line)); r.Ok? ==> HostTextsTravel(r.value)
  {
    ArgumentsTravel(line);
    if ParsedOptions(HostArguments(line)).Ok? {
      ParseKeepsTravelling(HostArguments(line), DEFAULTS);
    }
  }

  lemma RequestedTextsTravelIff(o: LaunchOptions)
    requires IsValid(o)
    ensures HostTextsTravel(Requested(o)) <==> AllTextsTravel(o)
  {
  }

  lemma TravellingOptionsAreRecovered(o: LaunchOptions, line: string, names: Spelling)
    requires IsValid(o) && Spells(names) && AllTextsTravel(o)
    requires [' '] + line == Rendered(Settings(o), names)
    ensures ParsedOptions(HostArguments(line)) == Ok(Requested(o))
  {
    SettingsAreWellPrinted(o);
    HostReceivesArguments(o, line, names);
    ParseAppliesSettings(Settings(o), DEFAULTS, names);
    SettingsApplied(o);
  }

  lemma SplitRecoversArguments(o: LaunchOptions, line: string, names: Spelling)
    requires IsValid(o) && Spells(names) && AllTextsTravel(o)
    requires [' '] + line == Rendered(Settings(o), names)
    ensures SplitCommandLine(line) == Values(Arguments(Settings(o), names))
  {
    var settings := Settings(o);
    SettingsPrintNoNul(o, names);
    UnprefixedLine(line, Rendered(settings, names));
    SettingsAreWellPrinted(o);
    ArgumentsReadBack(settings, names);
    SplitInvertsLine(Arguments(settings, names));
  }

  lemma {:induction false} PrintedValuesAreWellFormed(settings: seq<Setting>, names: Spelling)
    requires Spells(names) && forall s :: s in settings ==> PrintsForHost(s)
    ensures forall v :: v in Values(Arguments(settings, names)) ==> IsWellFormedUtf16(v)
  {
    if settings != [] {
      var s := settings[0];
      assert PrintsForHost(s);
      PrintedValuesAreWellFormed(settings[1..], names);
      assert Values(Arguments(settings, names)) ==
             [names(s.name)] + (if s.value.Some? then [s.value.value.value] else [])
             + Values(Arguments(settings[1..], names));
    }
  }

  /** The conversion to UTF-8 and back changes none of the printed arguments. */
  lemma HostReceivesArguments(o: LaunchOptions, line: string, names: Spelling)
    requires IsValid(o) && Spells(names) && AllTextsTravel(o)
    requires [' '] + line == Rendered(Settings(o), names)
    ensures HostArguments(line) == Values(Arguments(Settings(o), names))
  {
    var values := Values(Arguments(Settings(o), names));
    SplitRecoversArguments(o, line, names);
    SettingsForHost(o);
    PrintedValuesAreWellFormed(Settings(o), names);
    forall i | 0 <= i < |values| ensures Received(values[i]) == values[i] {
      assert values[i] in values;
      ReceivedUnchangedIff(values[i]);
    }
  }

  /** Dropping the blank in front of a line without NUL changes nothing for the splitter. */
  lemma UnprefixedLine(line: string, rendered: string)
    requires rendered == [' '] + line && NUL !in rendered
    ensures SplitCommandLine(line) == SplitArguments(rendered)
  {
  }

  lemma {:induction false} ArgumentsReadBack(settings: seq<Setting>, names: Spelling)
    requires Spells(names) && forall s :: s in settings ==> IsWellPrinted(s)
    ensures forall p :: p in Arguments(settings, names) ==> ReadsBack(p)
  {
    if settings != [] {
      assert IsWellPrinted(settings[0]);
      ArgumentsReadBack(settings[1..], names);
      assert ReadsBack(Printed(names(settings[0].name), names(settings[0].name)));
    }
  }

  /** The whole launch, from the options of one program to the options of the other. */
  method Launch(o: LaunchOptions) returns (r: Result<HostOptions, HostError>)
    requires IsValid(o)
    ensures r == Ok(Requested(o)) <==> AllTextsTravel(o)
  {
    NameTextSpells();
    var line := BuildArguments(o, NameText);
    var arguments := CollectArguments(line);
    r := Parse(arguments);
    HostRecoversLaunchOptions(o, line, NameText);
  }

  function WithLibraryRoot(root: string): LaunchOptions {
    LaunchOptions("C:\\host.exe", "\\\\.\\pipe\\librova", root, None, None, None, None, false,
                  None, None, false, None, Disabled, None, None)
  }

  const NUL_IN_LIBRARY_ROOT: string := "C:\\books\0old"

  lemma MinimalOptionsAreValid(root: string)
    requires |root| >= 3 && root[0] == 'C' && root[1] == ':' && root[2] == '\\'
    ensures IsValid(WithLibraryRoot(root))
  {
    var o := WithLibraryRoot(root);
    assert !IsWhiteSpace(o.executablePath[0]) && !IsWhiteSpace(o.pipePath[0]) && !IsWhiteSpace(o.libraryRoot[0]);
  }

  /** Validation does accept a library root that would end early at a NUL character. */
  lemma ValidationAcceptsNul()
    ensures IsValid(WithLibraryRoot(NUL_IN_LIBRARY_ROOT)) && !AllTextsTravel(WithLibraryRoot(NUL_IN_LIBRARY_ROOT))
  {
    MinimalOptionsAreValid(NUL_IN_LIBRARY_ROOT);
    assert NUL_IN_LIBRARY_ROOT[8] == NUL;
  }

  /** And one that ends in an unpaired surrogate, as a file name may; the host would open another root. */
  lemma ValidationAcceptsUnpairedSurrogate()
    ensures var root := "C:\\b" + [UNPAIRED];
            && IsValid(WithLibraryRoot(root)) && NUL !in root && !AllTextsTravel(WithLibraryRoot(root))
            && Received(root) == "C:\\b" + [REPLACEMENT as char]
  {
    UnpairedEndIsReplaced("C:\\b");
    MinimalOptionsAreValid("C:\\b" + [UNPAIRED]);
  }
}
