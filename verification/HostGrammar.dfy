/**
  * Which argument lists the host accepts, and which error it gives for the others: a list is read
  * as options one after the other, the last occurrence of an option counts, and the first word
  * that does not fit is the one complained about.
  */
module HostGrammar {
  import opened Decimals
  import opened HostLaunch
  import opened Wrappers

  /** One option in an argument list, as it is written there. */
  datatype Given = Given(word: string, name: OptionName, value: Option<string>)

  predicate Names(word: string, k: OptionName) {
    word == NameText(k) || (k == Help && word == "-h")
  }

  /** The word is none of the options. */
  ghost predicate IsUnknown(word: string) {
    forall k :: !Names(word, k)
  }

  /** The value is one that the option can have. */
  predicate IsAcceptable(k: OptionName, v: string) {
    && (k == LibraryMode ==> v == "open" || v == "create")
    && (k == ParentPid ==> Stoull(v).Some? && 0 < Stoull(v).value <= 0xFFFF_FFFF)
    && (k == ParentStart ==> Stoull(v).Some? && 0 < Stoull(v).value <= 0x7FFF_FFFF_FFFF_FFFF)
    && (k == MaxSessions ==> Stoull(v).Some?)
  }

  /** Help, version and serve-one stand alone; every other option is followed by its value. */
  predicate StandsAlone(k: OptionName) {
    k == Help || k == Version || k == ServeOne
  }

  predicate Fits(k: OptionName, v: Option<string>) {
    && (v.None? <==> StandsAlone(k))
    && (v.Some? ==> IsAcceptable(k, v.value))
  }

  predicate IsGiven(g: Given) {
    Names(g.word, g.name) && Fits(g.name, g.value)
  }

  predicate AllFit(given: seq<Given>) {
    given == [] || (AllFit(given[..|given| - 1]) && Fits(given[|given| - 1].name, given[|given| - 1].value))
  }

  predicate AreGiven(given: seq<Given>) {
    given == [] || (AreGiven(given[..|given| - 1]) && IsGiven(given[|given| - 1]))
  }

  function WordsOf(g: Given): seq<string> {
    [g.word] + if g.value.Some? then [g.value.value] else []
  }

  function Words(given: seq<Given>): seq<string> {
    if given == [] then [] else Words(given[..|given| - 1]) + WordsOf(given[|given| - 1])
  }

  // ---------------------------------------------------------------------------------------
  // What the options of a list amount to
  // ---------------------------------------------------------------------------------------

  /** The value at the last place where the list gives this option. */
  function Last(given: seq<Given>, k: OptionName): Option<string> {
    if given == [] then None
    else
      var last := given[|given| - 1];
      if last.name == k && last.value.Some? then last.value else Last(given[..|given| - 1], k)
  }

  ghost predicate Has(given: seq<Given>, k: OptionName) {
    exists i :: 0 <= i < |given| && given[i].name == k
  }

  function TextOr(v: Option<string>, otherwise: string): string {
    if v.Some? then v.value else otherwise
  }

  function NumberOf(v: Option<string>): Option<nat> {
    if v.Some? then Stoull(v.value) else None
  }

  /** Serve-one and a session limit write the same field, so the later of the two counts. */
  function LastSessions(given: seq<Given>): nat {
    if given == [] then 0
    else
      var last := given[|given| - 1];
      if last.name == ServeOne then 1
      else if last.name == MaxSessions && last.value.Some? && Stoull(last.value.value).Some? then Stoull(last.value.value).value
      else LastSessions(given[..|given| - 1])
  }

  /** What is given last for every option. */
  type Lasts = OptionName -> Option<string>

  function LastsOf(given: seq<Given>): Lasts {
    k => Last(given, k)
  }

  ghost predicate HoldPaths(o: HostOptions, last: Lasts) {
    && o.pipePath == TextOr(last(Pipe), "") && o.libraryRoot == TextOr(last(LibraryRoot), "")
    && o.logFilePath == last(LogFile)
  }

  ghost predicate HoldDirectories(o: HostOptions, last: Lasts) {
    && o.converterWorkingDirectory == last(ConverterWorkingDir)
    && o.managedStorageStagingRoot == last(StagingRoot)
    && o.shutdownEventName == last(ShutdownEvent)
  }

  ghost predicate HoldModes(o: HostOptions, last: Lasts) {
    && (o.createNew <==> last(LibraryMode) == Some("create"))
    && o.parentProcessId == NumberOf(last(ParentPid))
    && o.parentProcessCreatedAtUnixMs == NumberOf(last(ParentStart))
    && o.fb2CngExecutablePath == TextOr(last(Fb2CngExe), "") && o.fb2CngConfigPath == last(Fb2CngConfig)
    && (o.converterMode == BuiltInFb2Cng <==> last(Fb2CngExe).Some? || last(Fb2CngConfig).Some?)
  }

  /** Every field of the options holds what was given last for it, or its default. */
  ghost predicate HoldLast(o: HostOptions, given: seq<Given>) {
    && HoldPaths(o, LastsOf(given)) && HoldDirectories(o, LastsOf(given)) && HoldModes(o, LastsOf(given))
    && o.maxSessions == LastSessions(given)
    && (o.showHelp <==> Has(given, Help)) && (o.showVersion <==> Has(given, Version))
  }

  /** What becomes of a list of options that all fit: help and version make it complete as it is. */
  ghost predicate IsJudged(given: seq<Given>, r: Result<HostOptions, HostError>) {
    if Has(given, Help) || Has(given, Version) then r.Ok? && HoldLast(r.value, given)
    else if TextOr(Last(given, Pipe), "") == "" then r == Err(MissingRequired(Pipe))
    else if TextOr(Last(given, LibraryRoot), "") == "" then r == Err(MissingRequired(LibraryRoot))
    else if Last(given, Fb2CngExe) == Some("") || (Last(given, Fb2CngExe).None? && Last(given, Fb2CngConfig).Some?)
         then r == Err(InvalidConverter)
    else if Last(given, ParentPid).Some? != Last(given, ParentStart).Some? then r == Err(ParentHalfGiven)
    else r.Ok? && HoldLast(r.value, given)
  }

  // ---------------------------------------------------------------------------------------
  // The parser reads exactly this
  // ---------------------------------------------------------------------------------------

  lemma PathOptionIsNamed(word: string, k: OptionName)
    requires k == Pipe || k == Help || k == Version || k == LibraryRoot || k == LogFile || k == ConverterWorkingDir || k == StagingRoot
    ensures OptionOf(word) == Some(k) ==> Names(word, k)
  {
  }

  lemma ModeOptionIsNamed(word: string, k: OptionName)
    requires k == ShutdownEvent || k == LibraryMode || k == ServeOne || k == ParentPid || k == ParentStart || k == MaxSessions
             || k == Fb2CngExe || k == Fb2CngConfig
    ensures OptionOf(word) == Some(k) ==> Names(word, k)
  {
  }

  lemma NamedIsOption(word: string, k: OptionName)
    requires Names(word, k)
    ensures OptionOf(word) == Some(k)
  {
    if word == NameText(k) {
      NameTextSpells();
    }
  }

  lemma OptionOfMeaning(word: string, k: OptionName)
    ensures OptionOf(word) == Some(k) <==> Names(word, k)
  {
    match k {
      case Pipe | Help | Version | LibraryRoot | LogFile | ConverterWorkingDir | StagingRoot => PathOptionIsNamed(word, k);
      case _ => ModeOptionIsNamed(word, k);
    }
    if Names(word, k) {
      NamedIsOption(word, k);
    }
  }

  lemma ValueMeaning(k: OptionName, v: string, o: HostOptions)
    ensures ApplyValue(k, v, o).Ok? <==> IsAcceptable(k, v)
    ensures !IsAcceptable(k, v) ==> ApplyValue(k, v, o) == Err(if k == LibraryMode then UnsupportedMode else InvalidNumber(k))
  {
  }

  /** The options after one more given option. */
  function Next(o: HostOptions, k: OptionName, v: Option<string>): HostOptions
    requires Fits(k, v)
  {
    if v.None? then ApplyFlag(k, o)
    else
      ValueMeaning(k, v.value, o);
      ApplyValue(k, v.value, o).value
  }

  lemma ParseGiven(g: Given, rest: seq<string>, o: HostOptions)
    requires IsGiven(g)
    ensures ParseFrom(WordsOf(g) + rest, o) == ParseFrom(rest, Next(o, g.name, g.value))
  {
    var all := WordsOf(g) + rest;
    OptionOfMeaning(g.word, g.name);
    if g.value.None? {
      assert all[1..] == rest;
    } else {
      assert all[2..] == rest && all[1] == g.value.value;
      ValueMeaning(g.name, g.value.value, o);
    }
  }

  lemma LastOfMore(given: seq<Given>, g: Given, k: OptionName)
    ensures Last(given + [g], k) == if g.name == k && g.value.Some? then g.value else Last(given, k)
  {
    assert (given + [g])[..|given|] == given;
  }

  lemma {:induction false} LastPlace(given: seq<Given>, k: OptionName) returns (i: nat)
    requires AllFit(given) && Last(given, k).Some?
    ensures i < |given| && given[i].name == k && given[i].value == Last(given, k)
    ensures forall j :: i < j < |given| ==> given[j].name != k
  {
    var last := |given| - 1;
    if given[last].name == k && given[last].value.Some? {
      i := last;
    } else {
      i := LastPlace(given[..last], k);
      FittingValue(given, k, last);
    }
  }

  lemma FittingValue(given: seq<Given>, k: OptionName, i: nat)
    requires AllFit(given) && i == |given| - 1 && Last(given, k).Some?
    ensures given[i].name == k ==> given[i].value.Some?
  {
    if StandsAlone(k) {
      StandingAloneHasNoValue(given, k);
    }
  }

  lemma {:induction false} StandingAloneHasNoValue(given: seq<Given>, k: OptionName)
    requires AllFit(given) && StandsAlone(k)
    ensures Last(given, k).None?
  {
    if given != [] {
      StandingAloneHasNoValue(given[..|given| - 1], k);
    }
  }

  lemma {:induction false} GivenHasLast(given: seq<Given>, k: OptionName)
    requires AllFit(given) && !StandsAlone(k)
    ensures Last(given, k).None? <==> !Has(given, k)
  {
    if given != [] {
      var init, last := given[..|given| - 1], given[|given| - 1];
      GivenHasLast(init, k);
      assert given == init + [last];
      HasMore(init, last, k);
    }
  }

  /** The value given last: it is given at some place, and not again after it. */
  lemma LastMeaning(given: seq<Given>, k: OptionName)
    requires AllFit(given) && !StandsAlone(k)
    ensures Last(given, k).None? <==> !Has(given, k)
    ensures Last(given, k).Some? ==>
              exists i :: 0 <= i < |given| && given[i].name == k && given[i].value == Last(given, k)
                          && forall j :: i < j < |given| ==> given[j].name != k
  {
    GivenHasLast(given, k);
    if Last(given, k).Some? {
      var i := LastPlace(given, k);
    }
  }

  lemma {:induction false} LastFits(given: seq<Given>, k: OptionName)
    requires AllFit(given)
    ensures Last(given, k).Some? ==> IsAcceptable(k, Last(given, k).value)
  {
    if given != [] {
      var last := given[|given| - 1];
      assert Fits(last.name, last.value);
      LastFits(given[..|given| - 1], k);
    }
  }

  predicate IsNextLast(last: Lasts, k: OptionName, v: Option<string>, next: Lasts, other: OptionName) {
    next(other) == if other == k && v.Some? then v else last(other)
  }

  lemma NextHoldsPaths(o: HostOptions, last: Lasts, k: OptionName, v: Option<string>, next: Lasts)
    requires HoldPaths(o, last) && Fits(k, v) && forall other :: IsNextLast(last, k, v, next, other)
    ensures HoldPaths(Next(o, k, v), next)
  {
    assert IsNextLast(last, k, v, next, Pipe) && IsNextLast(last, k, v, next, LibraryRoot) && IsNextLast(last, k, v, next, LogFile);
  }

  lemma NextHoldsDirectories(o: HostOptions, last: Lasts, k: OptionName, v: Option<string>, next: Lasts)
    requires HoldDirectories(o, last) && Fits(k, v) && forall other :: IsNextLast(last, k, v, next, other)
    ensures HoldDirectories(Next(o, k, v), next)
  {
    assert IsNextLast(last, k, v, next, ConverterWorkingDir) && IsNextLast(last, k, v, next, StagingRoot);
    assert IsNextLast(last, k, v, next, ShutdownEvent);
  }

  lemma NextHoldsModes(o: HostOptions, last: Lasts, k: OptionName, v: Option<string>, next: Lasts)
    requires HoldModes(o, last) && Fits(k, v) && forall other :: IsNextLast(last, k, v, next, other)
    ensures HoldModes(Next(o, k, v), next)
  {
    assert IsNextLast(last, k, v, next, LibraryMode) && IsNextLast(last, k, v, next, ParentPid);
    assert IsNextLast(last, k, v, next, ParentStart) && IsNextLast(last, k, v, next, Fb2CngExe);
    assert IsNextLast(last, k, v, next, Fb2CngConfig);
  }

  lemma NextHoldsRest(o: HostOptions, k: OptionName, v: Option<string>)
    requires Fits(k, v)
    ensures var o' := Next(o, k, v);
            && o'.maxSessions == (if k == ServeOne then 1 else if k == MaxSessions then Stoull(v.value).value else o.maxSessions)
            && (o'.showHelp <==> o.showHelp || k == Help) && (o'.showVersion <==> o.showVersion || k == Version)
  {
  }

  lemma HasMore(given: seq<Given>, g: Given, k: OptionName)
    ensures Has(given + [g], k) <==> Has(given, k) || g.name == k
  {
    var all := given + [g];
    if Has(given, k) {
      var i :| 0 <= i < |given| && given[i].name == k;
      assert all[i].name == k;
    }
    if g.name == k {
      assert all[|given|].name == k;
    }
  }

  lemma SessionsOfMore(given: seq<Given>, g: Given)
    requires Fits(g.name, g.value)
    ensures LastSessions(given + [g]) ==
              if g.name == ServeOne then 1 else if g.name == MaxSessions then Stoull(g.value.value).value else LastSessions(given)
  {
    assert (given + [g])[..|given|] == given;
  }

  lemma NextHoldsLast(o: HostOptions, given: seq<Given>, g: Given, o': HostOptions, more: seq<Given>)
    requires HoldLast(o, given) && Fits(g.name, g.value)
    requires o' == Next(o, g.name, g.value) && more == given + [g]
    ensures HoldLast(o', more)
  {
    var last, next := LastsOf(given), LastsOf(given + [g]);
    forall k ensures IsNextLast(last, g.name, g.value, next, k) {
      LastOfMore(given, g, k);
    }
    NextHoldsPaths(o, last, g.name, g.value, next);
    NextHoldsDirectories(o, last, g.name, g.value, next);
    NextHoldsModes(o, last, g.name, g.value, next);
    NextHoldsRest(o, g.name, g.value);
    SessionsOfMore(given, g);
    HasMore(given, g, Help);
    HasMore(given, g, Version);
  }

  lemma DefaultsHoldNothing()
    ensures HoldLast(DEFAULTS, [])
  {
  }

  lemma OneMoreGiven(init: seq<Given>, last: Given, before: HostOptions, rest: seq<string>) returns (o: HostOptions)
    requires IsGiven(last) && HoldLast(before, init)
    ensures ParseFrom(WordsOf(last) + rest, before) == ParseFrom(rest, o)
    ensures HoldLast(o, init + [last])
  {
    o := Next(before, last.name, last.value);
    ParseGiven(last, rest, before);
    NextHoldsLast(before, init, last, o, init + [last]);
  }

  lemma WordsOfMore(init: seq<Given>, last: Given, rest: seq<string>)
    ensures Words(init + [last]) + rest == Words(init) + (WordsOf(last) + rest)
  {
    assert (init + [last])[..|init|] == init;
  }

  /** Options that fit are consumed one after the other, whatever follows them, and the last ones count. */
  lemma {:induction false} ParseSkipsGiven(given: seq<Given>, rest: seq<string>) returns (o: HostOptions)
    requires AreGiven(given)
    ensures ParseFrom(Words(given) + rest, DEFAULTS) == ParseFrom(rest, o)
    ensures HoldLast(o, given)
  {
    if given == [] {
      assert Words(given) + rest == rest;
      DefaultsHoldNothing();
      o := DEFAULTS;
    } else {
      var init, last := given[..|given| - 1], given[|given| - 1];
      assert given == init + [last];
      WordsOfMore(init, last, rest);
      var before := ParseSkipsGiven(init, WordsOf(last) + rest);
      o := OneMoreGiven(init, last, before, rest);
    }
  }

  lemma HeldIsJudged(given: seq<Given>, o: HostOptions)
    requires HoldLast(o, given)
    requires forall k :: Last(given, k).Some? ==> IsAcceptable(k, Last(given, k).value)
    ensures IsJudged(given, CheckComplete(o))
  {
  }

  lemma {:induction false} GivenFit(given: seq<Given>)
    requires AreGiven(given)
    ensures AllFit(given)
  {
    if given != [] {
      GivenFit(given[..|given| - 1]);
    }
  }

  lemma HeldLastIsJudged(given: seq<Given>, o: HostOptions)
    requires AllFit(given) && HoldLast(o, given)
    ensures IsJudged(given, CheckComplete(o))
  {
    forall k | Last(given, k).Some? ensures IsAcceptable(k, Last(given, k).value) {
      LastFits(given, k);
    }
    HeldIsJudged(given, o);
  }

  // ---------------------------------------------------------------------------------------
  // Accepted and refused lists
  // ---------------------------------------------------------------------------------------

  /** These words do not begin with an option that fits, and this is the error for them. */
  ghost predicate IsRefused(rest: seq<string>, e: HostError) {
    && rest != []
    && match e
       case UnknownOption(word) => word == rest[0] && IsUnknown(word)
       case MissingValue(k) => Names(rest[0], k) && !StandsAlone(k) && |rest| == 1
       case InvalidNumber(k) => Names(rest[0], k) && k != LibraryMode && |rest| > 1 && !IsAcceptable(k, rest[1])
       case UnsupportedMode => Names(rest[0], LibraryMode) && |rest| > 1 && !IsAcceptable(LibraryMode, rest[1])
       case MissingRequired(_) | InvalidConverter | ParentHalfGiven => false
  }

  lemma RefusedStopsParse(rest: seq<string>, e: HostError, o: HostOptions)
    requires IsRefused(rest, e)
    ensures ParseFrom(rest, o) == Err(e)
  {
    match e
    case UnknownOption(word) =>
      forall k ensures OptionOf(word) != Some(k) {
        OptionOfMeaning(word, k);
      }
    case MissingValue(k) => OptionOfMeaning(rest[0], k);
    case InvalidNumber(k) =>
      OptionOfMeaning(rest[0], k);
      ValueMeaning(k, rest[1], o);
    case UnsupportedMode =>
      OptionOfMeaning(rest[0], LibraryMode);
      ValueMeaning(LibraryMode, rest[1], o);
  }

  /** Every word list begins with an option that fits, is refused, or is empty. */
  lemma FirstOption(rest: seq<string>) returns (g: Given, e: HostError)
    requires rest != []
    ensures IsRefused(rest, e) || (IsGiven(g) && WordsOf(g) <= rest)
  {
    var name := OptionOf(rest[0]);
    g, e := Given(rest[0], Pipe, None), UnknownOption(rest[0]);
    if name.None? {
      forall k ensures !Names(rest[0], k) {
        OptionOfMeaning(rest[0], k);
      }
    } else {
      var k := name.value;
      OptionOfMeaning(rest[0], k);
      if StandsAlone(k) {
        g := Given(rest[0], k, None);
      } else if |rest| == 1 {
        e := MissingValue(k);
      } else if IsAcceptable(k, rest[1]) {
        g := Given(rest[0], k, Some(rest[1]));
      } else {
        e := if k == LibraryMode then UnsupportedMode else InvalidNumber(k);
      }
    }
  }

  lemma OneMoreRead(given: seq<Given>, g: Given, rest: seq<string>)
    requires AreGiven(given) && IsGiven(g) && WordsOf(g) <= rest
    ensures AreGiven(given + [g]) && Words(given + [g]) + rest[|WordsOf(g)|..] == Words(given) + rest
  {
    var left := rest[|WordsOf(g)|..];
    assert (given + [g])[..|given|] == given;
    WordsOfMore(given, g, left);
    assert WordsOf(g) + left == rest;
  }

  /** Every argument list is a list of options that fit and then either nothing or something refused. */
  lemma {:induction false} EveryListReads(arguments: seq<string>, given: seq<Given>, rest: seq<string>)
    returns (all: seq<Given>, left: seq<string>, e: HostError)
    requires AreGiven(given) && arguments == Words(given) + rest
    ensures AreGiven(all) && arguments == Words(all) + left && (left == [] || IsRefused(left, e))
    decreases |rest|
  {
    all, left, e := given, rest, UnsupportedMode;
    if rest != [] {
      var g;
      g, e := FirstOption(rest);
      if !IsRefused(rest, e) {
        OneMoreRead(given, g, rest);
        all, left, e := EveryListReads(arguments, given + [g], rest[|WordsOf(g)|..]);
      }
    }
  }

  /**
    * The host takes a list apart into options that fit and then judges what was given last, or it
    * complains about the first words that do not fit; and one of the two is so for every list.
    */
  lemma ParseMeaning(arguments: seq<string>) returns (given: seq<Given>, rest: seq<string>)
    ensures AreGiven(given) && arguments == Words(given) + rest
    ensures rest == [] ==> IsJudged(given, ParsedOptions(arguments))
    ensures rest != [] ==> ParsedOptions(arguments).Err? && IsRefused(rest, ParsedOptions(arguments).error)
  {
    var e;
    assert arguments == Words([]) + arguments;
    given, rest, e := EveryListReads(arguments, [], arguments);
    ReadingDecides(given, rest, e);
  }

  /** However a list is read as options that fit and a rest, the answer is the one for that reading. */
  lemma ReadingDecides(given: seq<Given>, rest: seq<string>, e: HostError)
    requires AreGiven(given)
    ensures rest == [] ==> IsJudged(given, ParsedOptions(Words(given) + rest))
    ensures IsRefused(rest, e) ==> ParsedOptions(Words(given) + rest) == Err(e)
  {
    var o := ParseSkipsGiven(given, rest);
    GivenFit(given);
    HeldLastIsJudged(given, o);
    if IsRefused(rest, e) {
      RefusedStopsParse(rest, e, o);
    }
  }

  // ---------------------------------------------------------------------------------------
  // Numbers
  // ---------------------------------------------------------------------------------------

  predicate IsSpace(c: char) {
    c == ' ' || c == '\t' || c == '\n' || c == '\U{000B}' || c == '\U{000C}' || c == '\r'
  }

  predicate IsSign(sign: string) {
    sign == "" || sign == "+" || sign == "-"
  }

  /** A text that holds a number: spaces, a sign, digits, and whatever follows them. */
  predicate IsNumeral(spaces: string, sign: string, digits: string, rest: string) {
    && (forall i :: 0 <= i < |spaces| ==> IsSpace(spaces[i]))
    && IsSign(sign)
    && digits != [] && (forall i :: 0 <= i < |digits| ==> IsDigit(digits[i]))
    && (rest == [] || !IsDigit(rest[0]))
  }

  /** The number of a numeral, unless it needs more than 64 bits; a minus sign wraps. */
  function NumeralValue(sign: string, digits: string): Option<nat>
    requires forall i :: 0 <= i < |digits| ==> IsDigit(digits[i])
  {
    var n := DigitsValue(digits);
    if n >= 0x1_0000_0000_0000_0000 then None
    else Some(if sign == "-" && n > 0 then 0x1_0000_0000_0000_0000 - n else n)
  }

  lemma {:induction false} SpacesAreSkipped(spaces: string, text: string)
    requires forall i :: 0 <= i < |spaces| ==> IsSpace(spaces[i])
    requires text == [] || !IsSpace(text[0])
    ensures SkipSpaces(spaces + text) == text
  {
    if spaces == [] {
      assert spaces + text == text;
    } else {
      assert (spaces + text)[1..] == spaces[1..] + text;
      SpacesAreSkipped(spaces[1..], text);
    }
  }

  lemma SignedDigits(sign: string, digits: string, rest: string)
    requires IsNumeral("", sign, digits, rest)
    ensures var t := sign + digits + rest;
            && t != [] && !IsSpace(t[0])
            && (t[0] == '-' <==> sign == "-") && (t[0] == '+' <==> sign == "+")
            && DigitPrefix(if t[0] == '-' || t[0] == '+' then t[1..] else t) == digits
  {
    var t := sign + digits + rest;
    if rest == [] {
      DigitPrefixOfDigits(digits);
      assert digits + rest == digits;
    } else {
      DigitPrefixStopsAt(digits, rest);
    }
    if sign == "" {
      assert t == digits + rest && t[0] == digits[0];
    } else {
      assert t[1..] == digits + rest && t[0] == sign[0];
    }
  }

  /** A numeral is read as its number. */
  lemma StoullReadsNumeral(spaces: string, sign: string, digits: string, rest: string)
    requires IsNumeral(spaces, sign, digits, rest)
    ensures Stoull(spaces + (sign + digits + rest)) == NumeralValue(sign, digits)
  {
    SignedDigits(sign, digits, rest);
    SpacesAreSkipped(spaces, sign + digits + rest);
  }

  lemma {:induction false} SkippedSpaces(s: string) returns (spaces: string)
    ensures s == spaces + SkipSpaces(s) && forall i :: 0 <= i < |spaces| ==> IsSpace(spaces[i])
  {
    spaces := [];
    if SkipSpaces(s) != s {
      var more := SkippedSpaces(s[1..]);
      spaces := [s[0]] + more;
    }
  }

  lemma {:induction false} DigitPrefixIsLongest(s: string)
    ensures DigitPrefix(s) <= s && (|DigitPrefix(s)| < |s| ==> !IsDigit(s[|DigitPrefix(s)|]))
  {
    if s != [] && IsDigit(s[0]) {
      DigitPrefixIsLongest(s[1..]);
    }
  }

  /** Only numerals are read. */
  lemma StoullNeedsNumeral(s: string) returns (spaces: string, sign: string, digits: string, rest: string)
    requires Stoull(s).Some?
    ensures s == spaces + (sign + digits + rest) && IsNumeral(spaces, sign, digits, rest)
  {
    spaces := SkippedSpaces(s);
    var t := SkipSpaces(s);
    sign := if t != [] && (t[0] == '-' || t[0] == '+') then t[..1] else "";
    digits := DigitPrefix(t[|sign|..]);
    DigitPrefixIsLongest(t[|sign|..]);
    rest := t[|sign| + |digits|..];
    assert t == sign + digits + rest;
  }
}
