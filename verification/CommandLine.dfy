/**
  * Windows command lines: how both programs quote an argument and how CommandLineToArgvW, by
  * its documented backslash rules, takes a line apart again.
  *
  * A string is a sequence of UTF-16 code units, written as WideText describes. Quoting and splitting
  * only look at ASCII and copy everything else, well formed or not.
  */
module CommandLine {

  const BACKSLASH: char := '\\'
  const QUOTE: char := '"'
  const NUL: char := '\0'

  predicate IsBlank(c: char) {
    c == ' ' || c == '\t'
  }

  function Backslashes(n: nat): (s: string)
    ensures |s| == n && forall i :: 0 <= i < n ==> s[i] == BACKSLASH
  {
    seq(n, i => BACKSLASH)
  }

  // ---------------------------------------------------------------------------------------
  // CommandLineToArgvW, for the arguments after the program name
  // ---------------------------------------------------------------------------------------

  datatype Scan = Scan(text: string, rest: string)

  /**
    * Reads to the end of the argument. `pending` backslashes have been read but not decided on:
    * an even run before a quotation mark is halved and the mark switches quoting, an odd run
    * is halved and the mark is literal, any other run stands for itself.
    */
  function ScanArgument(s: string, inQuotes: bool, pending: nat, text: string): (r: Scan)
    ensures |r.rest| <= |s|
    ensures s != [] && (inQuotes || !IsBlank(s[0])) ==> |r.rest| < |s|
  {
    if s == [] then
      Scan(text + Backslashes(pending), [])
    else if s[0] == BACKSLASH then
      ScanArgument(s[1..], inQuotes, pending + 1, text)
    else if s[0] == QUOTE then
      if pending % 2 == 0 then ScanArgument(s[1..], !inQuotes, 0, text + Backslashes(pending / 2))
      else ScanArgument(s[1..], inQuotes, 0, text + Backslashes(pending / 2) + [QUOTE])
    else if IsBlank(s[0]) && !inQuotes then
      Scan(text + Backslashes(pending), s)
    else
      ScanArgument(s[1..], inQuotes, 0, text + Backslashes(pending) + [s[0]])
  }

  function SplitArguments(s: string): seq<string>
    decreases |s|
  {
    if s == [] then []
    else if IsBlank(s[0]) then SplitArguments(s[1..])
    else var r := ScanArgument(s, false, 0, []); [r.text] + SplitArguments(r.rest)
  }

  /** The line ends at its first NUL character. */
  function UpToNul(s: string): (r: string)
    ensures NUL !in r
    ensures NUL !in s ==> r == s
  {
    if s == [] || s[0] == NUL then [] else [s[0]] + UpToNul(s[1..])
  }

  function SplitCommandLine(s: string): seq<string> {
    SplitArguments(UpToNul(s))
  }

  lemma {:induction false} ScanKeepsOutNul(s: string, inQuotes: bool, pending: nat, text: string)
    requires NUL !in s && NUL !in text
    ensures NUL !in ScanArgument(s, inQuotes, pending, text).text
    ensures NUL !in ScanArgument(s, inQuotes, pending, text).rest
    decreases |s|
  {
    if s != [] {
      if s[0] == BACKSLASH {
        ScanKeepsOutNul(s[1..], inQuotes, pending + 1, text);
      } else if s[0] == QUOTE {
        if pending % 2 == 0 {
          ScanKeepsOutNul(s[1..], !inQuotes, 0, text + Backslashes(pending / 2));
        } else {
          ScanKeepsOutNul(s[1..], inQuotes, 0, text + Backslashes(pending / 2) + [QUOTE]);
        }
      } else if inQuotes || !IsBlank(s[0]) {
        ScanKeepsOutNul(s[1..], inQuotes, 0, text + Backslashes(pending) + [s[0]]);
      }
    }
  }

  /** No argument of any command line contains a NUL character. */
  lemma {:induction false} ArgumentsHaveNoNul(s: string)
    requires NUL !in s
    ensures forall a :: a in SplitArguments(s) ==> NUL !in a
    decreases |s|
  {
    if s != [] {
      if IsBlank(s[0]) {
        ArgumentsHaveNoNul(s[1..]);
      } else {
        ScanKeepsOutNul(s, false, 0, []);
        ArgumentsHaveNoNul(ScanArgument(s, false, 0, []).rest);
      }
    }
  }

  // ---------------------------------------------------------------------------------------
  // Quoting
  // ---------------------------------------------------------------------------------------

  /** What the quoting loop still has to emit, with `pending` backslashes counted but not written. */
  function QuoteTail(value: string, pending: nat): string {
    if value == [] then Backslashes(2 * pending) + [QUOTE]
    else if value[0] == BACKSLASH then QuoteTail(value[1..], pending + 1)
    else if value[0] == QUOTE then Backslashes(2 * pending + 1) + [QUOTE] + QuoteTail(value[1..], 0)
    else Backslashes(pending) + [value[0]] + QuoteTail(value[1..], 0)
  }

  function Quoted(value: string): string {
    [QUOTE] + QuoteTail(value, 0)
  }

  lemma BackslashesStep(n: nat)
    ensures Backslashes(n + 1) == [BACKSLASH] + Backslashes(n) == Backslashes(n) + [BACKSLASH]
  {
  }

  method Quote(value: string) returns (quoted: string)
    ensures quoted == Quoted(value)
  {
    if value == [] {
      return "\"\"";
    }
    quoted := [QUOTE];
    var backslashCount := 0;
    for i := 0 to |value|
      invariant quoted + QuoteTail(value[i..], backslashCount) == Quoted(value)
    {
      assert value[i..][1..] == value[i + 1..];
      if value[i] == BACKSLASH {
        backslashCount := backslashCount + 1;
        continue;
      }
      if value[i] == QUOTE {
        quoted := quoted + Backslashes(backslashCount * 2 + 1);
        quoted := quoted + [QUOTE];
        backslashCount := 0;
        continue;
      }
      if backslashCount > 0 {
        quoted := quoted + Backslashes(backslashCount);
        backslashCount := 0;
      }
      quoted := quoted + [value[i]];
    }
    if backslashCount > 0 {
      quoted := quoted + Backslashes(backslashCount * 2);
    }
    quoted := quoted + [QUOTE];
  }

  /** The native program leaves an argument bare when nothing in it needs quoting. */
  predicate NeedsQuotes(argument: string) {
    argument == [] || exists i :: 0 <= i < |argument| && argument[i] in " \t\n\U{000B}\""
  }

  function QuotedWindowsArgument(argument: string): string {
    if NeedsQuotes(argument) then Quoted(argument) else argument
  }

  method QuoteWindowsArgument(argument: string) returns (quoted: string)
    ensures quoted == QuotedWindowsArgument(argument)
  {
    if argument == [] {
      return "\"\"";
    }
    if !NeedsQuotes(argument) {
      return argument;
    }
    quoted := Quote(argument);
  }

  // ---------------------------------------------------------------------------------------
  // Splitting undoes quoting
  // ---------------------------------------------------------------------------------------

  lemma {:induction false} ScanBackslashes(n: nat, s: string, inQuotes: bool, pending: nat, text: string)
    ensures ScanArgument(Backslashes(n) + s, inQuotes, pending, text) == ScanArgument(s, inQuotes, pending + n, text)
  {
    if n == 0 {
      assert Backslashes(0) + s == s;
    } else {
      BackslashesStep(n - 1);
      assert (Backslashes(n) + s)[1..] == Backslashes(n - 1) + s;
      ScanBackslashes(n - 1, s, inQuotes, pending + 1, text);
    }
  }

  predicate EndsArgument(rest: string) {
    rest == [] || IsBlank(rest[0])
  }

  lemma ScanClosingQuote(pending: nat, rest: string, text: string)
    requires EndsArgument(rest)
    ensures ScanArgument(Backslashes(2 * pending) + [QUOTE] + rest, true, 0, text) == Scan(text + Backslashes(pending), rest)
  {
    ScanBackslashes(2 * pending, [QUOTE] + rest, true, 0, text);
    assert Backslashes(2 * pending) + [QUOTE] + rest == Backslashes(2 * pending) + ([QUOTE] + rest);
    assert ([QUOTE] + rest)[1..] == rest;
    assert Backslashes(0) == [];
  }

  /** A character that ends a run of backslashes is read back with the run before it. */
  lemma ScanQuotedCharacter(c: char, pending: nat, s: string, text: string)
    requires c != BACKSLASH
    ensures ScanArgument(Backslashes(if c == QUOTE then 2 * pending + 1 else pending) + ([c] + s), true, 0, text)
         == ScanArgument(s, true, 0, text + Backslashes(pending) + [c])
  {
    ScanBackslashes(if c == QUOTE then 2 * pending + 1 else pending, [c] + s, true, 0, text);
    assert ([c] + s)[1..] == s;
  }

  /** From inside the quotes, the scanner reads back exactly the pending backslashes and the value. */
  lemma {:induction false} ScanInvertsQuoteTail(value: string, pending: nat, rest: string, text: string)
    requires EndsArgument(rest)
    ensures ScanArgument(QuoteTail(value, pending) + rest, true, 0, text)
         == Scan(text + Backslashes(pending) + value, rest)
    decreases |value|
  {
    if value == [] {
      ScanClosingQuote(pending, rest, text);
      assert text + Backslashes(pending) + [] == text + Backslashes(pending);
    } else if value[0] == BACKSLASH {
      ScanInvertsQuoteTail(value[1..], pending + 1, rest, text);
      BackslashesStep(pending);
      Regroup(text + Backslashes(pending), value);
      assert text + Backslashes(pending + 1) == text + Backslashes(pending) + [value[0]];
    } else {
      var tail := QuoteTail(value[1..], 0) + rest;
      var run := if value[0] == QUOTE then 2 * pending + 1 else pending;
      var text' := text + Backslashes(pending) + [value[0]];
      assert QuoteTail(value, pending) + rest == Backslashes(run) + ([value[0]] + tail);
      ScanQuotedCharacter(value[0], pending, tail, text);
      ScanInvertsQuoteTail(value[1..], 0, rest, text');
      Regroup(text + Backslashes(pending), value);
      assert text' + Backslashes(0) == text';
    }
  }

  lemma Regroup(text: string, value: string)
    requires value != []
    ensures text + [value[0]] + value[1..] == text + value
  {
  }

  lemma ScanInvertsQuoted(value: string, rest: string)
    requires EndsArgument(rest)
    ensures ScanArgument(Quoted(value) + rest, false, 0, []) == Scan(value, rest)
  {
    assert (Quoted(value) + rest)[1..] == QuoteTail(value, 0) + rest;
    ScanInvertsQuoteTail(value, 0, rest, []);
    assert [] + Backslashes(0) == [];
    assert [] + Backslashes(0) + value == value;
  }

  /** Text without blanks or quotation marks reads as itself. */
  predicate IsPlain(text: string) {
    text != [] && forall i :: 0 <= i < |text| ==> !IsBlank(text[i]) && text[i] != QUOTE
  }

  lemma {:induction false} ScanPlainSuffix(s: string, rest: string, pending: nat, text: string)
    requires s == [] || IsPlain(s)
    requires EndsArgument(rest)
    ensures ScanArgument(s + rest, false, pending, text) == Scan(text + Backslashes(pending) + s, rest)
    decreases |s|
  {
    if s == [] {
      assert s + rest == rest;
    } else {
      assert (s + rest)[1..] == s[1..] + rest;
      if s[0] == BACKSLASH {
        ScanPlainSuffix(s[1..], rest, pending + 1, text);
        BackslashesStep(pending);
        assert text + Backslashes(pending + 1) + s[1..] == text + Backslashes(pending) + s;
      } else {
        ScanPlainSuffix(s[1..], rest, 0, text + Backslashes(pending) + [s[0]]);
        assert text + Backslashes(pending) + [s[0]] + Backslashes(0) + s[1..] == text + Backslashes(pending) + s;
      }
    }
  }

  /** One printed argument: `image` is on the line and reads back as `value`. */
  datatype Printed = Printed(image: string, value: string)

  ghost predicate ReadsBack(p: Printed) {
    (p.image == Quoted(p.value)) || (p.image == p.value && IsPlain(p.value))
  }

  lemma ScanReadsBack(p: Printed, rest: string)
    requires ReadsBack(p) && EndsArgument(rest)
    ensures p.image != [] && !IsBlank((p.image + rest)[0])
    ensures ScanArgument(p.image + rest, false, 0, []) == Scan(p.value, rest)
  {
    if p.image == Quoted(p.value) {
      ScanInvertsQuoted(p.value, rest);
    } else {
      ScanPlainSuffix(p.value, rest, 0, []);
      assert [] + Backslashes(0) + p.value == p.value;
    }
  }

  /** The printed arguments, each preceded by one blank. */
  function Line(ps: seq<Printed>): string {
    if ps == [] then [] else [' '] + ps[0].image + Line(ps[1..])
  }

  function Values(ps: seq<Printed>): seq<string> {
    seq(|ps|, i requires 0 <= i < |ps| => ps[i].value)
  }

  lemma SplitPrinted(p: Printed, rest: string)
    requires ReadsBack(p) && EndsArgument(rest)
    ensures SplitArguments([' '] + p.image + rest) == [p.value] + SplitArguments(rest)
  {
    var s := p.image + rest;
    ScanReadsBack(p, rest);
    assert ([' '] + p.image + rest)[1..] == s;
    assert SplitArguments(s) == [p.value] + SplitArguments(rest);
  }

  /** Splitting a printed line gives back exactly the values that were printed. */
  lemma {:induction false} SplitInvertsLine(ps: seq<Printed>)
    requires forall p :: p in ps ==> ReadsBack(p)
    ensures SplitArguments(Line(ps)) == Values(ps)
  {
    if ps != [] {
      assert ReadsBack(ps[0]);
      SplitInvertsLine(ps[1..]);
      SplitPrinted(ps[0], Line(ps[1..]));
      assert Values(ps) == [ps[0].value] + Values(ps[1..]);
    }
  }

  /** BuildCommandLine after the program name: every argument reaches the converter unchanged. */
  lemma ConverterArgumentsReadBack(arguments: seq<string>)
    ensures SplitArguments(Line(seq(|arguments|, i requires 0 <= i < |arguments| =>
                                    Printed(QuotedWindowsArgument(arguments[i]), arguments[i])))) == arguments
  {
    var ps := seq(|arguments|, i requires 0 <= i < |arguments| => Printed(QuotedWindowsArgument(arguments[i]), arguments[i]));
    forall p | p in ps ensures ReadsBack(p) {
      if !NeedsQuotes(p.value) {
        assert forall i :: 0 <= i < |p.value| ==> p.value[i] !in " \t\n\U{000B}\"";
        PlainWhenUnquoted(p.value);
      }
    }
    SplitInvertsLine(ps);
    assert Values(ps) == arguments;
  }

  lemma PlainWhenUnquoted(argument: string)
    requires !NeedsQuotes(argument)
    ensures IsPlain(argument)
  {
  }

  method BuildCommandLine(executable: string, arguments: seq<string>) returns (line: string)
    ensures line == QuotedWindowsArgument(executable) +
                    Line(seq(|arguments|, i requires 0 <= i < |arguments| =>
                               Printed(QuotedWindowsArgument(arguments[i]), arguments[i])))
  {
    line := QuoteWindowsArgument(executable);
    ghost var start := line;
    ghost var ps := seq(|arguments|, i requires 0 <= i < |arguments| => Printed(QuotedWindowsArgument(arguments[i]), arguments[i]));
    for k := 0 to |arguments|
      invariant line + Line(ps[k..]) == start + Line(ps)
    {
      assert ps[k..][1..] == ps[k + 1..];
      line := line + [' '];
      var image := QuoteWindowsArgument(arguments[k]);
      line := line + image;
    }
  }
}
