/** Command-line quoting of native/windows-cli-launcher/OrcaCliLauncher.cs, proved against the parser described
    in Microsoft's "Parsing C command-line arguments". */
module ArgvQuoting {
  import opened Basics

  const QUOTE: CodeUnit := 34
  const BACKSLASH: CodeUnit := 92

  // Char.IsWhiteSpace: the Unicode separators and the control characters it adds.
  predicate IsWhiteSpace(c: CodeUnit) {
    || 9 <= c <= 13 || c == 0x20 || c == 0x85 || c == 0xA0 || c == 0x1680 || 0x2000 <= c <= 0x200A
    || c == 0x2028 || c == 0x2029 || c == 0x202F || c == 0x205F || c == 0x3000
  }

  function Backslashes(n: nat): (r: Text)
    ensures |r| == n && forall i :: 0 <= i < n ==> r[i] == BACKSLASH
  {
    seq(n, i => BACKSLASH)
  }

  // ------------------------------------------------------------------ the parser

  // Outside quotes, arguments are delimited by spaces and tabs only.
  predicate IsDelimiter(c: CodeUnit) { c == SPACE || c == TAB }

  function LeadingBackslashes(s: Text): (n: nat)
    ensures n <= |s|
  {
    if s != [] && s[0] == BACKSLASH then 1 + LeadingBackslashes(s[1..]) else 0
  }

  /** Whether `""` inside quotes is one literal quote (newer C runtimes) or an end and a start (older ones). */
  datatype Runtime = Doubling | NoDoubling

  /** What the parser does next inside an argument: end it, or take `consumed` units and contribute `text`. */
  datatype Step = Stop | Take(text: Text, consumed: nat, inQuotes: bool)

  /** 2n backslashes before a quote are n backslashes and a delimiting quote, 2n+1 are n backslashes and a literal
      quote, and backslashes before anything else are literal. */
  function NextStep(s: Text, inQuotes: bool, runtime: Runtime): (r: Step)
    ensures r.Take? ==> 0 < r.consumed <= |s|
  {
    if s == [] then Stop
    else
      var n := LeadingBackslashes(s);
      if n < |s| && s[n] == QUOTE then
        if n % 2 == 1 then Take(Backslashes(n / 2) + [QUOTE], n + 1, inQuotes)
        else if inQuotes && runtime.Doubling? && n + 1 < |s| && s[n + 1] == QUOTE then
          Take(Backslashes(n / 2) + [QUOTE], n + 2, inQuotes)
        else Take(Backslashes(n / 2), n + 1, !inQuotes)
      else if n > 0 then Take(Backslashes(n), n, inQuotes)
      else if !inQuotes && IsDelimiter(s[0]) then Stop
      else Take([s[0]], 1, inQuotes)
  }

  /** One argument and the unread rest. */
  function ParseArgument(s: Text, inQuotes: bool, runtime: Runtime): (r: (Text, Text))
    ensures |r.1| <= |s|
    ensures NextStep(s, inQuotes, runtime).Take? ==> |r.1| < |s|
    decreases |s|
  {
    match NextStep(s, inQuotes, runtime)
    case Stop => ([], s)
    case Take(text, consumed, inQuotes') =>
      var (arg, rest) := ParseArgument(s[consumed..], inQuotes', runtime);
      (text + arg, rest)
  }

  function ParseArguments(s: Text, runtime: Runtime): seq<Text>
    decreases |s|
  {
    if s == [] then []
    else if IsDelimiter(s[0]) then ParseArguments(s[1..], runtime)
    else
      var (arg, rest) := ParseArgument(s, false, runtime);
      [arg] + ParseArguments(rest, runtime)
  }

  // ----------------------------------------------------------------- the printer

  predicate RequiresQuotes(value: Text) {
    value == [] || exists i :: 0 <= i < |value| && (value[i] == QUOTE || IsWhiteSpace(value[i]))
  }

  /** What the quoting loop still has to write for `value` when `pending` backslashes are held back. */
  function Escaped(value: Text, pending: nat): Text
    decreases |value|
  {
    if value == [] then Backslashes(2 * pending) + [QUOTE]
    else if value[0] == BACKSLASH then Escaped(value[1..], pending + 1)
    else if value[0] == QUOTE then Backslashes(2 * pending + 1) + [QUOTE] + Escaped(value[1..], 0)
    else Backslashes(pending) + [value[0]] + Escaped(value[1..], 0)
  }

  function Quoted(value: Text): Text {
    if RequiresQuotes(value) then [QUOTE] + Escaped(value, 0) else value
  }

  /** An argument is left as it is exactly if it is not empty and holds neither a double quote nor white space. */
  lemma LeftAloneIff(value: Text)
    ensures Quoted(value) == value <==>
            value != [] && forall i :: 0 <= i < |value| ==>
              && value[i] != '"' as int && !(9 <= value[i] <= 13) && !(0x2000 <= value[i] <= 0x200A)
              && value[i] !in {0x20, 0x85, 0xA0, 0x1680, 0x2028, 0x2029, 0x202F, 0x205F, 0x3000}
  {
    EscapedIsLonger(value, 0);
  }

  lemma {:induction false} EscapedIsLonger(value: Text, pending: nat)
    ensures |Escaped(value, pending)| > |value| + pending
    decreases |value|
  {
    if value != [] {
      EscapedIsLonger(value[1..], if value[0] == BACKSLASH then pending + 1 else 0);
    }
  }

  function CommandLine(values: seq<Text>): Text
    requires values != []
  {
    if |values| == 1 then Quoted(values[0])
    else Quoted(values[0]) + [SPACE] + CommandLine(values[1..])
  }

  method QuoteArgument(value: Text) returns (r: Text)
    ensures r == Quoted(value)
  {
    var requiresQuotes := |value| == 0;
    var index := 0;
    while index < |value| && !requiresQuotes
      invariant 0 <= index <= |value|
      invariant requiresQuotes ==> RequiresQuotes(value)
      invariant !requiresQuotes ==> value != [] && forall i :: 0 <= i < index ==>
                value[i] != QUOTE && !IsWhiteSpace(value[i])
      decreases |value| - index, !requiresQuotes
    {
      requiresQuotes := value[index] == QUOTE || IsWhiteSpace(value[index]);
      index := index + 1;
    }
    if !requiresQuotes { return value; }

    var quoted := [QUOTE];
    var backslashCount: nat := 0;
    for i := 0 to |value|
      invariant quoted + Escaped(value[i..], backslashCount) == [QUOTE] + Escaped(value, 0)
    {
      var character := value[i];
      assert value[i..][1..] == value[i + 1..];
      if character == BACKSLASH {
        backslashCount := backslashCount + 1;
        continue;
      }
      if character == QUOTE {
        quoted := quoted + Backslashes(backslashCount * 2 + 1);
        quoted := quoted + [QUOTE];
      } else {
        quoted := quoted + Backslashes(backslashCount);
        quoted := quoted + [character];
      }
      backslashCount := 0;
    }
    quoted := quoted + Backslashes(backslashCount * 2);
    quoted := quoted + [QUOTE];
    return quoted;
  }

  /** Whatever the paths and arguments contain, the started process sees exactly them. */
  method BuildArguments(cliPath: Text, args: seq<Text>) returns (commandLine: Text)
    ensures forall runtime :: ParseArguments(commandLine, runtime) == [cliPath] + args
  {
    commandLine := QuoteArgument(cliPath);
    for i := 0 to |args|
      invariant commandLine == CommandLine([cliPath] + args[..i])
    {
      commandLine := commandLine + [SPACE];
      var quoted := QuoteArgument(args[i]);
      CommandLineAppend([cliPath] + args[..i], args[i]);
      assert [cliPath] + args[..i] + [args[i]] == [cliPath] + args[..i + 1];
      commandLine := commandLine + quoted;
    }
    assert args[..|args|] == args;
    forall runtime ensures ParseArguments(commandLine, runtime) == [cliPath] + args {
      ParseInvertsCommandLine([cliPath] + args, runtime);
    }
  }

  lemma {:induction false} CommandLineAppend(values: seq<Text>, value: Text)
    requires values != []
    ensures CommandLine(values + [value]) == CommandLine(values) + [SPACE] + Quoted(value)
  {
    if |values| > 1 {
      assert (values + [value])[1..] == values[1..] + [value];
      CommandLineAppend(values[1..], value);
    } else {
      assert (values + [value])[1..] == [value];
    }
  }

  // --------------------------------------------------------------- the round trip

  lemma {:induction false} LeadingRun(n: nat, rest: Text)
    requires rest == [] || rest[0] != BACKSLASH
    ensures LeadingBackslashes(Backslashes(n) + rest) == n
  {
    if n > 0 {
      assert (Backslashes(n) + rest)[1..] == Backslashes(n - 1) + rest;
      LeadingRun(n - 1, rest);
    } else {
      assert Backslashes(n) + rest == rest;
    }
  }

  /** Taking one step off the front of a line. */
  lemma ParseByStep(head: Text, tail: Text, inQuotes: bool, text: Text, inQuotes': bool, runtime: Runtime, arg: Text,
                    rest: Text)
    requires NextStep(head + tail, inQuotes, runtime) == Take(text, |head|, inQuotes')
    requires ParseArgument(tail, inQuotes', runtime) == (arg, rest)
    ensures ParseArgument(head + tail, inQuotes, runtime) == (text + arg, rest)
  {
    assert (head + tail)[|head|..] == tail;
  }

  // An argument ends at the end of the line or before a delimiter.
  predicate Ends(rest: Text) { rest == [] || IsDelimiter(rest[0]) }

  lemma StepAtEnd(rest: Text, runtime: Runtime)
    requires Ends(rest)
    ensures NextStep(rest, false, runtime) == Stop
  {
    assert rest != [] ==> LeadingBackslashes(rest) == 0;
  }

  lemma StepOverBackslashes(n: nat, s: Text, inQuotes: bool, runtime: Runtime)
    requires n > 0 && (s == [] || (s[0] != BACKSLASH && s[0] != QUOTE))
    ensures NextStep(Backslashes(n) + s, inQuotes, runtime) == Take(Backslashes(n), n, inQuotes)
  {
    LeadingRun(n, s);
  }

  lemma StepOverOrdinary(c: CodeUnit, s: Text, inQuotes: bool, runtime: Runtime)
    requires c != BACKSLASH && c != QUOTE && (inQuotes || !IsDelimiter(c))
    ensures NextStep([c] + s, inQuotes, runtime) == Take([c], 1, inQuotes)
  {
    assert LeadingBackslashes([c] + s) == 0;
  }

  lemma StepOverEscapedQuote(n: nat, s: Text, inQuotes: bool, runtime: Runtime)
    ensures NextStep(Backslashes(2 * n + 1) + [QUOTE] + s, inQuotes, runtime) ==
            Take(Backslashes(n) + [QUOTE], 2 * n + 2, inQuotes)
  {
    LeadingRun(2 * n + 1, [QUOTE] + s);
    assert Backslashes(2 * n + 1) + ([QUOTE] + s) == Backslashes(2 * n + 1) + [QUOTE] + s;
  }

  lemma StepOverDelimitingQuote(n: nat, s: Text, inQuotes: bool, runtime: Runtime)
    requires inQuotes ==> Ends(s)
    ensures NextStep(Backslashes(2 * n) + [QUOTE] + s, inQuotes, runtime) == Take(Backslashes(n), 2 * n + 1, !inQuotes)
  {
    LeadingRun(2 * n, [QUOTE] + s);
    var line := Backslashes(2 * n) + ([QUOTE] + s);
    assert line == Backslashes(2 * n) + [QUOTE] + s;
    assert line[2 * n + 1..] == s;
  }

  // ---- the quoted form

  // The units the quoting loop writes for one unit that is no backslash.
  function EscapedUnit(c: CodeUnit, pending: nat): Text {
    if c == QUOTE then Backslashes(2 * pending + 1) + [QUOTE] else Backslashes(pending) + [c]
  }

  lemma EscapedByUnit(value: Text, pending: nat, rest: Text)
    requires value != [] && value[0] != BACKSLASH
    ensures Escaped(value, pending) + rest == EscapedUnit(value[0], pending) + (Escaped(value[1..], 0) + rest)
    ensures Backslashes(pending) + [value[0]] + (Backslashes(0) + value[1..]) == Backslashes(pending) + value
  {
  }

  lemma ParseEscapedUnit(c: CodeUnit, pending: nat, after: Text, runtime: Runtime, arg: Text, rest: Text)
    requires c != BACKSLASH && ParseArgument(after, true, runtime) == (arg, rest)
    ensures ParseArgument(EscapedUnit(c, pending) + after, true, runtime) == (Backslashes(pending) + [c] + arg, rest)
  {
    if c == QUOTE {
      StepOverEscapedQuote(pending, after, true, runtime);
      ParseByStep(EscapedUnit(c, pending), after, true, Backslashes(pending) + [QUOTE], true, runtime, arg, rest);
    } else {
      StepOverOrdinary(c, after, true, runtime);
      ParseByStep([c], after, true, [c], true, runtime, arg, rest);
      ParsePrecedingBackslashes(pending, [c] + after, true, runtime, [c] + arg, rest);
      Regroup(Backslashes(pending), [c], after);
      Regroup(Backslashes(pending), [c], arg);
    }
  }

  lemma ParsePrecedingBackslashes(n: nat, s: Text, inQuotes: bool, runtime: Runtime, arg: Text, rest: Text)
    requires s == [] || (s[0] != BACKSLASH && s[0] != QUOTE)
    requires ParseArgument(s, inQuotes, runtime) == (arg, rest)
    ensures ParseArgument(Backslashes(n) + s, inQuotes, runtime) == (Backslashes(n) + arg, rest)
  {
    if n == 0 {
      assert Backslashes(n) + s == s && Backslashes(n) + arg == arg;
    } else {
      StepOverBackslashes(n, s, inQuotes, runtime);
      ParseByStep(Backslashes(n), s, inQuotes, Backslashes(n), inQuotes, runtime, arg, rest);
    }
  }

  lemma ParseClosingQuote(n: nat, rest: Text, runtime: Runtime)
    requires Ends(rest)
    ensures ParseArgument(Backslashes(2 * n) + [QUOTE] + rest, true, runtime) == (Backslashes(n), rest)
  {
    StepAtEnd(rest, runtime);
    StepOverDelimitingQuote(n, rest, true, runtime);
    ParseByStep(Backslashes(2 * n) + [QUOTE], rest, true, Backslashes(n), false, runtime, [], rest);
    assert Backslashes(n) + [] == Backslashes(n);
  }

  lemma {:induction false} ParseInvertsEscaped(value: Text, pending: nat, rest: Text, runtime: Runtime)
    requires Ends(rest)
    ensures ParseArgument(Escaped(value, pending) + rest, true, runtime) == (Backslashes(pending) + value, rest)
    decreases |value|
  {
    if value == [] {
      ParseClosingQuote(pending, rest, runtime);
      assert Backslashes(pending) + value == Backslashes(pending);
    } else if value[0] == BACKSLASH {
      ParseInvertsEscaped(value[1..], pending + 1, rest, runtime);
      assert Backslashes(pending + 1) + value[1..] == Backslashes(pending) + value;
    } else {
      ParseInvertsEscaped(value[1..], 0, rest, runtime);
      EscapedByUnit(value, pending, rest);
      ParseEscapedUnit(value[0], pending, Escaped(value[1..], 0) + rest, runtime, Backslashes(0) + value[1..], rest);
    }
  }

  // ---- the bare form

  lemma {:induction false} LeadingPrefix(s: Text)
    ensures var n := LeadingBackslashes(s); s == Backslashes(n) + s[n..] && (n < |s| ==> s[n] != BACKSLASH)
  {
    if s != [] && s[0] == BACKSLASH {
      LeadingPrefix(s[1..]);
    }
  }

  predicate IsBare(value: Text) {
    forall i :: 0 <= i < |value| ==> value[i] != QUOTE && !IsWhiteSpace(value[i])
  }

  lemma {:induction false} ParseUnquoted(value: Text, rest: Text, runtime: Runtime)
    requires Ends(rest) && IsBare(value)
    ensures ParseArgument(value + rest, false, runtime) == (value, rest)
    decreases |value|
  {
    if value == [] {
      StepAtEnd(rest, runtime);
      assert value + rest == rest;
    } else if value[0] == BACKSLASH {
      var n := LeadingBackslashes(value);
      LeadingPrefix(value);
      var tail := value[n..];
      ParseUnquoted(tail, rest, runtime);
      ParsePrecedingBackslashes(n, tail + rest, false, runtime, tail, rest);
      Regroup(Backslashes(n), tail, rest);
    } else {
      var tail := value[1..];
      assert value == [value[0]] + tail;
      ParseUnquoted(tail, rest, runtime);
      StepOverOrdinary(value[0], tail + rest, false, runtime);
      ParseByStep([value[0]], tail + rest, false, [value[0]], false, runtime, tail, rest);
      Regroup([value[0]], tail, rest);
    }
  }

  // ---- whole lines

  lemma ParseInvertsQuoted(value: Text, rest: Text, runtime: Runtime)
    requires Ends(rest)
    ensures ParseArgument(Quoted(value) + rest, false, runtime) == (value, rest)
  {
    if RequiresQuotes(value) {
      var body := Escaped(value, 0) + rest;
      assert Quoted(value) + rest == Backslashes(0) + [QUOTE] + body;
      ParseInvertsEscaped(value, 0, rest, runtime);
      StepOverDelimitingQuote(0, body, false, runtime);
      ParseByStep(Backslashes(0) + [QUOTE], body, false, Backslashes(0), true, runtime, Backslashes(0) + value, rest);
      assert Backslashes(0) + (Backslashes(0) + value) == value;
    } else {
      ParseUnquoted(value, rest, runtime);
    }
  }

  lemma QuotedIsAnArgument(value: Text, rest: Text, runtime: Runtime)
    requires Ends(rest)
    ensures var line := Quoted(value) + rest;
            line != [] && !IsDelimiter(line[0]) &&
                ParseArguments(line, runtime) == [value] + ParseArguments(rest, runtime)
  {
    ParseInvertsQuoted(value, rest, runtime);
  }

  /** The parser undoes the printer on every non-empty list of arguments, under both quote-doubling rules. */
  lemma {:induction false} ParseInvertsCommandLine(values: seq<Text>, runtime: Runtime)
    requires values != []
    ensures ParseArguments(CommandLine(values), runtime) == values
    decreases |values|
  {
    var rest := if |values| == 1 then [] else [SPACE] + CommandLine(values[1..]);
    assert CommandLine(values) == Quoted(values[0]) + rest;
    QuotedIsAnArgument(values[0], rest, runtime);
    if |values| > 1 {
      ParseInvertsCommandLine(values[1..], runtime);
      assert rest[1..] == CommandLine(values[1..]);
    }
  }
}
