/** CRLF handling of setup scripts: src/main/hooks.ts. */
module LineEndings {
  import opened Basics

  // ----------------------------------------------------------------- what is promised

  predicate IsCrLfAt(s: Text, i: int) { 0 <= i && i + 1 < |s| && s[i] == CR && s[i + 1] == LF }

  /** Every CRLF replaced by LF. */
  function Normalized(s: Text): Text
    decreases |s|
  {
    if s == [] then []
    else if IsCrLfAt(s, 0) then [LF] + Normalized(s[2..])
    else [s[0]] + Normalized(s[1..])
  }

  /** The pieces between the LFs; always one more than there are LFs. */
  function Lines(s: Text): seq<Text> { Split(s, LF) }

  // -------------------------------------------------------------- scanning for CRLF

  /** String.prototype.indexOf('\\r\\n', from). */
  method IndexOfCrLf(s: Text, from: nat) returns (i: int)
    ensures i == -1 ==> forall j :: from <= j ==> !IsCrLfAt(s, j)
    ensures i != -1 ==> from <= i && IsCrLfAt(s, i) && forall j :: from <= j < i ==> !IsCrLfAt(s, j)
  {
    i := from;
    while i + 1 < |s|
      invariant from <= i
      invariant forall j :: from <= j < i ==> !IsCrLfAt(s, j)
    {
      if s[i] == CR && s[i + 1] == LF { return; }
      i := i + 1;
    }
    return -1;
  }

  lemma {:induction false} NormalizedKeepsPlain(s: Text, k: nat)
    requires k <= |s| && forall j :: 0 <= j < k ==> !IsCrLfAt(s, j)
    ensures Normalized(s) == s[..k] + Normalized(s[k..])
  {
    if k > 0 {
      assert !IsCrLfAt(s, 0);
      forall j | 0 <= j < k - 1 ensures !IsCrLfAt(s[1..], j) { assert !IsCrLfAt(s, j + 1); }
      NormalizedKeepsPlain(s[1..], k - 1);
      assert s[1..][k - 1..] == s[k..];
    } else {
      assert s[k..] == s;
    }
  }

  lemma NormalizedAround(s: Text, from: nat, at: nat)
    requires from <= at && IsCrLfAt(s, at) && forall j :: from <= j < at ==> !IsCrLfAt(s, j)
    ensures Normalized(s[from..]) == s[from..at] + [LF] + Normalized(s[at + 2..])
  {
    var (t, k) := (s[from..], at - from);
    forall j | 0 <= j < k ensures !IsCrLfAt(t, j) { assert !IsCrLfAt(s, from + j); }
    NormalizedKeepsPlain(t, k);
    assert t[k..] == s[at..] && s[at..][2..] == s[at + 2..];
  }

  lemma NormalizedPlainRest(s: Text, from: nat)
    requires from <= |s| && forall j :: from <= j ==> !IsCrLfAt(s, j)
    ensures Normalized(s[from..]) == s[from..]
  {
    var t := s[from..];
    forall j | 0 <= j < |t| ensures !IsCrLfAt(t, j) { assert !IsCrLfAt(s, from + j); }
    NormalizedKeepsPlain(t, |t|);
    assert t[|t|..] == [];
  }

  method NormalizeCrlfScriptLineEndings(script: Text) returns (r: Text)
    ensures r == Normalized(script)
  {
    var crlfStart := IndexOfCrLf(script, 0);
    assert script[0..] == script;
    if crlfStart == -1 {
      NormalizedPlainRest(script, 0);
      return script;
    }
    NormalizedAround(script, 0, crlfStart);
    var normalized := script[..crlfStart];
    var chunkStart := crlfStart + 2;
    normalized := normalized + [LF];
    crlfStart := IndexOfCrLf(script, chunkStart);
    while crlfStart != -1
      invariant 0 <= chunkStart <= |script|
      invariant crlfStart == -1 ==> forall j :: chunkStart <= j ==> !IsCrLfAt(script, j)
      invariant crlfStart != -1 ==>
                  chunkStart <= crlfStart && IsCrLfAt(script, crlfStart) && forall j :: chunkStart <= j < crlfStart ==>
                      !IsCrLfAt(script, j)
      invariant Normalized(script) == normalized + Normalized(script[chunkStart..])
      decreases |script| - chunkStart
    {
      NormalizedAround(script, chunkStart, crlfStart);
      normalized := normalized + script[chunkStart..crlfStart];
      normalized := normalized + [LF];
      chunkStart := crlfStart + 2;
      crlfStart := IndexOfCrLf(script, chunkStart);
    }
    NormalizedPlainRest(script, chunkStart);
    return normalized + script[chunkStart..];
  }

  // ---------------------------------------------------------------- iterating over lines

  /** The generator's next line: from `lineStart` to the LF at `index`, without the CR before it. */
  function LineEnd(s: Text, lineStart: nat, index: nat): (end: nat)
    requires lineStart <= index < |s|
    ensures lineStart <= end <= index
  {
    if index > lineStart && s[index - 1] == CR then index - 1 else index
  }

  lemma {:induction false} FirstLine(s: Text, index: nat)
    requires index < |s| && s[index] == LF && LF !in s[..index]
    ensures Lines(Normalized(s)) == [s[..LineEnd(s, 0, index)]] + Lines(Normalized(s[index + 1..]))
    decreases index
  {
    if index == 0 {
    } else if index == 1 && s[0] == CR {
      assert s[2..] == s[index + 1..];
    } else {
      assert s[0] == s[..index][0];
      assert forall c :: c in s[1..][..index - 1] ==> c in s[..index];
      FirstLine(s[1..], index - 1);
      assert s[1..][index - 1 + 1..] == s[index + 1..];
      var (end, end') := (LineEnd(s, 0, index), LineEnd(s[1..], 0, index - 1));
      assert end == end' + 1 && s[..end] == [s[0]] + s[1..][..end'];
      assert !IsCrLfAt(s, 0) by { assert s[1] == s[..index + 1][1]; assert index > 1 ==> s[1] in s[..index]; }
      var rest := Lines(Normalized(s[1..]));
      assert Normalized(s) == [s[0]] + Normalized(s[1..]);
      assert Normalized(s)[1..] == Normalized(s[1..]);
    }
  }

  lemma {:induction false} LastLine(s: Text)
    requires LF !in s
    ensures Normalized(s) == s && Lines(s) == [s]
  {
    if s != [] {
      assert s[0] in s && (forall c :: c in s[1..] ==> c in s) && (|s| > 1 ==> s[1] in s);
      LastLine(s[1..]);
    }
  }

  /** The lines up to `lineStart` are yielded, and there is no LF between there and `index`. */
  ghost predicate Yielded(script: Text, lineStart: nat, index: nat, lines: seq<Text>) {
    && lineStart <= index <= |script| && LF !in script[lineStart..index]
    && Lines(Normalized(script)) == lines + Lines(Normalized(script[lineStart..]))
  }

  method IterateLfScriptLines(script: Text) returns (lines: seq<Text>)
    ensures lines == Lines(Normalized(script))
  {
    lines := [];
    var lineStart := 0;
    NothingYielded(script);
    for index := 0 to |script|
      invariant Yielded(script, lineStart, index, lines)
    {
      if script[index] == LF {
        var line := NextLine(script, lineStart, index, lines);
        lines := lines + [line];
        lineStart := index + 1;
      } else {
        LineGoesOn(script, lineStart, index, lines);
      }
    }
    LastIsYielded(script, lineStart, lines);
    lines := lines + [script[lineStart..]];
  }

  method NextLine(script: Text, lineStart: nat, index: nat, ghost lines: seq<Text>) returns (line: Text)
    requires index < |script| && Yielded(script, lineStart, index, lines) && script[index] == LF
    ensures Yielded(script, index + 1, index + 1, lines + [line])
  {
    var lineEnd := if index > lineStart && script[index - 1] == CR then index - 1 else index;
    LineIsYielded(script, lineStart, index, lines);
    line := script[lineStart..lineEnd];
  }

  lemma NothingYielded(script: Text)
    ensures Yielded(script, 0, 0, [])
  {
    assert script[0..] == script;
  }

  lemma LineGoesOn(script: Text, lineStart: nat, index: nat, lines: seq<Text>)
    requires index < |script| && Yielded(script, lineStart, index, lines) && script[index] != LF
    ensures Yielded(script, lineStart, index + 1, lines)
  {
    assert script[lineStart..index + 1] == script[lineStart..index] + [script[index]];
  }

  lemma LineIsYielded(script: Text, lineStart: nat, index: nat, lines: seq<Text>)
    requires index < |script| && Yielded(script, lineStart, index, lines) && script[index] == LF
    ensures Yielded(script, index + 1, index + 1, lines + [script[lineStart..LineEnd(script, lineStart, index)]])
  {
    LineFrom(script, lineStart, index);
    assert script[index + 1..index + 1] == [];
    Regroup(lines, [script[lineStart..LineEnd(script, lineStart, index)]], Lines(Normalized(script[index + 1..])));
  }

  lemma LastIsYielded(script: Text, lineStart: nat, lines: seq<Text>)
    requires Yielded(script, lineStart, |script|, lines)
    ensures Lines(Normalized(script)) == lines + [script[lineStart..]]
  {
    assert script[lineStart..|script|] == script[lineStart..];
    LastLine(script[lineStart..]);
  }

  lemma LineFrom(script: Text, lineStart: nat, index: nat)
    requires lineStart <= index < |script| && script[index] == LF && LF !in script[lineStart..index]
    ensures Lines(Normalized(script[lineStart..])) ==
            [script[lineStart..LineEnd(script, lineStart, index)]] + Lines(Normalized(script[index + 1..]))
  {
    var t := script[lineStart..];
    assert t[..index - lineStart] == script[lineStart..index];
    FirstLine(t, index - lineStart);
    assert t[index - lineStart + 1..] == script[index + 1..];
    assert t[..LineEnd(t, 0, index - lineStart)] == script[lineStart..LineEnd(script, lineStart, index)];
  }

  // ----------------------------------------------------------------- the runner scripts

  function Ascii(s: string): (r: Text)
    ensures |r| == |s|
  {
    seq(|s|, i requires 0 <= i < |s| => if s[i] as int < 0x80 then s[i] as int else 0xFFFD)
  }

  const CRLF: Text := [CR, LF]
  const WINDOWS_HEADER: Text := Ascii("@echo off") + CRLF + Ascii("setlocal EnableExtensions") + CRLF
  const CALL: Text := Ascii("call ")
  const BAIL_OUT: Text := Ascii("if errorlevel 1 exit /b %errorlevel%")
  const SHEBANG: Text := Ascii("#!/usr/bin/env bash")
  const FAIL_FAST: Text := Ascii("set -e")

  function Checked(command: Text): Text { CALL + command + CRLF + BAIL_OUT + CRLF }

  /** A command is called and checked; a blank line stays blank. */
  function RunnerLine(rawLine: Text): Text {
    if Trim(rawLine) == [] then CRLF else Checked(Trim(rawLine))
  }

  function RunnerLines(lines: seq<Text>): Text {
    if lines == [] then [] else RunnerLine(lines[0]) + RunnerLines(lines[1..])
  }

  lemma {:induction false} RunnerLinesAppend(before: Text, lines: seq<Text>, line: Text)
    ensures before + RunnerLines(lines + [line]) == before + RunnerLines(lines) + RunnerLine(line)
    decreases |lines|
  {
    if lines != [] {
      assert (lines + [line])[1..] == lines[1..] + [line];
      RunnerLinesAppend(before + RunnerLine(lines[0]), lines[1..], line);
      Regroup(before, RunnerLine(lines[0]), RunnerLines(lines[1..] + [line]));
      Regroup(before, RunnerLine(lines[0]), RunnerLines(lines[1..]));
    } else {
      assert (lines + [line])[1..] == [];
    }
  }

  lemma OneMoreRunnerLine(lines: seq<Text>, i: nat)
    requires i < |lines|
    ensures WINDOWS_HEADER + RunnerLines(lines[..i + 1]) == WINDOWS_HEADER + RunnerLines(lines[..i]) +
            RunnerLine(lines[i])
  {
    assert lines[..i + 1] == lines[..i] + [lines[i]];
    RunnerLinesAppend(WINDOWS_HEADER, lines[..i], lines[i]);
  }

  method BuildWindowsRunnerScript(script: Text) returns (runnerScript: Text)
    ensures runnerScript == WINDOWS_HEADER + RunnerLines(Lines(Normalized(script)))
  {
    var lines := IterateLfScriptLines(script);
    runnerScript := WINDOWS_HEADER;
    assert WINDOWS_HEADER + [] == WINDOWS_HEADER;
    for i := 0 to |lines|
      invariant runnerScript == WINDOWS_HEADER + RunnerLines(lines[..i])
    {
      OneMoreRunnerLine(lines, i);
      var rendered := RenderLine(lines[i]);
      runnerScript := runnerScript + rendered;
    }
    assert lines[..|lines|] == lines;
  }

  // The body of the loop over the lines.
  method RenderLine(rawLine: Text) returns (rendered: Text)
    ensures rendered == RunnerLine(rawLine)
  {
    var command := Trim(rawLine);
    if command == [] { return CRLF; }
    return Checked(command);
  }

  method BuildPosixRunnerScript(script: Text) returns (runnerScript: Text)
    ensures Lines(runnerScript) == Lines(SHEBANG) + Lines(FAIL_FAST) + Lines(Normalized(script)) + [[]]
  {
    var normalized := NormalizeCrlfScriptLineEndings(script);
    runnerScript := SHEBANG + [LF] + (FAIL_FAST + [LF] + (normalized + [LF] + []));
    LinesConcat(normalized, []);
    LinesConcat(FAIL_FAST, normalized + [LF] + []);
    LinesConcat(SHEBANG, FAIL_FAST + [LF] + (normalized + [LF] + []));
  }

  lemma {:induction false} LinesConcat(a: Text, b: Text)
    ensures Lines(a + [LF] + b) == Lines(a) + Lines(b)
  {
    if a == [] {
      assert (a + [LF] + b)[1..] == b;
    } else {
      assert (a + [LF] + b)[1..] == a[1..] + [LF] + b;
      LinesConcat(a[1..], b);
    }
  }

  /** Joined by LF, the iterated lines are the normalized script, and none of them holds an LF: this is the one list of
      lines both runners are built from. */
  lemma IteratedLinesAreTheNormalizedScript(script: Text)
    ensures Join(Lines(Normalized(script)), LF) == Normalized(script)
    ensures forall line :: line in Lines(Normalized(script)) ==> LF !in line
  {
    JoinInvertsSplit(Normalized(script), LF);
  }
}
