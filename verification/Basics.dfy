/** Shared vocabulary: strings as sequences of UTF-16 code units, and optional values. */
module Basics {
  // Both JavaScript and C# strings index UTF-16 code units; a lone surrogate is a legal element.
  type CodeUnit = u: int | 0 <= u < 0x1_0000
  type Text = seq<CodeUnit>

  const TAB: CodeUnit := 9
  const LF: CodeUnit := 10
  const CR: CodeUnit := 13
  const SPACE: CodeUnit := 32

  datatype Option<+T> = None | Some(value: T)

  function Min(a: int, b: int): int { if a <= b then a else b }

  function Max(a: int, b: int): int { if a >= b then a else b }

  function Filter<T(!new)>(s: seq<T>, keep: T -> bool): (r: seq<T>)
    ensures forall x :: x in r <==> x in s && keep(x)
    ensures |r| <= |s|
  {
    if s == [] then []
    else (if keep(s[0]) then [s[0]] else []) + Filter(s[1..], keep)
  }

  lemma {:induction false} FilterConcat<T(!new)>(a: seq<T>, b: seq<T>, keep: T -> bool)
    ensures Filter(a + b, keep) == Filter(a, keep) + Filter(b, keep)
  {
    if a == [] {
      assert a + b == b;
    } else {
      assert (a + b)[1..] == a[1..] + b;
      FilterConcat(a[1..], b, keep);
    }
  }

  lemma {:induction false} FilterAll<T(!new)>(s: seq<T>, keep: T -> bool)
    requires forall x :: x in s ==> keep(x)
    ensures Filter(s, keep) == s
  {
    if s != [] {
      FilterAll(s[1..], keep);
    }
  }

  lemma {:induction false} FilterNone<T(!new)>(s: seq<T>, keep: T -> bool)
    requires forall i :: 0 <= i < |s| ==> !keep(s[i])
    ensures Filter(s, keep) == []
  {
    if s != [] {
      FilterNone(s[1..], keep);
    }
  }

  // String.prototype.trim.
  predicate IsJsWhiteSpace(c: CodeUnit) {
    || 9 <= c <= 13 || c == 0x20 || c == 0xA0 || c == 0x1680 || 0x2000 <= c <= 0x200A
    || c == 0x2028 || c == 0x2029 || c == 0x202F || c == 0x205F || c == 0x3000 || c == 0xFEFF
  }

  function TrimStart(s: Text): Text { if s != [] && IsJsWhiteSpace(s[0]) then TrimStart(s[1..]) else s }

  function TrimEnd(s: Text): Text { if s != [] && IsJsWhiteSpace(s[|s| - 1]) then TrimEnd(s[..|s| - 1]) else s }

  function Trim(s: Text): Text { TrimStart(TrimEnd(s)) }

  predicate IsBlank(s: Text) { forall i :: 0 <= i < |s| ==> IsJsWhiteSpace(s[i]) }

  predicate IsTrimmed(s: Text) { s == [] || (!IsJsWhiteSpace(s[0]) && !IsJsWhiteSpace(s[|s| - 1])) }

  /** Trimming takes off white space alone, and all of it at both ends. */
  lemma TrimTakesOffBlanks(s: Text) returns (before: Text, after: Text)
    ensures s == before + Trim(s) + after && IsBlank(before) && IsBlank(after) && IsTrimmed(Trim(s))
  {
    after := TrimEndTakesOff(s);
    before := TrimStartTakesOff(TrimEnd(s));
    if Trim(s) != [] {
      assert Trim(s)[|Trim(s)| - 1] == TrimEnd(s)[|TrimEnd(s)| - 1];
    }
  }

  lemma {:induction false} TrimStartTakesOff(s: Text) returns (before: Text)
    ensures s == before + TrimStart(s) && IsBlank(before)
    ensures TrimStart(s) != [] ==> !IsJsWhiteSpace(TrimStart(s)[0])
  {
    before := [];
    if s != [] && IsJsWhiteSpace(s[0]) {
      var rest := TrimStartTakesOff(s[1..]);
      before := [s[0]] + rest;
    }
  }

  lemma {:induction false} TrimEndTakesOff(s: Text) returns (after: Text)
    ensures s == TrimEnd(s) + after && IsBlank(after)
    ensures TrimEnd(s) != [] ==> !IsJsWhiteSpace(TrimEnd(s)[|TrimEnd(s)| - 1])
  {
    after := [];
    if s != [] && IsJsWhiteSpace(s[|s| - 1]) {
      var rest := TrimEndTakesOff(s[..|s| - 1]);
      after := rest + [s[|s| - 1]];
    }
  }

  lemma {:induction false} TrimStartOfBlank(before: Text, s: Text)
    requires IsBlank(before) && (s == [] || !IsJsWhiteSpace(s[0]))
    ensures TrimStart(before + s) == s
  {
    if before == [] {
      assert before + s == s;
    } else {
      assert (before + s)[1..] == before[1..] + s;
      TrimStartOfBlank(before[1..], s);
    }
  }

  lemma {:induction false} TrimEndOfBlank(s: Text, after: Text)
    requires IsBlank(after) && (s == [] || !IsJsWhiteSpace(s[|s| - 1]))
    ensures TrimEnd(s + after) == s
    decreases |after|
  {
    if after == [] {
      assert s + after == s;
    } else {
      assert (s + after)[..|s + after| - 1] == s + after[..|after| - 1];
      TrimEndOfBlank(s, after[..|after| - 1]);
    }
  }

  lemma TrimOfPadded(before: Text, s: Text, after: Text)
    requires IsBlank(before) && IsBlank(after) && s != [] && IsTrimmed(s)
    ensures Trim(before + s + after) == s
  {
    TrimEndOfBlank(before + s, after);
    TrimStartOfBlank(before, s);
  }

  // Array.prototype.join and String.prototype.split with a separator of one unit.
  function Join(pieces: seq<Text>, separator: CodeUnit): Text {
    if pieces == [] then []
    else if |pieces| == 1 then pieces[0]
    else pieces[0] + [separator] + Join(pieces[1..], separator)
  }

  function Split(s: Text, separator: CodeUnit): (r: seq<Text>)
    ensures r != [] && forall piece :: piece in r ==> separator !in piece
  {
    if s == [] then [[]]
    else
      var rest := Split(s[1..], separator);
      if s[0] == separator then [[]] + rest else [[s[0]] + rest[0]] + rest[1..]
  }

  lemma JoinWithFirst(c: CodeUnit, pieces: seq<Text>, separator: CodeUnit)
    requires pieces != []
    ensures Join([[c] + pieces[0]] + pieces[1..], separator) == [c] + Join(pieces, separator)
    ensures Join([[]] + pieces, separator) == [separator] + Join(pieces, separator)
  {
    var longer := [[c] + pieces[0]] + pieces[1..];
    assert longer[1..] == pieces[1..] && ([[]] + pieces)[1..] == pieces;
    assert [] + [separator] == [separator];
    if |pieces| > 1 {
      Regroup([c], pieces[0], [separator]);
      Regroup([c], pieces[0] + [separator], Join(pieces[1..], separator));
    }
  }

  lemma {:induction false} JoinInvertsSplit(s: Text, separator: CodeUnit)
    ensures Join(Split(s, separator), separator) == s
  {
    if s != [] {
      JoinInvertsSplit(s[1..], separator);
      JoinWithFirst(s[0], Split(s[1..], separator), separator);
      assert s == [s[0]] + s[1..];
    }
  }

  /** Pieces without the separator come back from what they are joined to, and so they are what splitting finds. */
  lemma {:induction false} SplitInvertsJoin(pieces: seq<Text>, separator: CodeUnit)
    requires pieces != [] && forall piece :: piece in pieces ==> separator !in piece
    ensures Split(Join(pieces, separator), separator) == pieces
  {
    assert pieces[0] in pieces;
    if |pieces| == 1 {
      SplitFirst(pieces[0], [], separator);
      assert pieces[0] + [] == pieces[0] && pieces == [pieces[0]];
    } else {
      assert forall piece :: piece in pieces[1..] ==> piece in pieces;
      SplitInvertsJoin(pieces[1..], separator);
      SplitFirst(pieces[0], [separator] + Join(pieces[1..], separator), separator);
      Regroup(pieces[0], [separator], Join(pieces[1..], separator));
      assert ([separator] + Join(pieces[1..], separator))[1..] == Join(pieces[1..], separator);
    }
  }

  lemma {:induction false} SplitFirst(piece: Text, rest: Text, separator: CodeUnit)
    requires separator !in piece && (rest == [] || rest[0] == separator)
    ensures Split(piece + rest, separator) == [piece] + if rest == [] then [] else Split(rest[1..], separator)
  {
    if piece == [] {
      assert piece + rest == rest;
    } else {
      assert piece[0] in piece && forall c :: c in piece[1..] ==> c in piece;
      assert (piece + rest)[1..] == piece[1..] + rest && (piece + rest)[0] == piece[0];
      SplitFirst(piece[1..], rest, separator);
      var later := Split(piece[1..] + rest, separator);
      assert later[0] == piece[1..] && [piece[0]] + later[0] == piece;
      assert later[1..] == if rest == [] then [] else Split(rest[1..], separator);
    }
  }

  ghost predicate Distinct<T>(s: seq<T>) {
    forall i, j :: 0 <= i < j < |s| ==> s[i] != s[j]
  }

  lemma Regroup<T>(a: seq<T>, b: seq<T>, c: seq<T>)
    ensures a + (b + c) == a + b + c
  {
  }
}
