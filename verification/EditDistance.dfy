/** `levenshtein` of src/cli/command-suggestion.ts: the two-row table computes the edit distance, and the
    edit distance is the length of a shortest edit script, hence a metric. */
module EditDistance {
  import opened Basics

  function Cost(x: CodeUnit, y: CodeUnit): nat { if x == y then 0 else 1 }

  /** The recursive edit distance, by the last characters. */
  function Distance(a: Text, b: Text): nat
    decreases |a| + |b|
  {
    if a == [] then |b|
    else if b == [] then |a|
    else
      var (m, n) := (|a| - 1, |b| - 1);
      Min(Distance(a[..m], b) + 1, Min(Distance(a, b[..n]) + 1, Distance(a[..m], b[..n]) + Cost(a[m], b[n])))
  }

  lemma TableStep(a: Text, b: Text, i: nat, j: nat)
    requires 1 <= i <= |a| && 1 <= j <= |b|
    ensures Distance(a[..i], b[..j]) ==
            Min(Distance(a[..i - 1], b[..j]) + 1,
                Min(Distance(a[..i], b[..j - 1]) + 1, Distance(a[..i - 1], b[..j - 1]) + Cost(a[i - 1], b[j - 1])))
  {
    assert a[..i][..i - 1] == a[..i - 1] && b[..j][..j - 1] == b[..j - 1];
  }

  /** Row `i` of the table, as far as column `last`. */
  ghost predicate IsRow(row: seq<nat>, a: Text, b: Text, i: nat, last: nat)
    requires i <= |a| && last <= |b|
  {
    last < |row| && forall j :: 0 <= j <= last ==> row[j] == Distance(a[..i], b[..j])
  }

  method Levenshtein(a: Text, b: Text) returns (distance: nat)
    ensures distance == Distance(a, b)
  {
    var m, n := |a|, |b|;
    if m == 0 { return n; }
    if n == 0 { return m; }
    var prev := new nat[n + 1](index => index);
    var curr := new nat[n + 1](_ => 0);
    assert IsRow(prev[..], a, b, 0, n);
    for i := 1 to m + 1
      invariant prev != curr && prev.Length == curr.Length == n + 1
      invariant fresh(prev) && fresh(curr)
      invariant IsRow(prev[..], a, b, i - 1, n)
    {
      FillRow(a, b, i, prev, curr);
      var swap := prev;
      prev := curr;
      curr := swap;
    }
    assert a[..m] == a && b[..n] == b;
    return prev[n];
  }

  // The inner loop of `levenshtein`: one row from the row above it.
  method FillRow(a: Text, b: Text, i: nat, prev: array<nat>, curr: array<nat>)
    requires 1 <= i <= |a| && b != []
    requires prev != curr && prev.Length == curr.Length == |b| + 1
    requires IsRow(prev[..], a, b, i - 1, |b|)
    modifies curr
    ensures IsRow(curr[..], a, b, i, |b|)
  {
    curr[0] := i;
    for j := 1 to |b| + 1
      invariant IsRow(curr[..], a, b, i, j - 1)
    {
      var cost := Cost(a[i - 1], b[j - 1]);
      ghost var row := curr[..];
      RowStep(a, b, i, j, prev[..], row);
      curr[j] := Min(prev[j] + 1, Min(curr[j - 1] + 1, prev[j - 1] + cost));
      assert curr[..] == row[j := curr[j]];
    }
  }

  lemma RowStep(a: Text, b: Text, i: nat, j: nat, above: seq<nat>, row: seq<nat>)
    requires 1 <= i <= |a| && 1 <= j <= |b| && j < |row|
    requires IsRow(above, a, b, i - 1, |b|) && IsRow(row, a, b, i, j - 1)
    ensures var value := Min(above[j] + 1, Min(row[j - 1] + 1, above[j - 1] + Cost(a[i - 1], b[j - 1])));
            IsRow(row[j := value], a, b, i, j)
  {
    TableStep(a, b, i, j);
  }

  // ---------------------------------------------------------------- metric laws

  lemma {:induction false} DistanceSymmetric(a: Text, b: Text)
    ensures Distance(a, b) == Distance(b, a)
    decreases |a| + |b|
  {
    if a != [] && b != [] {
      var (m, n) := (|a| - 1, |b| - 1);
      DistanceSymmetric(a[..m], b);
      DistanceSymmetric(a, b[..n]);
      DistanceSymmetric(a[..m], b[..n]);
    }
  }

  lemma {:induction false} DistanceBounds(a: Text, b: Text)
    ensures Max(|a| - |b|, |b| - |a|) <= Distance(a, b) <= Max(|a|, |b|)
    decreases |a| + |b|
  {
    if a != [] && b != [] {
      var (m, n) := (|a| - 1, |b| - 1);
      DistanceBounds(a[..m], b);
      DistanceBounds(a, b[..n]);
      DistanceBounds(a[..m], b[..n]);
    }
  }

  lemma {:induction false} DistanceZeroIffEqual(a: Text, b: Text)
    ensures Distance(a, b) == 0 <==> a == b
    decreases |a| + |b|
  {
    if a != [] && b != [] {
      var (m, n) := (|a| - 1, |b| - 1);
      DistanceZeroIffEqual(a[..m], b[..n]);
      DistanceBounds(a, b);
      assert a == a[..m] + [a[m]] && b == b[..n] + [b[n]];
    }
  }

  lemma DropLastCostsOne(a: Text, b: Text)
    requires a != []
    ensures Distance(a, b) <= Distance(a[..|a| - 1], b) + 1
    ensures Distance(b, a) <= Distance(b, a[..|a| - 1]) + 1
  {
    DistanceSymmetric(a, b);
    DistanceSymmetric(a[..|a| - 1], b);
  }

  lemma {:induction false} DistanceTriangle(a: Text, b: Text, c: Text)
    ensures Distance(a, c) <= Distance(a, b) + Distance(b, c)
    decreases |a| + |b| + |c|
  {
    DistanceBounds(a, b);
    DistanceBounds(b, c);
    DistanceBounds(a, c);
    if a != [] && b != [] && c != [] {
      var (m, n, k) := (|a| - 1, |b| - 1, |c| - 1);
      var (a', b', c') := (a[..m], b[..n], c[..k]);
      if Distance(a, b) == Distance(a', b) + 1 {
        DistanceTriangle(a', b, c);
      } else if Distance(b, c) == Distance(b, c') + 1 {
        DistanceTriangle(a, b, c');
      } else if Distance(a, b) == Distance(a, b') + 1 {
        if Distance(b, c) == Distance(b', c) + 1 {
          DistanceTriangle(a, b', c);
        } else {
          DistanceTriangle(a, b', c');
        }
      } else {
        if Distance(b, c) == Distance(b', c) + 1 {
          DistanceTriangle(a', b', c);
        } else {
          DistanceTriangle(a', b', c');
        }
      }
    }
  }

  // ------------------------------------------- the distance is a shortest edit script

  datatype Edit = Insertion(at: nat, unit: CodeUnit) | Deletion(at: nat) | Replacement(at: nat, unit: CodeUnit)

  predicate Applies(e: Edit, s: Text) {
    if e.Insertion? then e.at <= |s| else e.at < |s|
  }

  function Apply(e: Edit, s: Text): Text
    requires Applies(e, s)
  {
    match e
    case Insertion(at, unit) => s[..at] + [unit] + s[at..]
    case Deletion(at) => s[..at] + s[at + 1..]
    case Replacement(at, unit) => s[..at] + [unit] + s[at + 1..]
  }

  /** Carrying out the edits in order turns `a` into `b`. */
  predicate Rewrites(script: seq<Edit>, a: Text, b: Text) {
    if script == [] then a == b
    else Applies(script[0], a) && Rewrites(script[1..], Apply(script[0], a), b)
  }

  lemma RewritesFirst(e: Edit, rest: seq<Edit>, a: Text, c: Text)
    requires Applies(e, a) && Rewrites(rest, Apply(e, a), c)
    ensures Rewrites([e] + rest, a, c)
  {
    assert ([e] + rest)[1..] == rest;
  }

  lemma HeadFirst<T>(s: seq<T>)
    requires s != []
    ensures s == [s[0]] + s[1..]
  {
  }

  lemma {:induction false} RewritesCompose(first: seq<Edit>, second: seq<Edit>, a: Text, b: Text, c: Text)
    requires Rewrites(first, a, b) && Rewrites(second, b, c)
    ensures Rewrites(first + second, a, c)
  {
    if first == [] {
      assert first + second == second;
    } else {
      RewritesCompose(first[1..], second, Apply(first[0], a), b, c);
      RewritesFirst(first[0], first[1..] + second, a, c);
      HeadFirst(first);
      Regroup([first[0]], first[1..], second);
    }
  }

  lemma RewritesLast(script: seq<Edit>, e: Edit, a: Text, b: Text)
    requires Rewrites(script, a, b) && Applies(e, b)
    ensures Rewrites(script + [e], a, Apply(e, b))
  {
    RewritesFirst(e, [], b, Apply(e, b));
    assert [e] + [] == [e];
    RewritesCompose(script, [e], a, b, Apply(e, b));
  }

  lemma ApplyBeforeSuffix(e: Edit, a: Text, suffix: Text)
    requires Applies(e, a)
    ensures Applies(e, a + suffix) && Apply(e, a + suffix) == Apply(e, a) + suffix
  {
    assert (a + suffix)[..e.at] == a[..e.at];
    if e.Insertion? {
      assert (a + suffix)[e.at..] == a[e.at..] + suffix;
    } else {
      assert (a + suffix)[e.at + 1..] == a[e.at + 1..] + suffix;
    }
  }

  lemma {:induction false} RewritesBeforeSuffix(script: seq<Edit>, a: Text, b: Text, suffix: Text)
    requires Rewrites(script, a, b)
    ensures Rewrites(script, a + suffix, b + suffix)
  {
    if script != [] {
      var e := script[0];
      ApplyBeforeSuffix(e, a, suffix);
      RewritesBeforeSuffix(script[1..], Apply(e, a), b, suffix);
    }
  }

  predicate EndsInDeletion(a: Text, b: Text) { a != [] && Distance(a, b) == Distance(a[..|a| - 1], b) + 1 }

  predicate EndsInInsertion(a: Text, b: Text) { b != [] && Distance(a, b) == Distance(a, b[..|b| - 1]) + 1 }

  // What the last column of an alignment can be.
  lemma LastEdit(a: Text, b: Text)
    requires !EndsInDeletion(a, b) && !EndsInInsertion(a, b) && (a != [] || b != [])
    ensures a != [] && b != []
    ensures Distance(a, b) == Distance(a[..|a| - 1], b[..|b| - 1]) + Cost(a[|a| - 1], b[|b| - 1])
  {
  }

  lemma {:induction false} ScriptOfDistance(a: Text, b: Text) returns (script: seq<Edit>)
    ensures Rewrites(script, a, b) && |script| == Distance(a, b)
    decreases |a| + |b|
  {
    if a == [] && b == [] {
      script := [];
    } else if EndsInDeletion(a, b) {
      var rest := ScriptOfDistance(a[..|a| - 1], b);
      script := DeleteLast(rest, a, b);
    } else if EndsInInsertion(a, b) {
      var rest := ScriptOfDistance(a, b[..|b| - 1]);
      script := InsertLast(rest, a, b);
    } else {
      LastEdit(a, b);
      var rest := ScriptOfDistance(a[..|a| - 1], b[..|b| - 1]);
      script := EndWith(rest, a, b);
    }
  }

  lemma DeleteLast(rest: seq<Edit>, a: Text, b: Text) returns (script: seq<Edit>)
    requires a != [] && Rewrites(rest, a[..|a| - 1], b)
    ensures Rewrites(script, a, b) && |script| == |rest| + 1
  {
    var e := Deletion(|a| - 1);
    assert Apply(e, a) == a[..|a| - 1];
    RewritesFirst(e, rest, a, b);
    script := [e] + rest;
  }

  lemma InsertLast(rest: seq<Edit>, a: Text, b: Text) returns (script: seq<Edit>)
    requires b != [] && Rewrites(rest, a, b[..|b| - 1])
    ensures Rewrites(script, a, b) && |script| == |rest| + 1
  {
    var b' := b[..|b| - 1];
    var e := Insertion(|b'|, b[|b| - 1]);
    assert Apply(e, b') == b;
    RewritesLast(rest, e, a, b');
    script := rest + [e];
  }

  lemma EndWith(rest: seq<Edit>, a: Text, b: Text) returns (script: seq<Edit>)
    requires a != [] && b != [] && Rewrites(rest, a[..|a| - 1], b[..|b| - 1])
    ensures Rewrites(script, a, b) && |script| == |rest| + Cost(a[|a| - 1], b[|b| - 1])
  {
    var (m, n) := (|a| - 1, |b| - 1);
    SplitLast(a);
    SplitLast(b);
    if a[m] == b[n] {
      RewritesBeforeSuffix(rest, a[..m], b[..n], [a[m]]);
      script := rest;
    } else {
      EndWithReplacement(rest, a[..m], b[..n], a[m], b[n]);
      script := rest + [Replacement(n, b[n])];
    }
  }

  lemma SplitLast(s: Text)
    requires s != []
    ensures s == s[..|s| - 1] + [s[|s| - 1]]
  {
  }

  lemma EndWithReplacement(rest: seq<Edit>, p: Text, q: Text, x: CodeUnit, y: CodeUnit)
    requires Rewrites(rest, p, q)
    ensures Rewrites(rest + [Replacement(|q|, y)], p + [x], q + [y])
  {
    RewritesBeforeSuffix(rest, p, q, [x]);
    ReplaceLast(q, x, y);
    RewritesLast(rest, Replacement(|q|, y), p + [x], q + [x]);
  }

  lemma ReplaceLast(p: Text, x: CodeUnit, y: CodeUnit)
    ensures Applies(Replacement(|p|, y), p + [x]) && Apply(Replacement(|p|, y), p + [x]) == p + [y]
  {
    assert (p + [x])[..|p|] == p && (p + [x])[|p| + 1..] == [];
  }

  lemma SameLast(p: Text, q: Text, x: CodeUnit)
    ensures Distance(p + [x], q + [x]) <= Distance(p, q)
  {
    assert (p + [x])[..|p|] == p && (q + [x])[..|q|] == q;
  }

  lemma {:induction false} CommonSuffix(u: Text, v: Text, t: Text)
    ensures Distance(u + t, v + t) <= Distance(u, v)
  {
    if t == [] {
      assert u + t == u && v + t == v;
    } else {
      var k := |t| - 1;
      CommonSuffix(u, v, t[..k]);
      SameLast(u + t[..k], v + t[..k], t[k]);
      SplitLast(t);
      Regroup(u, t[..k], [t[k]]);
      Regroup(v, t[..k], [t[k]]);
    }
  }

  lemma SplitAt(s: Text, at: nat)
    requires at < |s|
    ensures s == s[..at] + [s[at]] + s[at + 1..]
  {
  }

  // One unit more, or another one, before a common suffix.
  lemma OneUnitMore(p: Text, unit: CodeUnit, suffix: Text)
    ensures Distance(p + suffix, p + [unit] + suffix) <= 1 && Distance(p + [unit] + suffix, p + suffix) <= 1
  {
    assert (p + [unit])[..|p|] == p;
    DistanceZeroIffEqual(p, p);
    DropLastCostsOne(p + [unit], p);
    CommonSuffix(p, p + [unit], suffix);
    CommonSuffix(p + [unit], p, suffix);
  }

  lemma OneUnitReplaced(p: Text, from: CodeUnit, to: CodeUnit, suffix: Text)
    ensures Distance(p + [from] + suffix, p + [to] + suffix) <= 1
  {
    assert (p + [from])[..|p|] == p == (p + [to])[..|p|];
    DistanceZeroIffEqual(p, p);
    CommonSuffix(p + [from], p + [to], suffix);
  }

  lemma OneEditCostsAtMostOne(e: Edit, s: Text)
    requires Applies(e, s)
    ensures Distance(s, Apply(e, s)) <= 1
  {
    match e
    case Insertion(at, unit) =>
      assert s == s[..at] + s[at..];
      OneUnitMore(s[..at], unit, s[at..]);
    case Deletion(at) =>
      SplitAt(s, at);
      OneUnitMore(s[..at], s[at], s[at + 1..]);
    case Replacement(at, unit) =>
      SplitAt(s, at);
      OneUnitReplaced(s[..at], s[at], unit, s[at + 1..]);
  }

  lemma {:induction false} NoScriptIsShorter(script: seq<Edit>, a: Text, b: Text)
    requires Rewrites(script, a, b)
    ensures Distance(a, b) <= |script|
  {
    DistanceZeroIffEqual(a, b);
    if script != [] {
      var next := Apply(script[0], a);
      OneEditCostsAtMostOne(script[0], a);
      NoScriptIsShorter(script[1..], next, b);
      DistanceTriangle(a, next, b);
    }
  }

  /** `d` is the edit distance exactly when it is the least number of single-character edits from `a` to `b`. */
  lemma DistanceIsShortestScript(a: Text, b: Text, d: nat)
    ensures d == Distance(a, b) <==>
            && (exists script :: Rewrites(script, a, b) && |script| == d)
            && (forall script :: Rewrites(script, a, b) ==> d <= |script|)
  {
    var best := ScriptOfDistance(a, b);
    forall script | Rewrites(script, a, b) ensures Distance(a, b) <= |script| {
      NoScriptIsShorter(script, a, b);
    }
  }
}
