/** Version parsing and precedence of src/main/updater-fallback.ts, against section 11 of Semantic Versioning 2.0.0. */
module VersionOrder {
  import opened Basics
  import opened Sorting

  const PLUS: CodeUnit := 43
  const HYPHEN: CodeUnit := 45
  const DOT: CodeUnit := 46

  /** What the JavaScript host decides: how a decimal numeral rounds to a number, and localeCompare. */
  datatype Host = Host(number: nat -> nat, collate: (Text, Text) -> int)

  datatype ParsedVersion = ParsedVersion(core: seq<nat>, prerelease: seq<Text>)

  // -------------------------------------------------------------------------- parsing

  predicate IsDigit(c: CodeUnit) { 48 <= c <= 57 }

  // [0-9A-Za-z-.]
  predicate IsIdentifierUnit(c: CodeUnit) { IsDigit(c) || 65 <= c <= 90 || 97 <= c <= 122 || c == HYPHEN || c == DOT }

  predicate IsV(c: CodeUnit) { c == 118 || c == 86 }

  function StripV(s: Text): Text { if s != [] && IsV(s[0]) then s[1..] else s }

  predicate AllDigits(s: Text) { forall i :: 0 <= i < |s| ==> IsDigit(s[i]) }

  /** The length of the longest prefix of units satisfying `p`. */
  function Run(s: Text, p: CodeUnit -> bool): (n: nat)
    ensures n <= |s|
  {
    if s != [] && p(s[0]) then 1 + Run(s[1..], p) else 0
  }

  function Numeral(digits: Text): nat
    requires AllDigits(digits)
  {
    if digits == [] then 0
    else
      assert IsDigit(digits[|digits| - 1]);
      Numeral(digits[..|digits| - 1]) * 10 + (digits[|digits| - 1] as int - 48)
  }

  lemma {:induction false} RunSatisfies(s: Text, p: CodeUnit -> bool)
    ensures forall i :: 0 <= i < Run(s, p) ==> p(s[i])
    ensures Run(s, p) < |s| ==> !p(s[Run(s, p)])
  {
    if s != [] && p(s[0]) { RunSatisfies(s[1..], p); }
  }

  /** One core number and the text after it. */
  function ParseNumber(s: Text): (r: Option<(nat, Text)>)
    ensures r.Some? ==> |r.value.1| < |s|
  {
    var n := Run(s, IsDigit);
    RunSatisfies(s, IsDigit);
    if n == 0 then None else Some((Numeral(s[..n]), s[n..]))
  }

  /** `count` numbers separated by dots. */
  function ParseCore(s: Text, count: nat): Option<(seq<nat>, Text)> {
    if count == 0 then Some(([], s))
    else
      match ParseNumber(s)
      case None => None
      case Some((number, rest)) =>
        if count == 1 then Some(([number], rest))
        else if rest == [] || rest[0] != DOT then None
        else
          match ParseCore(rest[1..], count - 1)
          case None => None
          case Some((numbers, rest')) => Some(([number] + numbers, rest'))
  }

  predicate IsBuild(s: Text) { |s| > 1 && s[0] == PLUS && Run(s[1..], IsIdentifierUnit) == |s| - 1 }

  /** The optional prerelease identifiers; build metadata is checked and dropped. */
  function ParseSuffix(s: Text): Option<seq<Text>> {
    if s == [] || IsBuild(s) then Some([])
    else if s[0] != HYPHEN then None
    else
      var n := Run(s[1..], IsIdentifierUnit);
      if n == 0 || !(n + 1 == |s| || IsBuild(s[n + 1..])) then None else Some(Split(s[1..n + 1], DOT))
  }

  // The anchored regular expression.
  function ParseStrict(s: Text): Option<ParsedVersion> {
    match ParseCore(s, 3)
    case None => None
    case Some((core, rest)) =>
      match ParseSuffix(rest)
      case None => None
      case Some(prerelease) => Some(ParsedVersion(core, prerelease))
  }

  function ParseVersion(value: Text): Option<ParsedVersion> { ParseStrict(StripV(Trim(value))) }

  predicate IsValidVersion(value: Text) { ParseVersion(value).Some? }

  predicate IsPrereleaseVersion(value: Text) { ParseVersion(value).Some? && ParseVersion(value).value.prerelease != [] }

  // ------------------------------------------------------------------------ comparison

  predicate IsNumeric(identifier: Text) { identifier != [] && AllDigits(identifier) }

  function CompareIdentifiers(left: Text, right: Text, host: Host): int {
    if IsNumeric(left) && IsNumeric(right) then host.number(Numeral(left)) - host.number(Numeral(right))
    else if IsNumeric(left) then -1
    else if IsNumeric(right) then 1
    else host.collate(left, right)
  }

  function CompareCores(left: seq<nat>, right: seq<nat>, host: Host): int
    requires |left| == |right|
  {
    if left == [] then 0
    else if host.number(left[0]) != host.number(right[0]) then host.number(left[0]) - host.number(right[0])
    else CompareCores(left[1..], right[1..], host)
  }

  function ComparePrereleases(left: seq<Text>, right: seq<Text>, host: Host): int {
    if left == [] && right == [] then 0
    else if left == [] then -1
    else if right == [] then 1
    else
      var comparison := CompareIdentifiers(left[0], right[0], host);
      if comparison != 0 then comparison else ComparePrereleases(left[1..], right[1..], host)
  }

  function CompareParsed(left: ParsedVersion, right: ParsedVersion, host: Host): int
    requires |left.core| == |right.core|
  {
    var core := CompareCores(left.core, right.core, host);
    if core != 0 then core
    else if left.prerelease == [] && right.prerelease == [] then 0
    else if left.prerelease == [] then 1
    else if right.prerelease == [] then -1
    else ComparePrereleases(left.prerelease, right.prerelease, host)
  }

  lemma {:induction false} CoreLength(s: Text, count: nat)
    ensures ParseCore(s, count).Some? ==> |ParseCore(s, count).value.0| == count
    decreases count
  {
    if count > 1 {
      match ParseNumber(s)
      case None =>
      case Some((number, rest)) =>
        if rest != [] && rest[0] == DOT { CoreLength(rest[1..], count - 1); }
    }
  }

  function CompareVersions(left: Text, right: Text, host: Host): int {
    CoreLength(StripV(Trim(left)), 3);
    CoreLength(StripV(Trim(right)), 3);
    if ParseVersion(left).None? || ParseVersion(right).None? then 0
    else CompareParsed(ParseVersion(left).value, ParseVersion(right).value, host)
  }

  // ------------------------------------------------------------------ a total preorder

  lemma IdentifiersFlip(a: Text, b: Text, host: Host)
    requires TotalPreorder(host.collate)
    ensures CompareIdentifiers(a, b, host) < 0 <==> CompareIdentifiers(b, a, host) > 0
  {
  }

  lemma IdentifiersTransitive(a: Text, b: Text, c: Text, host: Host)
    requires TotalPreorder(host.collate)
    requires CompareIdentifiers(a, b, host) <= 0 && CompareIdentifiers(b, c, host) <= 0
    ensures CompareIdentifiers(a, c, host) <= 0
    ensures CompareIdentifiers(a, c, host) == 0 <==>
            CompareIdentifiers(a, b, host) == 0 && CompareIdentifiers(b, c, host) == 0
  {
    if !IsNumeric(a) && !IsNumeric(b) && !IsNumeric(c) {
      CollateTransitive(a, b, c, host.collate);
    }
  }

  lemma CollateTransitive(a: Text, b: Text, c: Text, collate: (Text, Text) -> int)
    requires TotalPreorder(collate) && collate(a, b) <= 0 && collate(b, c) <= 0
    ensures collate(a, c) <= 0 && (collate(a, c) == 0 <==> collate(a, b) == 0 && collate(b, c) == 0)
  {
    assert collate(b, a) < 0 <==> collate(a, b) > 0;
    assert collate(c, b) < 0 <==> collate(b, c) > 0;
    assert collate(c, a) < 0 <==> collate(a, c) > 0;
    assert collate(c, a) <= 0 && collate(a, b) <= 0 ==> collate(c, b) <= 0;
    assert collate(b, c) <= 0 && collate(c, a) <= 0 ==> collate(b, a) <= 0;
    assert collate(c, b) <= 0 && collate(b, a) <= 0 ==> collate(c, a) <= 0;
  }

  lemma {:induction false} CoresFlip(a: seq<nat>, b: seq<nat>, host: Host)
    requires |a| == |b|
    ensures CompareCores(a, b, host) < 0 <==> CompareCores(b, a, host) > 0
  {
    if a != [] { CoresFlip(a[1..], b[1..], host); }
  }

  lemma {:induction false} CoresTransitive(a: seq<nat>, b: seq<nat>, c: seq<nat>, host: Host)
    requires |a| == |b| == |c| && CompareCores(a, b, host) <= 0 && CompareCores(b, c, host) <= 0
    ensures CompareCores(a, c, host) <= 0
    ensures CompareCores(a, c, host) == 0 <==> CompareCores(a, b, host) == 0 && CompareCores(b, c, host) == 0
  {
    if a != [] && host.number(a[0]) == host.number(b[0]) == host.number(c[0]) {
      CoresTransitive(a[1..], b[1..], c[1..], host);
    }
  }

  lemma {:induction false} PrereleasesFlip(a: seq<Text>, b: seq<Text>, host: Host)
    requires TotalPreorder(host.collate)
    ensures ComparePrereleases(a, b, host) < 0 <==> ComparePrereleases(b, a, host) > 0
  {
    if a != [] && b != [] {
      IdentifiersFlip(a[0], b[0], host);
      IdentifiersFlip(b[0], a[0], host);
      PrereleasesFlip(a[1..], b[1..], host);
    }
  }

  lemma {:induction false} PrereleasesTransitive(a: seq<Text>, b: seq<Text>, c: seq<Text>, host: Host)
    requires TotalPreorder(host.collate)
    requires ComparePrereleases(a, b, host) <= 0 && ComparePrereleases(b, c, host) <= 0
    ensures ComparePrereleases(a, c, host) <= 0
    ensures ComparePrereleases(a, c, host) == 0 <==>
            ComparePrereleases(a, b, host) == 0 && ComparePrereleases(b, c, host) == 0
  {
    if a != [] && b != [] && c != [] {
      IdentifiersTransitive(a[0], b[0], c[0], host);
      if CompareIdentifiers(a[0], b[0], host) == 0 && CompareIdentifiers(b[0], c[0], host) == 0 {
        PrereleasesTransitive(a[1..], b[1..], c[1..], host);
      }
    }
  }

  /** Swapping the arguments flips the sign, for all strings. */
  lemma CompareFlips(a: Text, b: Text, host: Host)
    requires TotalPreorder(host.collate)
    ensures CompareVersions(a, b, host) < 0 <==> CompareVersions(b, a, host) > 0
  {
    CoreLength(StripV(Trim(a)), 3);
    CoreLength(StripV(Trim(b)), 3);
    if IsValidVersion(a) && IsValidVersion(b) {
      var (x, y) := (ParseVersion(a).value, ParseVersion(b).value);
      CoresFlip(x.core, y.core, host);
      CoresFlip(y.core, x.core, host);
      PrereleasesFlip(x.prerelease, y.prerelease, host);
    }
  }

  /** The order is transitive on valid versions, and strict as soon as one of the steps is. */
  lemma CompareTransitive(a: Text, b: Text, c: Text, host: Host)
    requires TotalPreorder(host.collate) && IsValidVersion(a) && IsValidVersion(b) && IsValidVersion(c)
    requires CompareVersions(a, b, host) <= 0 && CompareVersions(b, c, host) <= 0
    ensures CompareVersions(a, c, host) <= 0
    ensures CompareVersions(a, c, host) == 0 <==> CompareVersions(a, b, host) == 0 && CompareVersions(b, c, host) == 0
  {
    CoreLength(StripV(Trim(a)), 3);
    CoreLength(StripV(Trim(b)), 3);
    CoreLength(StripV(Trim(c)), 3);
    var (x, y, z) := (ParseVersion(a).value, ParseVersion(b).value, ParseVersion(c).value);
    CoresTransitive(x.core, y.core, z.core, host);
    if x.prerelease != [] && y.prerelease != [] && z.prerelease != [] &&
       CompareCores(x.core, y.core, host) == 0 && CompareCores(y.core, z.core, host) == 0 {
      PrereleasesTransitive(x.prerelease, y.prerelease, z.prerelease, host);
    }
  }

  ghost predicate TransitiveOn(versions: set<Text>, host: Host) {
    forall a, b, c | a in versions && b in versions && c in versions ::
      CompareVersions(a, b, host) <= 0 && CompareVersions(b, c, host) <= 0 ==> CompareVersions(a, c, host) <= 0
  }

  /** Exactly when the comparison is transitive: without unparseable strings, or without any strict difference. */
  lemma TransitiveIffParseable(versions: set<Text>, host: Host)
    requires TotalPreorder(host.collate)
    ensures TransitiveOn(versions, host) <==>
            || (forall v :: v in versions ==> IsValidVersion(v))
            || (forall a, b :: a in versions && b in versions ==> CompareVersions(a, b, host) == 0)
  {
    if forall v :: v in versions ==> IsValidVersion(v) {
      forall a, b, c | a in versions && b in versions && c in versions &&
        CompareVersions(a, b, host) <= 0 && CompareVersions(b, c, host) <= 0
        ensures CompareVersions(a, c, host) <= 0
      {
        CompareTransitive(a, b, c, host);
      }
    } else if a, b :| a in versions && b in versions && CompareVersions(a, b, host) != 0 {
      var u :| u in versions && !IsValidVersion(u);
      CompareFlips(a, b, host);
      CompareFlips(b, a, host);
      var (low, high) := if CompareVersions(a, b, host) < 0 then (a, b) else (b, a);
      assert CompareVersions(high, u, host) == 0 && CompareVersions(u, low, host) == 0 &&
             CompareVersions(high, low, host) > 0;
    }
  }

  // ------------------------------------------------------- section 11 of SemVer 2.0.0

  /** 11.4.1 to 11.4.3, with the host's collation where the standard says ASCII order. */
  predicate IdentifierBelow(a: Text, b: Text, host: Host) {
    if IsNumeric(a) then !IsNumeric(b) || host.number(Numeral(a)) < host.number(Numeral(b))
    else !IsNumeric(b) && host.collate(a, b) < 0
  }

  predicate IdentifierSame(a: Text, b: Text, host: Host) {
    if IsNumeric(a) then IsNumeric(b) && host.number(Numeral(a)) == host.number(Numeral(b))
    else !IsNumeric(b) && host.collate(a, b) == 0
  }

  /** 11.4: the first difference decides; 11.4.4: if there is none, the shorter list is lower. */
  ghost predicate PrereleaseBelow(a: seq<Text>, b: seq<Text>, host: Host) {
    exists k :: 0 <= k <= |a| && k < |b| && FirstDifference(a, b, k, host)
  }

  ghost predicate FirstDifference(a: seq<Text>, b: seq<Text>, k: nat, host: Host)
    requires k <= |a| && k < |b|
  {
    && (forall i :: 0 <= i < k ==> IdentifierSame(a[i], b[i], host))
    && (k < |a| ==> IdentifierBelow(a[k], b[k], host))
  }

  /** 11.2: major, minor and patch are compared numerically, in this order. */
  ghost predicate CoreBelow(a: seq<nat>, b: seq<nat>, host: Host)
    requires |a| == |b|
  {
    exists k :: 0 <= k < |a| && host.number(a[k]) < host.number(b[k]) &&
                forall i :: 0 <= i < k ==> host.number(a[i]) == host.number(b[i])
  }

  ghost predicate CoreSame(a: seq<nat>, b: seq<nat>, host: Host)
    requires |a| == |b|
  {
    forall i :: 0 <= i < |a| ==> host.number(a[i]) == host.number(b[i])
  }

  /** 11.3: with equal cores, a prerelease is below the release. */
  ghost predicate Precedes(a: ParsedVersion, b: ParsedVersion, host: Host)
    requires |a.core| == |b.core|
  {
    || CoreBelow(a.core, b.core, host)
    || (CoreSame(a.core, b.core, host) && a.prerelease != [] &&
        (b.prerelease == [] || PrereleaseBelow(a.prerelease, b.prerelease, host)))
  }

  lemma {:induction false} CoresByFirstDifference(a: seq<nat>, b: seq<nat>, host: Host)
    requires |a| == |b|
    ensures CompareCores(a, b, host) < 0 <==> CoreBelow(a, b, host)
    ensures CompareCores(a, b, host) == 0 <==> CoreSame(a, b, host)
  {
    if a != [] && host.number(a[0]) == host.number(b[0]) {
      var (a', b') := (a[1..], b[1..]);
      CoresByFirstDifference(a', b', host);
      if CoreBelow(a', b', host) {
        var k :| 0 <= k < |a'| && host.number(a'[k]) < host.number(b'[k]) &&
                 forall i :: 0 <= i < k ==> host.number(a'[i]) == host.number(b'[i]);
        forall i | 0 <= i < k + 1 ensures host.number(a[i]) == host.number(b[i]) {
          if i > 0 { assert host.number(a'[i - 1]) == host.number(b'[i - 1]); }
        }
        assert host.number(a[k + 1]) < host.number(b[k + 1]);
      }
      if CoreBelow(a, b, host) {
        var k :| 0 <= k < |a| && host.number(a[k]) < host.number(b[k]) &&
                 forall i :: 0 <= i < k ==> host.number(a[i]) == host.number(b[i]);
        assert host.number(a'[k - 1]) < host.number(b'[k - 1]);
      }
      if CoreSame(a', b', host) {
        forall i | 0 <= i < |a| ensures host.number(a[i]) == host.number(b[i]) {
          if i > 0 { assert host.number(a'[i - 1]) == host.number(b'[i - 1]); }
        }
      }
    } else if a != [] {
      if host.number(a[0]) < host.number(b[0]) { assert CoreBelow(a, b, host); }
    }
  }

  lemma {:induction false} PrereleasesByFirstDifference(a: seq<Text>, b: seq<Text>, host: Host)
    requires TotalPreorder(host.collate)
    ensures ComparePrereleases(a, b, host) < 0 <==> PrereleaseBelow(a, b, host)
  {
    if a == [] && b != [] {
      assert FirstDifference(a, b, 0, host);
    } else if a != [] && b != [] {
      var comparison := CompareIdentifiers(a[0], b[0], host);
      if comparison < 0 {
        assert FirstDifference(a, b, 0, host);
      } else if comparison == 0 {
        PrereleasesByFirstDifference(a[1..], b[1..], host);
        DifferenceBehindSame(a, b, host);
      }
    }
  }

  lemma DifferenceBehindSame(a: seq<Text>, b: seq<Text>, host: Host)
    requires a != [] && b != [] && IdentifierSame(a[0], b[0], host) && !IdentifierBelow(a[0], b[0], host)
    ensures PrereleaseBelow(a, b, host) <==> PrereleaseBelow(a[1..], b[1..], host)
  {
    var (a', b') := (a[1..], b[1..]);
    if PrereleaseBelow(a', b', host) {
      var k :| 0 <= k <= |a'| && k < |b'| && FirstDifference(a', b', k, host);
      forall i | 0 <= i < k + 1 ensures IdentifierSame(a[i], b[i], host) {
        if i > 0 { assert IdentifierSame(a'[i - 1], b'[i - 1], host); }
      }
      assert FirstDifference(a, b, k + 1, host);
    }
    if PrereleaseBelow(a, b, host) {
      var k :| 0 <= k <= |a| && k < |b| && FirstDifference(a, b, k, host);
      assert FirstDifference(a', b', k - 1, host);
    }
  }

  /** On valid versions the comparison is the precedence of the standard. */
  lemma CompareIsPrecedence(a: Text, b: Text, host: Host)
    requires TotalPreorder(host.collate) && IsValidVersion(a) && IsValidVersion(b)
    ensures |ParseVersion(a).value.core| == |ParseVersion(b).value.core| == 3
    ensures CompareVersions(a, b, host) < 0 <==> Precedes(ParseVersion(a).value, ParseVersion(b).value, host)
    ensures CompareVersions(a, b, host) > 0 <==> Precedes(ParseVersion(b).value, ParseVersion(a).value, host)
  {
    CoreLength(StripV(Trim(a)), 3);
    CoreLength(StripV(Trim(b)), 3);
    var (x, y) := (ParseVersion(a).value, ParseVersion(b).value);
    CompareFlips(b, a, host);
    CoresByFirstDifference(x.core, y.core, host);
    CoresByFirstDifference(y.core, x.core, host);
    PrereleasesByFirstDifference(x.prerelease, y.prerelease, host);
    PrereleasesByFirstDifference(y.prerelease, x.prerelease, host);
  }

  // ---------------------------------------------------- what the comparison does not see

  lemma {:induction false} RunBeforeStop(s: Text, t: Text, p: CodeUnit -> bool)
    requires t != [] && !p(t[0])
    ensures Run(s + t, p) == Run(s, p)
  {
    if s == [] {
      assert s + t == t;
    } else if p(s[0]) {
      assert (s + t)[1..] == s[1..] + t;
      RunBeforeStop(s[1..], t, p);
    }
  }

  lemma ParseNumberBefore(s: Text, t: Text)
    requires t != [] && t[0] == PLUS
    ensures ParseNumber(s).Some? ==>
              ParseNumber(s + t) == Some((ParseNumber(s).value.0, ParseNumber(s).value.1 + t))
  {
    RunBeforeStop(s, t, IsDigit);
    var n := Run(s, IsDigit);
    assert (s + t)[..n] == s[..n] && (s + t)[n..] == s[n..] + t;
  }

  lemma {:induction false} ParseCoreBefore(s: Text, t: Text, count: nat)
    requires t != [] && t[0] == PLUS && ParseCore(s, count).Some?
    ensures ParseCore(s + t, count) == Some((ParseCore(s, count).value.0, ParseCore(s, count).value.1 + t))
    decreases count
  {
    if count > 0 {
      ParseNumberBefore(s, t);
      var rest := ParseNumber(s).value.1;
      if count > 1 {
        ParseCoreBefore(rest[1..], t, count - 1);
        assert (rest + t)[1..] == rest[1..] + t;
      }
    }
  }

  lemma ParseSuffixBefore(s: Text, build: Text)
    requires ParseSuffix(s).Some? && PLUS !in s && IsBuild(build)
    ensures ParseSuffix(s + build) == ParseSuffix(s)
  {
    if s == [] {
      assert s + build == build;
    } else {
      assert s[0] in s;
      var n := Run(s[1..], IsIdentifierUnit);
      assert forall i :: 0 <= i < |s| ==> s[i] != PLUS;
      assert n + 1 == |s|;
      assert (s + build)[1..] == s[1..] + build;
      RunBeforeStop(s[1..], build, IsIdentifierUnit);
      assert (s + build)[n + 1..] == build && (s + build)[1..n + 1] == s[1..n + 1];
    }
  }

  lemma {:induction false} RestOfCore(s: Text, count: nat)
    requires PLUS !in s && ParseCore(s, count).Some?
    ensures PLUS !in ParseCore(s, count).value.1
    decreases count
  {
    if count > 0 {
      var rest := ParseNumber(s).value.1;
      assert forall c :: c in rest ==> c in s;
      if count > 1 {
        assert forall c :: c in rest[1..] ==> c in rest;
        RestOfCore(rest[1..], count - 1);
      }
    }
  }

  lemma StrictIgnoresBuild(s: Text, build: Text)
    requires ParseStrict(s).Some? && PLUS !in s && IsBuild(build)
    ensures ParseStrict(s + build) == ParseStrict(s)
  {
    ParseCoreBefore(s, build, 3);
    RestOfCore(s, 3);
    ParseSuffixBefore(ParseCore(s, 3).value.1, build);
  }

  /** Build metadata does not take part in the comparison (section 10). */
  lemma BuildMetadataIsIgnored(v: Text, build: Text, other: Text, host: Host)
    requires IsValidVersion(v) && TrimEnd(v) == v && PLUS !in v && IsBuild(build)
    ensures IsValidVersion(v + build)
    ensures CompareVersions(v + build, other, host) == CompareVersions(v, other, host)
    ensures CompareVersions(other, v + build, host) == CompareVersions(other, v, host)
  {
    var trimmed := TrimStart(v);
    TrimWithBuild(v, build);
    StripVBefore(trimmed, build);
    StrictIgnoresBuild(StripV(trimmed), build);
  }

  lemma TrimWithBuild(v: Text, build: Text)
    requires TrimEnd(v) == v && TrimStart(v) != [] && IsBuild(build)
    ensures Trim(v + build) == TrimStart(v) + build
    ensures forall c :: c in TrimStart(v) ==> c in v
  {
    RunSatisfies(build[1..], IsIdentifierUnit);
    assert build[|build| - 1] == build[1..][|build| - 2];
    assert (v + build)[|v + build| - 1] == build[|build| - 1];
    TrimStartBefore(v, build);
  }

  lemma StripVBefore(s: Text, t: Text)
    requires s != []
    ensures StripV(s + t) == StripV(s) + t && forall c :: c in StripV(s) ==> c in s
  {
    assert (s + t)[1..] == s[1..] + t;
  }

  lemma {:induction false} TrimStartBefore(s: Text, t: Text)
    requires TrimStart(s) != []
    ensures TrimStart(s + t) == TrimStart(s) + t
    ensures forall c :: c in TrimStart(s) ==> c in s
  {
    if IsJsWhiteSpace(s[0]) {
      assert (s + t)[1..] == s[1..] + t;
      TrimStartBefore(s[1..], t);
    }
  }

  /** A leading v does not take part in the comparison. */
  lemma LeadingVIsIgnored(v: CodeUnit, version: Text, other: Text, host: Host)
    requires IsV(v) && version != [] && !IsV(version[0]) && !IsJsWhiteSpace(version[0])
    ensures CompareVersions([v] + version, other, host) == CompareVersions(version, other, host)
    ensures CompareVersions(other, [v] + version, host) == CompareVersions(other, version, host)
  {
    TrimEndKeepsHead(v, version);
  }

  lemma {:induction false} TrimEndKeepsHead(v: CodeUnit, s: Text)
    requires s != [] && !IsJsWhiteSpace(s[0])
    ensures TrimEnd([v] + s) == [v] + TrimEnd(s) && TrimEnd(s) != [] && TrimEnd(s)[0] == s[0]
    decreases |s|
  {
    if IsJsWhiteSpace(s[|s| - 1]) {
      assert ([v] + s)[..|s|] == [v] + s[..|s| - 1];
      TrimEndKeepsHead(v, s[..|s| - 1]);
    }
  }

  // ------------------------------------------------------- the parser against its grammar

  /** The parts of a version string; an empty prerelease or build part is an absent one. */
  datatype VersionText = VersionText(core: seq<Text>, prerelease: Text, build: Text)

  predicate AllSatisfy(s: Text, p: CodeUnit -> bool) { forall i :: 0 <= i < |s| ==> p(s[i]) }

  predicate WellFormed(t: VersionText) {
    && |t.core| == 3 && (forall i :: 0 <= i < 3 ==> IsNumeric(t.core[i]))
    && AllSatisfy(t.prerelease, IsIdentifierUnit) && AllSatisfy(t.build, IsIdentifierUnit)
  }

  /** The units of the grammar: digits, identifier units, the marks before the parts, and the letter v. */
  lemma GrammarUnits(c: CodeUnit)
    ensures IsDigit(c) <==> '0' as int <= c <= '9' as int
    ensures IsIdentifierUnit(c) <==>
            || '0' as int <= c <= '9' as int || 'A' as int <= c <= 'Z' as int || 'a' as int <= c <= 'z' as int
            || c == '-' as int || c == '.' as int
    ensures IsV(c) <==> c == 'v' as int || c == 'V' as int
    ensures DOT == '.' as int && HYPHEN == '-' as int && PLUS == '+' as int
  {
  }

  function Optional(mark: CodeUnit, part: Text): Text { if part == [] then [] else [mark] + part }

  function Suffix(t: VersionText): Text { Optional(HYPHEN, t.prerelease) + Optional(PLUS, t.build) }

  function WriteCore(numbers: seq<Text>): Text
    requires numbers != []
  {
    if |numbers| == 1 then numbers[0] else numbers[0] + ([DOT] + WriteCore(numbers[1..]))
  }

  function Write(t: VersionText): Text
    requires WellFormed(t)
  {
    WriteCore(t.core) + Suffix(t)
  }

  function Numerals(numbers: seq<Text>): (r: seq<nat>)
    requires forall i :: 0 <= i < |numbers| ==> IsNumeric(numbers[i])
  {
    if numbers == [] then []
    else
      assert IsNumeric(numbers[0]);
      [Numeral(numbers[0])] + Numerals(numbers[1..])
  }

  function Read(t: VersionText): ParsedVersion
    requires WellFormed(t)
  {
    ParsedVersion(Numerals(t.core), if t.prerelease == [] then [] else Split(t.prerelease, DOT))
  }

  lemma {:induction false} RunOverAll(s: Text, rest: Text, p: CodeUnit -> bool)
    requires AllSatisfy(s, p) && (rest == [] || !p(rest[0]))
    ensures Run(s + rest, p) == |s|
  {
    if s == [] {
      assert s + rest == rest;
    } else {
      assert (s + rest)[1..] == s[1..] + rest;
      RunOverAll(s[1..], rest, p);
    }
  }

  lemma ParseNumberInverts(digits: Text, rest: Text)
    requires IsNumeric(digits) && (rest == [] || !IsDigit(rest[0]))
    ensures ParseNumber(digits + rest) == Some((Numeral(digits), rest))
  {
    RunOverAll(digits, rest, IsDigit);
    assert (digits + rest)[..|digits|] == digits && (digits + rest)[|digits|..] == rest;
  }

  lemma {:induction false} ParseCoreInverts(numbers: seq<Text>, rest: Text)
    requires numbers != [] && (forall i :: 0 <= i < |numbers| ==> IsNumeric(numbers[i])) &&
             (rest == [] || !IsDigit(rest[0]))
    ensures ParseCore(WriteCore(numbers) + rest, |numbers|) == Some((Numerals(numbers), rest))
    decreases |numbers|
  {
    if |numbers| == 1 {
      ParseNumberInverts(numbers[0], rest);
      assert Numerals(numbers) == [Numeral(numbers[0])];
    } else {
      ParseCoreInverts(numbers[1..], rest);
      ParseCoreStep(numbers[0], WriteCore(numbers[1..]) + rest, |numbers| - 1);
      Regroup([DOT], WriteCore(numbers[1..]), rest);
      Regroup(numbers[0], [DOT] + WriteCore(numbers[1..]), rest);
    }
  }

  lemma ParseCoreStep(digits: Text, below: Text, count: nat)
    requires IsNumeric(digits) && count > 0 && ParseCore(below, count).Some?
    ensures var (numbers, rest) := ParseCore(below, count).value;
            ParseCore(digits + ([DOT] + below), count + 1) == Some(([Numeral(digits)] + numbers, rest))
  {
    ParseNumberInverts(digits, [DOT] + below);
    assert ([DOT] + below)[1..] == below;
  }

  lemma ParseSuffixInverts(t: VersionText)
    requires WellFormed(t)
    ensures ParseSuffix(Suffix(t)) == Some(if t.prerelease == [] then [] else Split(t.prerelease, DOT))
  {
    var build := Optional(PLUS, t.build);
    if t.build != [] {
      assert build[1..] == t.build && t.build + [] == t.build;
      RunOverAll(t.build, [], IsIdentifierUnit);
      assert IsBuild(build);
    }
    if t.prerelease == [] {
      assert Suffix(t) == build;
    } else {
      var n := |t.prerelease|;
      assert Suffix(t)[1..] == t.prerelease + build;
      RunOverAll(t.prerelease, build, IsIdentifierUnit);
      assert Suffix(t)[1..n + 1] == t.prerelease && Suffix(t)[n + 1..] == build;
    }
  }

  /** What the regular expression accepts, and what it captures: the well-formed version texts and their parts. */
  lemma ParseInvertsWrite(t: VersionText)
    requires WellFormed(t)
    ensures ParseStrict(Write(t)) == Some(Read(t))
  {
    ParseCoreInverts(t.core, Suffix(t));
    ParseSuffixInverts(t);
  }

  lemma ParsedNumber(s: Text) returns (digits: Text)
    requires ParseNumber(s).Some?
    ensures IsNumeric(digits) && s == digits + ParseNumber(s).value.1
  {
    RunSatisfies(s, IsDigit);
    digits := s[..Run(s, IsDigit)];
  }

  lemma ParsedBuild(s: Text) returns (build: Text)
    requires s == [] || IsBuild(s)
    ensures AllSatisfy(build, IsIdentifierUnit) && s == Optional(PLUS, build)
  {
    build := [];
    if s != [] {
      RunSatisfies(s[1..], IsIdentifierUnit);
      build := s[1..];
    }
  }

  lemma ParsedPrerelease(s: Text) returns (prerelease: Text, rest: Text)
    requires ParseSuffix(s).Some? && s != [] && !IsBuild(s)
    ensures AllSatisfy(prerelease, IsIdentifierUnit) && prerelease != [] && (rest == [] || IsBuild(rest))
    ensures s == [HYPHEN] + prerelease + rest
  {
    var n := Run(s[1..], IsIdentifierUnit);
    RunSatisfies(s[1..], IsIdentifierUnit);
    prerelease, rest := s[1..n + 1], s[n + 1..];
    assert prerelease == s[1..][..n];
  }

  lemma ParsedSuffix(s: Text) returns (prerelease: Text, build: Text)
    requires ParseSuffix(s).Some?
    ensures AllSatisfy(prerelease, IsIdentifierUnit) && AllSatisfy(build, IsIdentifierUnit)
    ensures s == Optional(HYPHEN, prerelease) + Optional(PLUS, build)
  {
    if s == [] || IsBuild(s) {
      prerelease := [];
      build := ParsedBuild(s);
    } else {
      var rest;
      prerelease, rest := ParsedPrerelease(s);
      build := ParsedBuild(rest);
    }
  }

  lemma {:induction false} ParsedCore(s: Text, count: nat) returns (numbers: seq<Text>)
    requires count > 0 && ParseCore(s, count).Some?
    ensures |numbers| == count && forall i :: 0 <= i < count ==> IsNumeric(numbers[i])
    ensures s == WriteCore(numbers) + ParseCore(s, count).value.1
    decreases count
  {
    var digits := ParsedNumber(s);
    var rest := ParseNumber(s).value.1;
    if count == 1 {
      numbers := [digits];
    } else {
      var below := ParsedCore(rest[1..], count - 1);
      numbers := [digits] + below;
      WrittenBefore(digits, below, rest, ParseCore(s, count).value.1);
    }
  }

  lemma WrittenBefore(digits: Text, below: seq<Text>, rest: Text, tail: Text)
    requires below != [] && rest != [] && rest[0] == DOT && rest[1..] == WriteCore(below) + tail
    ensures digits + rest == WriteCore([digits] + below) + tail
  {
    assert ([digits] + below)[1..] == below && rest == [DOT] + rest[1..];
    Regroup([DOT], WriteCore(below), tail);
    Regroup(digits, [DOT] + WriteCore(below), tail);
  }

  lemma OnlyWellFormedTextsParse(s: Text) returns (t: VersionText)
    requires ParseStrict(s).Some?
    ensures WellFormed(t) && Write(t) == s
  {
    var core := ParsedCore(s, 3);
    var prerelease, build := ParsedSuffix(ParseCore(s, 3).value.1);
    t := VersionText(core, prerelease, build);
  }

  // ------------------------------------------------- which strings are valid, and as what

  predicate IsOptionalV(v: Text) { v == [] || v == [118] || v == [86] }

  lemma {:induction false} CoreUnits(numbers: seq<Text>)
    requires numbers != [] && forall i :: 0 <= i < |numbers| ==> IsNumeric(numbers[i])
    ensures WriteCore(numbers) != [] && IsDigit(WriteCore(numbers)[0])
    ensures forall c :: c in WriteCore(numbers) ==> IsDigit(c) || c == DOT
  {
    assert IsNumeric(numbers[0]);
    if |numbers| > 1 { CoreUnits(numbers[1..]); }
  }

  lemma WrittenUnits(t: VersionText)
    requires WellFormed(t)
    ensures Write(t) != [] && IsDigit(Write(t)[0]) && IsTrimmed(Write(t))
  {
    CoreUnits(t.core);
    assert forall c :: c in Write(t) ==> IsIdentifierUnit(c) || c == PLUS;
    assert Write(t)[|Write(t)| - 1] in Write(t);
  }

  /** White space around it and one v before it do not matter to what a version text is read as. */
  lemma PaddedTextsParse(before: Text, v: Text, t: VersionText, after: Text)
    requires IsBlank(before) && IsOptionalV(v) && WellFormed(t) && IsBlank(after)
    ensures ParseVersion(before + (v + Write(t)) + after) == Some(Read(t))
  {
    WrittenUnits(t);
    OneVIsStripped(v, Write(t));
    TrimOfPadded(before, v + Write(t), after);
    ParseInvertsWrite(t);
  }

  lemma OneVIsStripped(v: Text, s: Text)
    requires IsOptionalV(v) && s != [] && IsTrimmed(s) && IsDigit(s[0])
    ensures StripV(v + s) == s && v + s != [] && IsTrimmed(v + s)
  {
    assert (v + s)[|v + s| - 1] == s[|s| - 1];
    if v != [] { assert (v + s)[1..] == s; } else { assert v + s == s; }
  }

  /** And nothing else is valid. */
  lemma OnlyPaddedTextsParse(s: Text) returns (before: Text, v: Text, t: VersionText, after: Text)
    requires IsValidVersion(s)
    ensures IsBlank(before) && IsOptionalV(v) && WellFormed(t) && IsBlank(after)
    ensures s == before + (v + Write(t)) + after
  {
    before, after := TrimTakesOffBlanks(s);
    t := OnlyWellFormedTextsParse(StripV(Trim(s)));
    v := if Trim(s) != [] && IsV(Trim(s)[0]) then [Trim(s)[0]] else [];
    assert Trim(s) == v + Write(t);
  }

  // ----------------------------------------------------------- what a numeral is worth

  function PowerOfTen(k: nat): nat { if k == 0 then 1 else 10 * PowerOfTen(k - 1) }

  /** Every digit times the power of ten of its place, from the left. */
  function Weighted(digits: Text): nat
    requires AllDigits(digits)
  {
    if digits == [] then 0
    else
      assert IsDigit(digits[0]);
      (digits[0] as int - '0' as int) * PowerOfTen(|digits| - 1) + Weighted(digits[1..])
  }

  lemma {:induction false} WeightedLast(digits: Text)
    requires AllDigits(digits) && digits != []
    ensures Weighted(digits) == 10 * Weighted(digits[..|digits| - 1]) + (digits[|digits| - 1] as int - '0' as int)
  {
    var n := |digits| - 1;
    if n == 0 {
      assert digits[1..] == [] && digits[..0] == [];
    } else {
      WeightedLast(digits[1..]);
      assert digits[1..][..n - 1] == digits[..n][1..];
      TimesTen(digits[0] as int - '0' as int, n - 1);
    }
  }

  lemma TimesTen(d: int, k: nat)
    ensures d * PowerOfTen(k + 1) == 10 * (d * PowerOfTen(k))
  {
    var p := PowerOfTen(k);
    assert PowerOfTen(k + 1) == 10 * p;
    assert d * (10 * p) == 10 * (d * p);
  }

  /** A numeral is worth the sum of its digits times their powers of ten. */
  lemma {:induction false} NumeralIsPositional(digits: Text)
    requires AllDigits(digits)
    ensures Numeral(digits) == Weighted(digits)
    decreases |digits|
  {
    if digits != [] {
      NumeralIsPositional(digits[..|digits| - 1]);
      WeightedLast(digits);
    }
  }

  // Without leading zeros.
  ghost predicate IsCanonical(numeral: Text) { IsNumeric(numeral) && (|numeral| == 1 || numeral[0] != '0' as int) }

  /** Of two numerals the lower one is shorter, or equally long and first in dictionary order. */
  ghost predicate NumeralBelow(a: Text, b: Text) {
    |a| < |b| || (|a| == |b| && exists k :: 0 <= k < |a| && a[k] < b[k] && a[..k] == b[..k])
  }

  lemma {:induction false} NumeralBounds(digits: Text)
    requires IsNumeric(digits)
    ensures Numeral(digits) < PowerOfTen(|digits|)
    ensures digits[0] != '0' as int ==> Numeral(digits) >= PowerOfTen(|digits| - 1)
    decreases |digits|
  {
    var n := |digits| - 1;
    assert IsDigit(digits[n]) && IsDigit(digits[0]);
    if n > 0 {
      assert IsNumeric(digits[..n]) && digits[..n][0] == digits[0];
      NumeralBounds(digits[..n]);
    } else {
      assert digits[..0] == [] && Numeral(digits[..0]) == 0;
    }
  }

  lemma {:induction false} PowersGrow(j: nat, k: nat)
    requires j <= k
    ensures PowerOfTen(j) <= PowerOfTen(k)
  {
    if j < k { PowersGrow(j, k - 1); }
  }

  lemma {:induction false} EqualLengthNumerals(a: Text, b: Text)
    requires AllDigits(a) && AllDigits(b) && |a| == |b|
    ensures Numeral(a) < Numeral(b) <==> NumeralBelow(a, b)
    ensures Numeral(a) == Numeral(b) <==> a == b
    decreases |a|
  {
    if a != [] {
      var n := |a| - 1;
      var (a', b') := (a[..n], b[..n]);
      assert IsDigit(a[n]) && IsDigit(b[n]);
      assert a == a' + [a[n]] && b == b' + [b[n]];
      EqualLengthNumerals(a', b');
      DictionaryOrderByLast(a, b);
    }
  }

  lemma DictionaryOrderByLast(a: Text, b: Text)
    requires |a| == |b| > 0
    ensures var n := |a| - 1;
            NumeralBelow(a, b) <==> NumeralBelow(a[..n], b[..n]) || (a[..n] == b[..n] && a[n] < b[n])
  {
    var n := |a| - 1;
    var (a', b') := (a[..n], b[..n]);
    if NumeralBelow(a', b') {
      var k :| 0 <= k < n && a'[k] < b'[k] && a'[..k] == b'[..k];
      assert a[..k] == a'[..k] && b[..k] == b'[..k] && a[k] < b[k];
    }
    if NumeralBelow(a, b) {
      var k :| 0 <= k < |a| && a[k] < b[k] && a[..k] == b[..k];
      if k < n {
        assert a'[..k] == a[..k] && b'[..k] == b[..k] && a'[k] < b'[k];
      }
    }
    if a' == b' && a[n] < b[n] {
      assert a[..n] == b[..n];
    }
  }

  /** Numerals compare as numbers just as their texts do. */
  lemma NumeralOrder(a: Text, b: Text)
    requires IsCanonical(a) && IsCanonical(b)
    ensures Numeral(a) < Numeral(b) <==> NumeralBelow(a, b)
    ensures Numeral(a) == Numeral(b) <==> a == b
  {
    if |a| == |b| {
      EqualLengthNumerals(a, b);
    } else {
      NumeralBounds(a);
      NumeralBounds(b);
      if |a| < |b| {
        PowersGrow(|a|, |b| - 1);
      } else {
        PowersGrow(|b|, |a| - 1);
      }
    }
  }

  // The host keeps the two numbers in order, as JavaScript does up to 2^53.
  ghost predicate KeepsOrder(number: nat -> nat, m: nat, n: nat) {
    (m < n ==> number(m) < number(n)) && (n < m ==> number(n) < number(m))
  }

  lemma {:induction false} NumeralsAt(numbers: seq<Text>)
    requires forall i :: 0 <= i < |numbers| ==> IsNumeric(numbers[i])
    ensures |Numerals(numbers)| == |numbers|
    ensures forall i :: 0 <= i < |numbers| ==> Numerals(numbers)[i] == Numeral(numbers[i])
  {
    if numbers != [] { NumeralsAt(numbers[1..]); }
  }

  /** Two version texts whose core numbers first differ at the k-th are ordered as the texts of those numbers. */
  lemma CoresCompareAsTexts(t: VersionText, u: VersionText, k: nat, host: Host)
    requires TotalPreorder(host.collate) && WellFormed(t) && WellFormed(u)
    requires k < 3 && t.core[..k] == u.core[..k] && t.core[k] != u.core[k]
    requires IsCanonical(t.core[k]) && IsCanonical(u.core[k])
    requires KeepsOrder(host.number, Numeral(t.core[k]), Numeral(u.core[k]))
    ensures CompareVersions(Write(t), Write(u), host) < 0 <==> NumeralBelow(t.core[k], u.core[k])
    ensures CompareVersions(Write(t), Write(u), host) != 0
  {
    NumeralOrder(t.core[k], u.core[k]);
    NumeralOrder(u.core[k], t.core[k]);
    FirstNumeralsDiffer(t.core, u.core, k);
    FirstCoreDecides(Numerals(t.core), Numerals(u.core), k, host);
    WrittenCompare(t, u, host);
  }

  lemma FirstNumeralsDiffer(t: seq<Text>, u: seq<Text>, k: nat)
    requires k < |t| == |u| && t[..k] == u[..k]
    requires forall i :: 0 <= i < |t| ==> IsNumeric(t[i]) && IsNumeric(u[i])
    ensures |Numerals(t)| == |Numerals(u)| == |t|
    ensures Numerals(t)[k] == Numeral(t[k]) && Numerals(u)[k] == Numeral(u[k])
    ensures forall i :: 0 <= i < k ==> Numerals(t)[i] == Numerals(u)[i]
  {
    NumeralsAt(t);
    NumeralsAt(u);
    assert forall i :: 0 <= i < k ==> t[..k][i] == t[i] && u[..k][i] == u[i];
  }

  lemma WrittenCompare(t: VersionText, u: VersionText, host: Host)
    requires WellFormed(t) && WellFormed(u)
    ensures |Read(t).core| == |Read(u).core|
    ensures CompareVersions(Write(t), Write(u), host) == CompareParsed(Read(t), Read(u), host)
  {
    PlainTextsParse(t);
    PlainTextsParse(u);
    NumeralsAt(t.core);
    NumeralsAt(u.core);
  }

  lemma PlainTextsParse(t: VersionText)
    requires WellFormed(t)
    ensures ParseVersion(Write(t)) == Some(Read(t))
  {
    PaddedTextsParse([], [], t, []);
    assert [] + ([] + Write(t)) + [] == Write(t);
  }

  lemma FirstCoreDecides(a: seq<nat>, b: seq<nat>, k: nat, host: Host)
    requires k < |a| == |b| && a[k] != b[k] && forall i :: 0 <= i < k ==> a[i] == b[i]
    requires KeepsOrder(host.number, a[k], b[k])
    ensures CompareCores(a, b, host) < 0 <==> a[k] < b[k]
    ensures CompareCores(a, b, host) != 0
    decreases k
  {
    if k > 0 {
      assert forall i :: 0 <= i < k - 1 ==> a[1..][i] == b[1..][i];
      FirstCoreDecides(a[1..], b[1..], k - 1, host);
    }
  }

  /** Two prereleases of one version whose dot-separated identifiers first differ at two numerals are ordered as the
      texts of those numerals: rc.2 comes before rc.10. */
  lemma PrereleaseNumeralsCompareAsTexts(t: VersionText, u: VersionText, xs: seq<Text>, ys: seq<Text>, k: nat,
                                         host: Host)
    requires TotalPreorder(host.collate) && WellFormed(t) && WellFormed(u)
    requires t.core == u.core && t.prerelease == Join(xs, DOT) && u.prerelease == Join(ys, DOT)
    requires (forall x :: x in xs ==> DOT !in x) && (forall y :: y in ys ==> DOT !in y)
    requires k < |xs| && k < |ys| && xs[..k] == ys[..k] && xs[k] != ys[k] && IsCanonical(xs[k]) && IsCanonical(ys[k])
    requires KeepsOrder(host.number, Numeral(xs[k]), Numeral(ys[k])) && t.prerelease != [] && u.prerelease != []
    ensures CompareVersions(Write(t), Write(u), host) < 0 <==> NumeralBelow(xs[k], ys[k])
    ensures CompareVersions(Write(t), Write(u), host) != 0
  {
    PrereleaseParses(t, xs);
    PrereleaseParses(u, ys);
    NumeralOrder(xs[k], ys[k]);
    NumeralOrder(ys[k], xs[k]);
    NumeralsAt(t.core);
    CoresByFirstDifference(Numerals(t.core), Numerals(t.core), host);
    assert forall i :: 0 <= i < k ==> xs[..k][i] == xs[i] && ys[..k][i] == ys[i];
    FirstNumeralDecides(xs, ys, k, host);
  }

  lemma PrereleaseParses(t: VersionText, identifiers: seq<Text>)
    requires WellFormed(t) && t.prerelease == Join(identifiers, DOT) != []
    requires forall x :: x in identifiers ==> DOT !in x
    ensures ParseVersion(Write(t)) == Some(ParsedVersion(Numerals(t.core), identifiers)) && identifiers != []
  {
    PlainTextsParse(t);
    SplitInvertsJoin(identifiers, DOT);
  }

  lemma FirstNumeralDecides(xs: seq<Text>, ys: seq<Text>, k: nat, host: Host)
    requires TotalPreorder(host.collate) && k < |xs| && k < |ys|
    requires IsNumeric(xs[k]) && IsNumeric(ys[k]) && Numeral(xs[k]) != Numeral(ys[k])
    requires KeepsOrder(host.number, Numeral(xs[k]), Numeral(ys[k]))
    requires forall i :: 0 <= i < k ==> xs[i] == ys[i]
    ensures ComparePrereleases(xs, ys, host) < 0 <==> Numeral(xs[k]) < Numeral(ys[k])
    ensures ComparePrereleases(xs, ys, host) != 0
    decreases k
  {
    if k > 0 {
      IdentifiersFlip(xs[0], xs[0], host);
      assert forall i :: 0 <= i < k - 1 ==> xs[1..][i] == ys[1..][i];
      FirstNumeralDecides(xs[1..], ys[1..], k - 1, host);
    }
  }
}
