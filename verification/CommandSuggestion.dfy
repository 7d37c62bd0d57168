/** Typo recovery of src/cli/command-suggestion.ts: which near-matches are offered, and in what order. */
module CommandSuggestion {
  import opened Basics
  import opened EditDistance
  import opened Sorting

  const SUGGESTION_THRESHOLD := 3
  const MAX_SUGGESTIONS := 3
  const DESTRUCTIVE_INTENT_THRESHOLD := 1

  datatype CommandSpec = CommandSpec(path: seq<Text>, aliases: seq<seq<Text>>, destructive: bool)
  {
    function Paths(): seq<seq<Text>> { [path] + aliases }
  }

  datatype Scored = Scored(name: Text, distance: nat)

  // The host's localeCompare.
  type Collation = (Text, Text) -> int

  function FinalToken(path: seq<Text>): Text {
    if path == [] then [] else path[|path| - 1]
  }

  function JoinWords(path: seq<Text>): Text { Join(path, SPACE) }

  // ------------------------------------------------------------------- ranking

  function Compare(collate: Collation): (Scored, Scored) -> int {
    (a: Scored, b: Scored) =>
      if a.distance != b.distance then a.distance - b.distance else collate(a.name, b.name)
  }

  predicate IsNear(e: Scored) { 0 < e.distance <= SUGGESTION_THRESHOLD }

  function Near(scored: seq<Scored>): seq<Scored> { Filter(scored, IsNear) }

  function Shortlist(scored: seq<Scored>, collate: Collation): (r: seq<Scored>)
    ensures |r| == Min(|Near(scored)|, MAX_SUGGESTIONS)
  {
    StableSort(Near(scored), Compare(collate))[..Min(|Near(scored)|, MAX_SUGGESTIONS)]
  }

  function Names(scored: seq<Scored>): (r: seq<Text>)
    ensures |r| == |scored|
    ensures forall i :: 0 <= i < |r| ==> r[i] == scored[i].name
  {
    seq(|scored|, i requires 0 <= i < |scored| => scored[i].name)
  }

  function RankByDistance(scored: seq<Scored>, collate: Collation): seq<Text> {
    Names(Shortlist(scored, collate))
  }

  ghost function NameSet(scored: seq<Scored>): set<Text> { set e | e in scored :: e.name }

  lemma CompareIsConsistent(scored: seq<Scored>, collate: Collation)
    requires Consistent(collate, NameSet(scored))
    ensures Consistent(Compare(collate), Elements(scored))
  {
    forall a | a in scored ensures a.name in NameSet(scored) {}
  }

  /** The shortlist is in order, and nothing within the threshold that it leaves out beats anything it keeps. */
  lemma ShortlistIsTheBest(scored: seq<Scored>, collate: Collation)
    requires Consistent(collate, NameSet(scored))
    ensures var short := Shortlist(scored, collate);
            && Sorted(Compare(collate), short)
            && |short| <= 3
            && (forall e :: e in short ==> e in scored && 0 < e.distance <= 3)
            && (forall e :: e in scored && 0 < e.distance <= 3 && e !in short ==> |short| == 3)
            && (forall e, kept :: e in scored && 0 < e.distance <= 3 && e !in short && kept in short ==>
                Compare(collate)(kept, e) <= 0)
  {
    CompareIsConsistent(scored, collate);
    var near, k := Near(scored), Min(|Near(scored)|, MAX_SUGGESTIONS);
    FirstOfSortAreBest(near, Compare(collate), Elements(scored), k);
    var sorted := StableSort(near, Compare(collate));
    SameElements(sorted, near);
    if k == |near| {
      assert sorted[..k] == sorted;
    }
  }

  // ----------------------------------------------------------- destructive intent

  ghost function Verbs(specs: seq<CommandSpec>): set<Text> {
    set spec, path | spec in specs && spec.destructive && path in spec.Paths() :: FinalToken(path)
  }

  /** The last word of a path; of an empty one, the empty word. */
  ghost predicate EndsIn(path: seq<Text>, word: Text) {
    (path == [] && word == []) || (path != [] && word == path[|path| - 1])
  }

  /** The last word of some destructive path or alias. */
  ghost predicate IsDestructiveVerb(specs: seq<CommandSpec>, verb: Text) {
    exists spec, path ::
      spec in specs && spec.destructive && (path == spec.path || path in spec.aliases) && EndsIn(path, verb)
  }

  lemma VerbsAreLastWords(specs: seq<CommandSpec>)
    ensures forall verb :: verb in Verbs(specs) <==> IsDestructiveVerb(specs, verb)
  {
    forall verb | verb in Verbs(specs) ensures IsDestructiveVerb(specs, verb) {
      var spec, path :| spec in specs && spec.destructive && path in spec.Paths() && verb == FinalToken(path);
      assert EndsIn(path, verb);
    }
    forall verb | IsDestructiveVerb(specs, verb) ensures verb in Verbs(specs) {
      var spec, path :|
        spec in specs && spec.destructive && (path == spec.path || path in spec.aliases) && EndsIn(path, verb);
      assert path in spec.Paths() && verb == FinalToken(path);
    }
  }

  method DestructiveVerbs(specs: seq<CommandSpec>) returns (verbs: set<Text>)
    ensures forall verb :: verb in verbs <==> IsDestructiveVerb(specs, verb)
  {
    VerbsAreLastWords(specs);
    verbs := {};
    for i := 0 to |specs|
      invariant verbs == Verbs(specs[..i])
    {
      ghost var before := verbs;
      if specs[i].destructive {
        var paths := specs[i].Paths();
        for j := 0 to |paths|
          invariant verbs == before + set path | path in paths[..j] :: FinalToken(path)
        {
          verbs := verbs + {FinalToken(paths[j])};
          assert paths[..j + 1] == paths[..j] + [paths[j]];
        }
        assert paths[..|paths|] == paths;
      }
      assert specs[..i + 1] == specs[..i] + [specs[i]];
    }
    assert specs[..|specs|] == specs;
  }

  /** The last word of the command is the last word of a destructive path or alias, or within one edit of it. */
  ghost predicate ReachesForDestruction(specs: seq<CommandSpec>, commandPath: seq<Text>) {
    exists token, verb :: EndsIn(commandPath, token) && IsDestructiveVerb(specs, verb) && Distance(token, verb) <= 1
  }

  method IntendsDestruction(inputToken: Text, verbs: set<Text>) returns (intended: bool)
    ensures intended <==> exists verb :: verb in verbs && Distance(inputToken, verb) <= 1
  {
    var rest := verbs;
    while rest != {}
      invariant rest <= verbs
      invariant forall verb :: verb in verbs - rest ==> Distance(inputToken, verb) > DESTRUCTIVE_INTENT_THRESHOLD
    {
      var verb :| verb in rest;
      var distance := Levenshtein(inputToken, verb);
      if distance <= DESTRUCTIVE_INTENT_THRESHOLD { return true; }
      rest := rest - {verb};
    }
    return false;
  }

  /** What the guard means for the user: the token is at most one edit from the verb. */
  lemma IntentIsAtMostOneEdit(token: Text, verb: Text)
    ensures Distance(token, verb) <= 1 <==>
            token == verb || exists e :: Applies(e, token) && Apply(e, token) == verb
  {
    DistanceZeroIffEqual(token, verb);
    if Distance(token, verb) == 1 {
      var script := ScriptOfDistance(token, verb);
      assert script[1..] == [];
      assert Apply(script[0], token) == verb;
    }
    forall e | Applies(e, token) && Apply(e, token) == verb ensures Distance(token, verb) <= 1 {
      OneEditCostsAtMostOne(e, token);
    }
  }

  // ----------------------------------------------------------------- suggestions

  // A one-word command is matched against the first word of every path.
  function Cut(path: seq<Text>, commandPath: seq<Text>): seq<Text> {
    if |commandPath| == 1 && |path| > 1 then path[..1] else path
  }

  /** The name under which a path is offered: its first word for a one-word command, otherwise the whole path, which is
      then as long as the command. */
  ghost predicate IsOfferedAs(path: seq<Text>, commandPath: seq<Text>, name: Text) {
    if |commandPath| == 1 then path != [] && name == path[0]
    else |path| == |commandPath| && name == Join(path, 32)
  }

  lemma PathsOf(spec: CommandSpec)
    ensures forall path :: path in spec.Paths() <==> path == spec.path || path in spec.aliases
  {
  }

  lemma CutIsOffered(path: seq<Text>, commandPath: seq<Text>)
    ensures forall name :: IsOfferedAs(path, commandPath, name) <==>
              |Cut(path, commandPath)| == |commandPath| && JoinWords(Cut(path, commandPath)) == name
  {
    if |commandPath| == 1 && path != [] {
      assert Cut(path, commandPath) == [path[0]];
    }
  }

  ghost predicate Offers(spec: CommandSpec, path: seq<Text>, commandPath: seq<Text>, allowDestructive: bool,
                         name: Text) {
    && (spec.destructive ==> allowDestructive)
    && (path == spec.path || path in spec.aliases)
    && IsOfferedAs(path, commandPath, name)
  }

  ghost predicate IsCandidate(specs: seq<CommandSpec>, commandPath: seq<Text>, allowDestructive: bool, name: Text) {
    exists spec, path :: spec in specs && Offers(spec, path, commandPath, allowDestructive, name)
  }

  /** What the suggestions are chosen from: near names of commands that destroy nothing, and of those that do if the
      command reaches for one. */
  ghost predicate Competes(specs: seq<CommandSpec>, commandPath: seq<Text>, name: Text) {
    && IsCandidate(specs, commandPath, ReachesForDestruction(specs, commandPath), name)
    && 0 < Distance(Join(commandPath, 32), name) <= 3
  }

  /** `scored` lists every name in `seen` once, with its distance from the input. */
  ghost predicate Scores(scored: seq<Scored>, input: Text, seen: set<Text>) {
    && (forall e :: e in scored ==> e.name in seen && e.distance == Distance(input, e.name))
    && (forall name :: name in seen ==> Scored(name, Distance(input, name)) in scored)
    && (forall i, j :: 0 <= i < j < |scored| ==> scored[i].name != scored[j].name)
  }

  method ScoreCandidates(specs: seq<CommandSpec>, commandPath: seq<Text>, allowDestructive: bool)
    returns (scored: seq<Scored>, seen: set<Text>)
    ensures Scores(scored, JoinWords(commandPath), seen)
    ensures forall name :: name in seen <==> IsCandidate(specs, commandPath, allowDestructive, name)
  {
    var input := JoinWords(commandPath);
    seen, scored := {}, [];
    for i := 0 to |specs|
      invariant Scores(scored, input, seen)
      invariant forall name :: name in seen <==>
                  exists k, path :: 0 <= k < i && Offers(specs[k], path, commandPath, allowDestructive, name)
    {
      var spec := specs[i];
      if spec.destructive && !allowDestructive { continue; }
      scored, seen := ScorePaths(spec, commandPath, allowDestructive, scored, seen);
    }
  }

  // The inner loop, over the path and the aliases of one command.
  method ScorePaths(spec: CommandSpec, commandPath: seq<Text>, ghost allowDestructive: bool, scored: seq<Scored>,
                    seen: set<Text>)
    returns (scored': seq<Scored>, seen': set<Text>)
    requires (!spec.destructive || allowDestructive) && Scores(scored, JoinWords(commandPath), seen)
    ensures Scores(scored', JoinWords(commandPath), seen')
    ensures forall name :: name in seen' <==>
              name in seen || exists path :: Offers(spec, path, commandPath, allowDestructive, name)
  {
    var input, paths := JoinWords(commandPath), spec.Paths();
    PathsOf(spec);
    scored', seen' := scored, seen;
    for j := 0 to |paths|
      invariant Scores(scored', input, seen')
      invariant forall name :: name in seen' <==>
                  name in seen || exists l :: 0 <= l < j && Offers(spec, paths[l], commandPath, allowDestructive, name)
    {
      CutIsOffered(paths[j], commandPath);
      var candidate := Cut(paths[j], commandPath);
      if |candidate| != |commandPath| { continue; }
      var joined := JoinWords(candidate);
      if joined in seen' { continue; }
      seen' := seen' + {joined};
      var distance := Levenshtein(input, joined);
      scored' := scored' + [Scored(joined, distance)];
    }
    forall name, path | Offers(spec, path, commandPath, allowDestructive, name) ensures name in seen' {
      assert path in spec.Paths();
    }
  }

  method SuggestCommands(specs: seq<CommandSpec>, commandPath: seq<Text>, collate: Collation) returns (r: seq<Text>)
    requires TotalPreorder(collate)
    // every suggestion is a near candidate, at most three, none twice
    ensures |r| <= 3 && Distinct(r) && forall name :: name in r ==> Competes(specs, commandPath, name)
    // closest first
    ensures forall i, j :: 0 <= i < j < |r| ==> Before(Join(commandPath, 32), collate, r[i], r[j])
    // and no near candidate is passed over for a worse one
    ensures forall name :: Competes(specs, commandPath, name) && name !in r ==>
              |r| == 3 && forall kept :: kept in r ==> Before(Join(commandPath, 32), collate, kept, name)
  {
    var verbs := DestructiveVerbs(specs);
    var token := FinalToken(commandPath);
    var allowDestructive := IntendsDestruction(token, verbs);
    assert EndsIn(commandPath, token);
    assert allowDestructive <==> ReachesForDestruction(specs, commandPath);
    var scored, seen := ScoreCandidates(specs, commandPath, allowDestructive);
    r := RankByDistance(scored, collate);
    RankedNames(scored, JoinWords(commandPath), seen, collate);
  }

  ghost predicate Before(input: Text, collate: Collation, a: Text, b: Text) {
    Distance(input, a) < Distance(input, b) || (Distance(input, a) == Distance(input, b) && collate(a, b) <= 0)
  }

  lemma RankedNames(scored: seq<Scored>, input: Text, seen: set<Text>, collate: Collation)
    requires Scores(scored, input, seen) && TotalPreorder(collate)
    ensures var r := RankByDistance(scored, collate);
            && |r| <= 3 && Distinct(r)
            && (forall i, j :: 0 <= i < j < |r| ==> Before(input, collate, r[i], r[j]))
            && (forall name :: name in r ==> name in seen && 0 < Distance(input, name) <= 3)
            && (forall name :: name in seen && 0 < Distance(input, name) <= 3 && name !in r ==>
                  |r| == 3 && forall kept :: kept in r ==> Before(input, collate, kept, name))
  {
    ShortlistIsTheBest(scored, collate);
    SortedSelectionDistinct(scored, IsNear, Compare(collate));
    var short, r := Shortlist(scored, collate), RankByDistance(scored, collate);
    forall i | 0 <= i < |r|
      ensures short[i] in scored && short[i] == Scored(r[i], Distance(input, r[i])) && IsNear(short[i])
    {
      assert short[i] in short;
    }
    forall i, j | 0 <= i < j < |r| ensures r[i] != r[j] && Before(input, collate, r[i], r[j]) {
      assert Compare(collate)(short[i], short[j]) <= 0;
    }
    forall name | name in seen && 0 < Distance(input, name) <= 3 && name !in r
      ensures |r| == 3 && forall kept :: kept in r ==> Before(input, collate, kept, name)
    {
      NotShortlisted(short, r, Scored(name, Distance(input, name)));
      BetterThan(short, r, input, collate, name);
    }
  }

  lemma BetterThan(short: seq<Scored>, r: seq<Text>, input: Text, collate: Collation, name: Text)
    requires |short| == |r| && forall i :: 0 <= i < |r| ==> short[i] == Scored(r[i], Distance(input, r[i]))
    requires forall kept :: kept in short ==> Compare(collate)(kept, Scored(name, Distance(input, name))) <= 0
    ensures forall kept :: kept in r ==> Before(input, collate, kept, name)
  {
    forall kept | kept in r ensures Before(input, collate, kept, name) {
      var i :| 0 <= i < |r| && r[i] == kept;
      assert short[i] in short;
    }
  }

  lemma NotShortlisted(short: seq<Scored>, r: seq<Text>, e: Scored)
    requires |short| == |r| && (forall i :: 0 <= i < |r| ==> r[i] == short[i].name) && e.name !in r
    ensures e !in short
  {
    forall i | 0 <= i < |short| ensures short[i] != e {
      assert r[i] in r;
    }
  }
}
