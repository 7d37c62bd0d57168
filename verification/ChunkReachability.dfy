/** The plain-Node entry guard of build-plugins/plain-node-entry-guard.ts: a depth-first walk over the chunk graph. */
module ChunkReachability {
  import opened Basics

  datatype Chunk = Chunk(fileName: Text, imports: seq<Text>, dynamicImports: seq<Text>, requiresElectron: bool)

  // The map the plugin builds: every chunk under its own file name.
  ghost predicate IsIndex(byFileName: map<Text, Chunk>) {
    forall name :: name in byFileName ==> byFileName[name].fileName == name
  }

  function Targets(chunk: Chunk): seq<Text> { chunk.imports + chunk.dynamicImports }

  /** A chain of imports through chunks that are present. */
  ghost predicate IsImportPath(path: seq<Text>, byFileName: map<Text, Chunk>) {
    && path != []
    && (forall i :: 0 <= i < |path| ==> path[i] in byFileName)
    && (forall i :: 0 <= i < |path| - 1 ==>
          path[i + 1] in byFileName[path[i]].imports || path[i + 1] in byFileName[path[i]].dynamicImports)
  }

  ghost predicate Reachable(entry: Text, name: Text, byFileName: map<Text, Chunk>) {
    exists path :: IsImportPath(path, byFileName) && path[0] == entry && path[|path| - 1] == name
  }

  lemma ReachableStep(entry: Text, name: Text, next: Text, byFileName: map<Text, Chunk>)
    requires Reachable(entry, name, byFileName) && next in byFileName && next in Targets(byFileName[name])
    ensures Reachable(entry, next, byFileName)
  {
    var path :| IsImportPath(path, byFileName) && path[0] == entry && path[|path| - 1] == name;
    assert IsImportPath(path + [next], byFileName);
  }

  /** A set that holds the entry and is closed under imports holds everything reachable. */
  lemma {:induction false} ClosedHoldsPath(path: seq<Text>, k: nat, byFileName: map<Text, Chunk>, closed: set<Text>)
    requires IsImportPath(path, byFileName) && k < |path| && path[0] in closed
    requires forall name, next :: name in closed && name in byFileName && next in Targets(byFileName[name]) ==>
             next in closed
    ensures path[k] in closed
  {
    if k > 0 {
      ClosedHoldsPath(path, k - 1, byFileName, closed);
      assert path[k - 1 + 1] == path[k] && path[k] in Targets(byFileName[path[k - 1]]);
    }
  }

  // Every name the walk can ever push.
  ghost function Universe(entry: Text, byFileName: map<Text, Chunk>): set<Text> {
    {entry} + set name, target | name in byFileName && target in Targets(byFileName[name]) :: target
  }

  /** The list holds exactly the chunks that were seen, once each. */
  ghost predicate Collected(reachable: seq<Chunk>, seen: set<Text>, byFileName: map<Text, Chunk>) {
    && Distinct(reachable)
    && forall chunk :: chunk in reachable <==>
         chunk.fileName in seen && chunk.fileName in byFileName && byFileName[chunk.fileName] == chunk
  }

  /** Whatever a seen chunk imports has been seen or waits on the stack. */
  ghost predicate ClosedUpTo(seen: set<Text>, waiting: set<Text>, byFileName: map<Text, Chunk>) {
    forall name, next :: name in seen && name in byFileName && next in Targets(byFileName[name]) ==>
           next in seen || next in waiting
  }

  /** The walk's invariant, with the stack seen as the set of names waiting on it. */
  ghost predicate Walking(entry: Text, universe: set<Text>, seen: set<Text>, waiting: set<Text>, reachable: seq<Chunk>,
                          byFileName: map<Text, Chunk>) {
    && seen <= universe && waiting <= universe
    && (forall name :: (name in seen || name in waiting) && name in byFileName ==> Reachable(entry, name, byFileName))
    && Collected(reachable, seen, byFileName)
    && (entry in seen || entry in waiting)
    && ClosedUpTo(seen, waiting, byFileName)
  }

  lemma WalkingStarts(entry: Text, byFileName: map<Text, Chunk>)
    ensures Walking(entry, Universe(entry, byFileName), {}, {entry}, [], byFileName)
  {
    if entry in byFileName {
      assert IsImportPath([entry], byFileName);
    }
  }

  lemma VisitKeeps(entry: Text, universe: set<Text>, name: Text, seen: set<Text>, waiting: set<Text>,
                   reachable: seq<Chunk>, byFileName: map<Text, Chunk>)
    requires universe == Universe(entry, byFileName)
    requires IsIndex(byFileName) && name !in seen &&
             Walking(entry, universe, seen, waiting + {name}, reachable, byFileName)
    ensures name !in byFileName ==> Walking(entry, universe, seen + {name}, waiting, reachable, byFileName)
    ensures name in byFileName ==>
              Walking(entry, universe, seen + {name}, waiting + Names(Targets(byFileName[name])),
                      reachable + [byFileName[name]], byFileName)
  {
    if name in byFileName {
      assert byFileName[name] !in reachable;
      forall next | next in Targets(byFileName[name]) && next in byFileName ensures Reachable(entry, next, byFileName) {
        ReachableStep(entry, name, next, byFileName);
      }
    }
  }

  ghost function Names(s: seq<Text>): set<Text> { set name | name in s }

  lemma NamesConcat(s: seq<Text>, t: seq<Text>)
    ensures Names(s + t) == Names(s) + Names(t)
  {
  }

  lemma WalkEnds(entry: Text, universe: set<Text>, seen: set<Text>, reachable: seq<Chunk>, byFileName: map<Text, Chunk>,
                 name: Text)
    requires Walking(entry, universe, seen, {}, reachable, byFileName)
    ensures name in byFileName && name in seen <==> Reachable(entry, name, byFileName)
  {
    if Reachable(entry, name, byFileName) {
      var path :| IsImportPath(path, byFileName) && path[0] == entry && path[|path| - 1] == name;
      ClosedHoldsPath(path, |path| - 1, byFileName, seen);
    }
  }

  method CollectReachableChunks(entry: Chunk, byFileName: map<Text, Chunk>) returns (reachable: seq<Chunk>)
    requires IsIndex(byFileName)
    ensures Distinct(reachable)
    ensures forall chunk :: chunk in reachable <==>
              chunk.fileName in byFileName && byFileName[chunk.fileName] == chunk &&
                  Reachable(entry.fileName, chunk.fileName, byFileName)
  {
    var seen: set<Text> := {};
    reachable := [];
    var stack := [entry.fileName];
    ghost var (start, universe) := (entry.fileName, Universe(entry.fileName, byFileName));
    WalkingStarts(start, byFileName);
    assert Names(stack) == {start};
    while stack != []
      invariant Walking(start, universe, seen, Names(stack), reachable, byFileName)
      decreases universe - seen, |stack|
    {
      var fileName := stack[|stack| - 1];
      LastName(stack);
      stack := stack[..|stack| - 1];
      if fileName in seen {
        SkipKeeps(start, universe, fileName, seen, Names(stack), reachable, byFileName);
        continue;
      }
      VisitKeeps(start, universe, fileName, seen, Names(stack), reachable, byFileName);
      assert fileName in universe;
      seen := seen + {fileName};
      if fileName !in byFileName { continue; }
      var chunk := byFileName[fileName];
      reachable := reachable + [chunk];
      NamesConcat(stack, Targets(chunk));
      stack := stack + Targets(chunk);
    }
    assert Names(stack) == {};
    forall name ensures name in byFileName && name in seen <==> Reachable(start, name, byFileName) {
      WalkEnds(start, universe, seen, reachable, byFileName, name);
    }
  }

  lemma LastName(stack: seq<Text>)
    requires stack != []
    ensures Names(stack) == Names(stack[..|stack| - 1]) + {stack[|stack| - 1]}
  {
    NamesConcat(stack[..|stack| - 1], [stack[|stack| - 1]]);
    assert stack == stack[..|stack| - 1] + [stack[|stack| - 1]];
  }

  lemma SkipKeeps(entry: Text, universe: set<Text>, name: Text, seen: set<Text>, waiting: set<Text>,
                  reachable: seq<Chunk>, byFileName: map<Text, Chunk>)
    requires name in seen && Walking(entry, universe, seen, waiting + {name}, reachable, byFileName)
    ensures Walking(entry, universe, seen, waiting, reachable, byFileName)
  {
  }

  /** The build fails exactly if some chunk reachable from the entry requires electron. */
  method AssertNoElectronRequire(entry: Chunk, byFileName: map<Text, Chunk>) returns (offender: Option<Chunk>)
    requires IsIndex(byFileName)
    ensures offender.None? <==>
            !exists name :: Reachable(entry.fileName, name, byFileName) && byFileName[name].requiresElectron
    ensures offender.Some? ==>
            Reachable(entry.fileName, offender.value.fileName, byFileName) && offender.value.requiresElectron
  {
    var reachable := CollectReachableChunks(entry, byFileName);
    for i := 0 to |reachable|
      invariant forall j :: 0 <= j < i ==> !reachable[j].requiresElectron
    {
      if reachable[i].requiresElectron {
        assert reachable[i] in reachable;
        return Some(reachable[i]);
      }
    }
    forall name | Reachable(entry.fileName, name, byFileName) ensures !byFileName[name].requiresElectron {
      assert byFileName[name] in reachable;
    }
    return None;
  }
}
