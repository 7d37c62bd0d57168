/** What the numbers of a rendering are worth. native/computer-use-linux/runtime.py numbers an element by how many
    records there are, and a compaction takes records away; src/main/computer/desktop-script-action.ts takes the first
    record that carries a number for the element meant by it. */
module ElementNumbers {
  import opened Basics
  import opened AccessibilityTree

  /** The first record with a number. */
  function FirstWithIndex(records: seq<Record>, index: nat): Option<Record> {
    if records == [] then None
    else if records[0].index == index then Some(records[0])
    else FirstWithIndex(records[1..], index)
  }

  /** The number on the line leads to the element the line was rendered for. */
  predicate LeadsBack(line: Line, records: seq<Record>)
    requires line.ElementLine?
  {
    var r := FirstWithIndex(records, line.index);
    r.Some? && r.value.runtimeId == line.path
  }

  ghost predicate NumbersLeadBack(s: Rendering) {
    forall line :: line in s.lines && line.ElementLine? ==> LeadsBack(line, s.records)
  }

  // ------------------------------------------------------------------- lines and records

  datatype Key = Key(index: nat, path: seq<nat>)

  function Shown(lines: seq<Line>): seq<Key> {
    if lines == [] then []
    else (if lines[0].ElementLine? then [Key(lines[0].index, lines[0].path)] else []) + Shown(lines[1..])
  }

  function Listed(records: seq<Record>): seq<Key> {
    if records == [] then [] else [Key(records[0].index, records[0].runtimeId)] + Listed(records[1..])
  }

  ghost predicate Unique(keys: seq<Key>) {
    forall i, j :: 0 <= i < j < |keys| ==> keys[i].index != keys[j].index
  }

  /** Lines and records match one to one, in order, and no number is used twice. */
  ghost predicate Matched(s: Rendering) { Shown(s.lines) == Listed(s.records) && Unique(Listed(s.records)) }

  lemma {:induction false} ShownConcat(a: seq<Line>, b: seq<Line>)
    ensures Shown(a + b) == Shown(a) + Shown(b)
  {
    if a == [] {
      assert a + b == b;
    } else {
      assert (a + b)[1..] == a[1..] + b && (a + b)[0] == a[0];
      ShownConcat(a[1..], b);
      Regroup(Shown([a[0]]), Shown(a[1..]), Shown(b));
    }
  }

  lemma {:induction false} ShownIs(lines: seq<Line>, key: Key)
    ensures key in Shown(lines) <==>
            exists line :: line in lines && line.ElementLine? && Key(line.index, line.path) == key
  {
    if lines != [] {
      ShownIs(lines[1..], key);
      assert forall line :: line in lines <==> line == lines[0] || line in lines[1..];
    }
  }

  lemma {:induction false} ListedAt(records: seq<Record>)
    ensures |Listed(records)| == |records|
    ensures forall k :: 0 <= k < |records| ==> Listed(records)[k] == Key(records[k].index, records[k].runtimeId)
  {
    if records != [] {
      ListedAt(records[1..]);
    }
  }

  lemma {:induction false} ListedConcat(a: seq<Record>, b: seq<Record>)
    ensures Listed(a + b) == Listed(a) + Listed(b)
  {
    if a == [] {
      assert a + b == b;
    } else {
      assert (a + b)[1..] == a[1..] + b && (a + b)[0] == a[0];
      ListedConcat(a[1..], b);
      Regroup(Listed([a[0]]), Listed(a[1..]), Listed(b));
    }
  }

  lemma {:induction false} SameIndexSameLine(lines: seq<Line>, a: Line, b: Line)
    requires Unique(Shown(lines)) && a in lines && b in lines
    requires a.ElementLine? && b.ElementLine? && a.index == b.index
    ensures a == b
  {
    var rest := Shown(lines[1..]);
    var keys := Shown(lines);
    if lines[0].ElementLine? {
      assert keys[0].index == lines[0].index && rest == keys[1..];
      forall line | line in lines[1..] && line.ElementLine? ensures line.index != lines[0].index {
        ShownIs(lines[1..], Key(line.index, line.path));
      }
    } else {
      assert keys == rest;
    }
    if a in lines[1..] && b in lines[1..] {
      SameIndexSameLine(lines[1..], a, b);
    }
  }

  /** Matching lines and records lead back, each number to one record. */
  lemma MatchedLeadsBack(s: Rendering)
    requires Matched(s)
    ensures NumbersLeadBack(s)
    ensures forall i, j :: 0 <= i < j < |s.records| ==> s.records[i].index != s.records[j].index
  {
    ListedAt(s.records);
    forall line | line in s.lines && line.ElementLine? ensures LeadsBack(line, s.records) {
      ShownIs(s.lines, Key(line.index, line.path));
      var k :| 0 <= k < |s.records| && Listed(s.records)[k] == Key(line.index, line.path);
      FirstIsOnly(s.records, k);
    }
  }

  lemma {:induction false} FirstIsOnly(records: seq<Record>, k: nat)
    requires k < |records| && forall j :: 0 <= j < k ==> records[j].index != records[k].index
    ensures FirstWithIndex(records, records[k].index) == Some(records[k])
  {
    if k > 0 {
      assert records[0].index != records[k].index;
      FirstIsOnly(records[1..], k - 1);
    }
  }

  // ------------------------------------------------------------- compaction keeps the match

  function Stays(omitted: set<nat>): Key -> bool { (key: Key) => key.index !in omitted }

  lemma {:induction false} UniqueFilter(keys: seq<Key>, keep: Key -> bool)
    requires Unique(keys)
    ensures Unique(Filter(keys, keep))
  {
    if keys != [] {
      UniqueFilter(keys[1..], keep);
      assert forall key :: key in keys[1..] ==> key.index != keys[0].index;
    }
  }

  lemma {:induction false} ListedFilter(records: seq<Record>, omitted: set<nat>)
    ensures Listed(Filter(records, Survives(omitted))) == Filter(Listed(records), Stays(omitted))
  {
    if records != [] {
      ListedFilter(records[1..], omitted);
      var key := Key(records[0].index, records[0].runtimeId);
      assert Listed(records) == [key] + Listed(records[1..]) && Listed(records)[1..] == Listed(records[1..]);
      var rest := Filter(records[1..], Survives(omitted));
      if records[0].index in omitted {
        assert Filter(records, Survives(omitted)) == rest;
      } else {
        assert Filter(records, Survives(omitted)) == [records[0]] + rest && ([records[0]] + rest)[1..] == rest;
      }
    }
  }

  lemma {:induction false} OmittedIndexesAre(lines: seq<Line>, depth: nat, records: seq<Record>, index: nat)
    ensures index in OmittedIndexes(lines, depth, records) <==>
            exists line :: line in lines && IsOmitted(line, depth, records) && line.index == index
  {
    if lines != [] {
      OmittedIndexesAre(lines[1..], depth, records, index);
      assert forall line :: line in lines <==> line == lines[0] || line in lines[1..];
    }
  }

  lemma {:induction false} KeptShown(lines: seq<Line>, depth: nat, records: seq<Record>, omitted: set<nat>)
    requires forall line :: line in lines && line.ElementLine? ==>
             (IsOmitted(line, depth, records) <==> line.index in omitted)
    ensures Shown(KeptLines(lines, depth, records)) == Filter(Shown(lines), Stays(omitted))
  {
    if lines != [] {
      assert lines[0] in lines;
      KeptShown(lines[1..], depth, records, omitted);
      var rest := KeptLines(lines[1..], depth, records);
      if lines[0].ElementLine? {
        assert Shown(lines)[1..] == Shown(lines[1..]);
      } else {
        assert Shown(lines) == Shown(lines[1..]);
      }
      if IsOmitted(lines[0], depth, records) {
        assert KeptLines(lines, depth, records) == rest;
      } else {
        assert KeptLines(lines, depth, records) == [lines[0]] + rest;
        assert ([lines[0]] + rest)[1..] == rest;
      }
    }
  }

  lemma CompactedShown(lines: seq<Line>, depth: nat, records: seq<Record>)
    ensures Shown(CompactedLines(lines, depth, records)) == Shown(KeptLines(lines, depth, records))
  {
    KeptFromFirstTab(lines, depth, records);
    var first := FirstTab(lines, depth);
    ShownAround(lines[..first], OmittedLine(depth, |lines| - |KeptLines(lines, depth, records)|),
                KeptLines(lines[first..], depth, records));
  }

  lemma ShownAround(a: seq<Line>, note: Line, b: seq<Line>)
    requires note.OmittedLine?
    ensures Shown(a + [note] + b) == Shown(a + b)
  {
    ShownConcat(a + [note], b);
    ShownConcat(a, [note]);
    ShownConcat(a, b);
    assert Shown([note]) == [];
  }

  // The numbers a compaction omits belong to the inactive tabs it looks at, and to no other line.
  lemma OmittedOnlyThere(head: seq<Line>, tail: seq<Line>, depth: nat, records: seq<Record>)
    requires Unique(Shown(head + tail))
    ensures var omitted := OmittedIndexes(tail, depth, records);
            && (forall line :: line in tail && line.ElementLine? ==>
                (IsOmitted(line, depth, records) <==> line.index in omitted))
            && (forall key :: key in Shown(head) ==> Stays(omitted)(key))
  {
    ShownConcat(head, tail);
    UniqueSuffix(Shown(head), Shown(tail));
    forall line | line in tail && line.ElementLine?
      ensures IsOmitted(line, depth, records) <==> line.index in OmittedIndexes(tail, depth, records)
    {
      OmittedIndexesAre(tail, depth, records, line.index);
      forall other | other in tail && IsOmitted(other, depth, records) && other.index == line.index
        ensures other == line
      {
        SameIndexSameLine(tail, other, line);
      }
    }
    forall key | key in Shown(head) ensures Stays(OmittedIndexes(tail, depth, records))(key) {
      OmittedIndexesAre(tail, depth, records, key.index);
      forall line | line in tail && IsOmitted(line, depth, records) ensures line.index != key.index {
        ShownIs(tail, Key(line.index, line.path));
        UniqueApart(Shown(head), Shown(tail), key, Key(line.index, line.path));
      }
    }
  }

  lemma UniqueSuffix(a: seq<Key>, b: seq<Key>)
    requires Unique(a + b)
    ensures Unique(b)
  {
    assert forall i :: 0 <= i < |b| ==> b[i] == (a + b)[|a| + i];
  }

  lemma UniqueApart(a: seq<Key>, b: seq<Key>, x: Key, y: Key)
    requires Unique(a + b) && x in a && y in b
    ensures x.index != y.index
  {
    var i :| 0 <= i < |a| && a[i] == x;
    var j :| 0 <= j < |b| && b[j] == y;
    assert (a + b)[i] == x && (a + b)[|a| + j] == y;
  }

  /** Compacting matching lists leaves matching lists, and keeps the records of the lines it does not look at. */
  lemma CompactKeepsMatched(s: Rendering, start: nat, depth: nat, before: seq<Record>)
    requires Matched(s) && start <= |s.lines|
    requires before <= s.records && Listed(before) == Shown(s.lines[..start])
    ensures Matched(Compact(s, start, depth)) && before <= Compact(s, start, depth).records
  {
    var head, tail := s.lines[..start], s.lines[start..];
    if Compacts(tail, depth, s.records) {
      var omitted := OmittedIndexes(tail, depth, s.records);
      assert head + tail == s.lines;
      OmittedOnlyThere(head, tail, depth, s.records);
      CompactedMatch(head, tail, depth, s.records);
      ListedFilter(s.records, omitted);
      UniqueFilter(Listed(s.records), Stays(omitted));
      FirstStay(s.records, before, omitted);
    }
  }

  lemma CompactedMatch(head: seq<Line>, tail: seq<Line>, depth: nat, records: seq<Record>)
    requires Unique(Shown(head + tail))
    ensures Shown(head + CompactedLines(tail, depth, records)) ==
            Filter(Shown(head + tail), Stays(OmittedIndexes(tail, depth, records)))
  {
    var omitted := OmittedIndexes(tail, depth, records);
    OmittedOnlyThere(head, tail, depth, records);
    KeptShown(tail, depth, records, omitted);
    CompactedShown(tail, depth, records);
    ShownConcat(head, tail);
    ShownConcat(head, CompactedLines(tail, depth, records));
    FilterConcat(Shown(head), Shown(tail), Stays(omitted));
    FilterAll(Shown(head), Stays(omitted));
  }

  lemma FirstStay(records: seq<Record>, before: seq<Record>, omitted: set<nat>)
    requires before <= records && forall key :: key in Listed(before) ==> Stays(omitted)(key)
    ensures before <= Filter(records, Survives(omitted))
  {
    ListedAt(before);
    forall r | r in before ensures Survives(omitted)(r) {
      var k :| 0 <= k < |before| && before[k] == r;
      assert Listed(before)[k] in Listed(before);
    }
    FilterAll(before, Survives(omitted));
    assert records == before + records[|before|..];
    FilterConcat(before, records[|before|..], Survives(omitted));
  }

  // --------------------------------------------------------------- what a walk adds and keeps

  ghost predicate BelowPath(line: Line, depth: nat, path: seq<nat>) {
    line.depth >= depth && (line.ElementLine? ==> path <= line.path)
  }

  /** What was there stays in place, and what is new lies in the subtree. */
  ghost predicate Appends(s: Rendering, r: Rendering, depth: nat, path: seq<nat>) {
    s.lines <= r.lines && forall k :: |s.lines| <= k < |r.lines| ==> BelowPath(r.lines[k], depth, path)
  }

  lemma CompactAppends(s: Rendering, below: Rendering, depth: nat, path: seq<nat>)
    requires Appends(s, below, depth, path)
    ensures Appends(s, Compact(below, |s.lines|, depth), depth, path)
  {
    var start := |s.lines|;
    var tail := below.lines[start..];
    if Compacts(tail, depth, below.records) {
      CompactedFrom(tail, depth, below.records);
      forall line | line in tail ensures BelowPath(line, depth, path) {
        var k :| start <= k < |below.lines| && below.lines[k] == line;
      }
      BehindBelow(s.lines, CompactedLines(tail, depth, below.records), depth, path);
      assert below.lines[..start] == s.lines;
    }
  }

  lemma BehindBelow(head: seq<Line>, tail: seq<Line>, depth: nat, path: seq<nat>)
    requires forall line :: line in tail ==> BelowPath(line, depth, path)
    ensures forall k :: |head| <= k < |head + tail| ==> BelowPath((head + tail)[k], depth, path)
  {
    forall k | |head| <= k < |head + tail| ensures BelowPath((head + tail)[k], depth, path) {
      assert (head + tail)[k] == tail[k - |head|];
    }
  }

  // A compaction adds its note, and keeps the lines of other depths.
  lemma CompactedFrom(lines: seq<Line>, depth: nat, records: seq<Record>)
    ensures forall line :: line in CompactedLines(lines, depth, records) ==>
              line in lines || (line.OmittedLine? && line.depth == depth)
    ensures forall line :: line in lines && !IsOmitted(line, depth, records) ==>
              line in CompactedLines(lines, depth, records)
  {
    var first := FirstTab(lines, depth);
    assert lines == lines[..first] + lines[first..];
    assert forall line :: line in lines[first..] ==> line in lines;
  }

  lemma {:induction false} WalkAppends(s: Rendering, node: Node, depth: nat, path: seq<nat>)
    ensures Appends(s, Walk(s, node, depth, path, true), depth, path)
    decreases node, |node.children| + 1
  {
    if |s.records| >= MAX_NODES || depth > MAX_DEPTH {
    } else if node.look.elided {
      ChildrenAppend(s, node, 0, depth, path);
    } else {
      var here := Enter(s, node, depth, path);
      assert Appends(s, here, depth, path);
      if !node.look.childrenSuppressed {
        ChildrenAppend(here, node, 0, depth + 1, path);
        var below := WalkChildren(here, node, 0, depth + 1, path, true);
        CompactAppends(here, below, depth + 1, path);
        AppendsBoth(s, here, Compact(below, |here.lines|, depth + 1), depth, path);
      }
    }
  }

  lemma AppendsBoth(s: Rendering, next: Rendering, r: Rendering, depth: nat, path: seq<nat>)
    requires Appends(s, next, depth, path) && (Appends(next, r, depth, path) || Appends(next, r, depth + 1, path))
    ensures Appends(s, r, depth, path)
  {
    forall k | |s.lines| <= k < |r.lines| ensures BelowPath(r.lines[k], depth, path) {
      if k < |next.lines| { assert r.lines[k] == next.lines[k]; }
    }
  }

  lemma {:induction false} ChildrenAppend(s: Rendering, node: Node, i: nat, depth: nat, path: seq<nat>)
    requires i <= |node.children|
    ensures Appends(s, WalkChildren(s, node, i, depth, path, true), depth, path)
    decreases node, |node.children| - i
  {
    if i < |node.children| {
      var child := node.children[i];
      var next := if child.Some? then Walk(s, child.value, depth, path + [i], true) else s;
      if child.Some? {
        WalkAppends(s, child.value, depth, path + [i]);
        assert forall line :: BelowPath(line, depth, path + [i]) ==> BelowPath(line, depth, path);
      }
      assert Appends(s, next, depth, path);
      ChildrenAppend(next, node, i + 1, depth, path);
      AppendsBoth(s, next, WalkChildren(next, node, i + 1, depth, path, true), depth, path);
    }
  }

  // ------------------------------------------------------------------ walks without a clash

  /** The number the next record would get is free. */
  ghost predicate NextIsFree(s: Rendering) { forall r :: r in s.records ==> r.index != |s.records| }

  /** Whenever the walk lists a node, the count of records is not the number of a record that is still there. */
  ghost predicate NoClash(s: Rendering, node: Node, depth: nat, path: seq<nat>)
    decreases node, |node.children| + 1
  {
    if |s.records| >= MAX_NODES || depth > MAX_DEPTH then true
    else if node.look.elided then NoClashBelow(s, node, 0, depth, path)
    else
      && NextIsFree(s)
      && (node.look.childrenSuppressed || NoClashBelow(Enter(s, node, depth, path), node, 0, depth + 1, path))
  }

  ghost predicate NoClashBelow(s: Rendering, node: Node, i: nat, depth: nat, path: seq<nat>)
    requires i <= |node.children|
    decreases node, |node.children| - i
  {
    i == |node.children| ||
    (var child := node.children[i];
     var next := if child.Some? then Walk(s, child.value, depth, path + [i], true) else s;
     && (child.Some? ==> NoClash(s, child.value, depth, path + [i]))
     && NoClashBelow(next, node, i + 1, depth, path))
  }

  /** From line `start` on, numbers that are still to be given out occur only below depth `d`. */
  ghost predicate Deep(s: Rendering, start: nat, d: nat) {
    forall k :: start <= k < |s.lines| && s.lines[k].ElementLine? && s.lines[k].index >= |s.records| ==>
           s.lines[k].depth > d
  }

  ghost predicate KeepsDeep(s: Rendering, r: Rendering, depth: nat) {
    forall start: nat, d: nat :: start <= |s.lines| && d <= depth && Deep(s, start, d) ==> Deep(r, start, d)
  }

  lemma EnterKeepsMatched(s: Rendering, node: Node, depth: nat, path: seq<nat>)
    requires Matched(s)
    ensures NextIsFree(s) ==> Matched(Enter(s, node, depth, path))
    ensures KeepsDeep(s, Enter(s, node, depth, path), depth)
  {
    var here := Enter(s, node, depth, path);
    ShownConcat(s.lines, [ElementLine(depth, |s.records|, node.look, path)]);
    ListedConcat(s.records, [MakeRecord(node, |s.records|, path)]);
    ListedAt(s.records);
  }

  lemma SubtreeKeepsDeep(s: Rendering, node: Node, depth: nat, path: seq<nat>, r: Rendering)
    requires var here := Enter(s, node, depth, path); here.records <= r.records && Appends(here, r, depth + 1, path)
    ensures KeepsDeep(s, r, depth)
  {
    var here := Enter(s, node, depth, path);
    forall start: nat, d: nat | start <= |s.lines| && d <= depth && Deep(s, start, d) ensures Deep(r, start, d) {
      forall k | start <= k < |r.lines| && r.lines[k].ElementLine? && r.lines[k].index >= |r.records|
        ensures r.lines[k].depth > d
      {
        if k < |here.lines| { assert r.lines[k] == here.lines[k]; }
        if k < |s.lines| { assert r.lines[k] == s.lines[k]; }
      }
    }
  }

  /** Without a clash, lines and records go on matching, and no record from before the walk is lost. */
  lemma {:induction false} WalkKeepsMatched(s: Rendering, node: Node, depth: nat, path: seq<nat>)
    requires Matched(s) && NoClash(s, node, depth, path)
    ensures var r := Walk(s, node, depth, path, true); Matched(r) && s.records <= r.records && KeepsDeep(s, r, depth)
    decreases node, |node.children| + 1
  {
    if |s.records| >= MAX_NODES || depth > MAX_DEPTH {
    } else if node.look.elided {
      ChildrenKeepMatched(s, node, 0, depth, path);
    } else {
      var here := Enter(s, node, depth, path);
      EnterKeepsMatched(s, node, depth, path);
      if !node.look.childrenSuppressed {
        SubtreeKeepsMatched(here, node, depth, path);
        SubtreeKeepsDeep(s, node, depth, path,
                         Compact(WalkChildren(here, node, 0, depth + 1, path, true), |here.lines|, depth + 1));
      }
    }
  }

  lemma {:induction false} SubtreeKeepsMatched(here: Rendering, node: Node, depth: nat, path: seq<nat>)
    requires Matched(here) && NoClashBelow(here, node, 0, depth + 1, path)
    ensures var r := Compact(WalkChildren(here, node, 0, depth + 1, path, true), |here.lines|, depth + 1);
            Matched(r) && here.records <= r.records && Appends(here, r, depth + 1, path)
    decreases node, |node.children|, 1
  {
    var below := WalkChildren(here, node, 0, depth + 1, path, true);
    ChildrenKeepMatched(here, node, 0, depth + 1, path);
    ChildrenAppend(here, node, 0, depth + 1, path);
    CompactAppends(here, below, depth + 1, path);
    assert below.lines[..|here.lines|] == here.lines;
    CompactKeepsMatched(below, |here.lines|, depth + 1, here.records);
  }

  lemma {:induction false} ChildrenKeepMatched(s: Rendering, node: Node, i: nat, depth: nat, path: seq<nat>)
    requires i <= |node.children| && Matched(s) && NoClashBelow(s, node, i, depth, path)
    ensures var r := WalkChildren(s, node, i, depth, path, true);
            Matched(r) && s.records <= r.records && KeepsDeep(s, r, depth)
    decreases node, |node.children| - i, 0
  {
    if i < |node.children| {
      var child := node.children[i];
      var next := if child.Some? then Walk(s, child.value, depth, path + [i], true) else s;
      if child.Some? {
        WalkKeepsMatched(s, child.value, depth, path + [i]);
        WalkAppends(s, child.value, depth, path + [i]);
      }
      ChildrenKeepMatched(next, node, i + 1, depth, path);
    }
  }

  // ------------------------------------------------------------ a clash is never made good

  /** The record of the line is gone, or another one carries its number. */
  ghost predicate Misnamed(records: seq<Record>, line: Line)
    requires line.ElementLine?
  {
    || (forall r :: r in records ==> !(r.index == line.index && r.runtimeId == line.path))
    || (exists r :: r in records && r.index == line.index && r.runtimeId != line.path)
  }

  /** The line is not for the subtree at the path, or for one of its first `i` children's. */
  ghost predicate Passed(line: Line, path: seq<nat>, i: nat) {
    line.ElementLine? && path <= line.path ==> |line.path| == |path| || line.path[|path|] < i
  }

  lemma PrefixAndNext(path: seq<nat>, i: nat, q: seq<nat>)
    ensures path + [i] <= q <==> path <= q && |path| < |q| && q[|path|] == i
  {
    if path + [i] <= q {
      assert q[..|path|] == (path + [i])[..|path|] == path;
      assert q[|path|] == (path + [i])[|path|];
    }
  }

  lemma PassedChild(line: Line, path: seq<nat>, i: nat)
    requires line.ElementLine? && Passed(line, path, i)
    ensures !(path + [i] <= line.path) && Passed(line, path, i + 1)
  {
    PrefixAndNext(path, i, line.path);
  }

  lemma EnterKeepsMisnamed(s: Rendering, node: Node, depth: nat, path: seq<nat>, z: Line)
    requires z.ElementLine? && Misnamed(s.records, z) && z.path != path
    ensures Misnamed(Enter(s, node, depth, path).records, z)
  {
    assert forall r :: r in s.records ==> r in Enter(s, node, depth, path).records;
  }

  lemma CompactKeepsMisnamed(s: Rendering, start: nat, depth: nat, z: Line)
    requires start <= |s.lines| && z.ElementLine? && Misnamed(s.records, z)
    ensures Misnamed(Compact(s, start, depth).records, z)
  {
  }

  lemma {:induction false} WalkKeepsMisnamed(s: Rendering, node: Node, depth: nat, path: seq<nat>, z: Line)
    requires z.ElementLine? && Misnamed(s.records, z) && !(path <= z.path)
    ensures Misnamed(Walk(s, node, depth, path, true).records, z)
    decreases node, |node.children| + 1
  {
    if |s.records| >= MAX_NODES || depth > MAX_DEPTH {
    } else if node.look.elided {
      ChildrenKeepMisnamed(s, node, 0, depth, path, z);
    } else {
      var here := Enter(s, node, depth, path);
      EnterKeepsMisnamed(s, node, depth, path, z);
      if !node.look.childrenSuppressed {
        ChildrenKeepMisnamed(here, node, 0, depth + 1, path, z);
        CompactKeepsMisnamed(WalkChildren(here, node, 0, depth + 1, path, true), |here.lines|, depth + 1, z);
      }
    }
  }

  lemma {:induction false} ChildrenKeepMisnamed(s: Rendering, node: Node, i: nat, depth: nat, path: seq<nat>, z: Line)
    requires i <= |node.children| && z.ElementLine? && Misnamed(s.records, z) && Passed(z, path, i)
    ensures Misnamed(WalkChildren(s, node, i, depth, path, true).records, z)
    decreases node, |node.children| - i
  {
    if i < |node.children| {
      var child := node.children[i];
      PassedChild(z, path, i);
      if child.Some? {
        WalkKeepsMisnamed(s, child.value, depth, path + [i], z);
      }
      var next := if child.Some? then Walk(s, child.value, depth, path + [i], true) else s;
      ChildrenKeepMisnamed(next, node, i + 1, depth, path, z);
    }
  }

  /** Line `k` of the rendering is misnamed, and out of reach of every later compaction that the lines of `s` permit. */
  ghost predicate Stuck(s: Rendering, r: Rendering, depth: nat, k: nat) {
    && k < |r.lines| && r.lines[k].ElementLine? && Misnamed(r.records, r.lines[k])
    && forall start: nat, d: nat :: start <= |s.lines| && d <= depth && Deep(s, start, d) ==>
         k < start || r.lines[k].depth > d
  }

  ghost predicate AllPassed(s: Rendering, path: seq<nat>, i: nat) {
    forall k :: 0 <= k < |s.lines| ==> Passed(s.lines[k], path, i)
  }

  ghost predicate Unvisited(s: Rendering, path: seq<nat>) {
    forall k :: 0 <= k < |s.lines| && s.lines[k].ElementLine? ==> !(path <= s.lines[k].path)
  }

  lemma NextChildUnvisited(s: Rendering, path: seq<nat>, i: nat)
    requires AllPassed(s, path, i)
    ensures Unvisited(s, path + [i])
  {
    forall k | 0 <= k < |s.lines| && s.lines[k].ElementLine? ensures !(path + [i] <= s.lines[k].path) {
      PassedChild(s.lines[k], path, i);
    }
  }

  lemma ChildPassed(s: Rendering, next: Rendering, depth: nat, path: seq<nat>, i: nat)
    requires AllPassed(s, path, i) && (next == s || Appends(s, next, depth, path + [i]))
    ensures AllPassed(next, path, i + 1)
  {
    forall k | 0 <= k < |next.lines| ensures Passed(next.lines[k], path, i + 1) {
      if k < |s.lines| {
        assert next.lines[k] == s.lines[k] && Passed(s.lines[k], path, i);
      } else if next.lines[k].ElementLine? {
        assert next.lines[k].path[|path|] == (path + [i])[|path|] == i;
      }
    }
  }

  // The clash itself: the line that already has the number lies below every compaction that is still open.
  lemma ClashSticks(s: Rendering, node: Node, depth: nat, path: seq<nat>) returns (k: nat)
    requires Matched(s) && Unvisited(s, path) && !NextIsFree(s)
    ensures k < |s.lines| && Stuck(s, Enter(s, node, depth, path), depth, k)
  {
    var here := Enter(s, node, depth, path);
    var j :| 0 <= j < |s.records| && s.records[j].index == |s.records|;
    var key := Key(s.records[j].index, s.records[j].runtimeId);
    ListedAt(s.records);
    assert Listed(s.records)[j] == key && key in Shown(s.lines);
    ShownIs(s.lines, key);
    k :| 0 <= k < |s.lines| && s.lines[k].ElementLine? && Key(s.lines[k].index, s.lines[k].path) == key;
    assert here.lines[k] == s.lines[k];
    assert MakeRecord(node, |s.records|, path) in here.records;
    assert path != s.lines[k].path;
  }

  // A line that a compaction does not look at stays; it may move up if it comes after the compaction's start.
  lemma CompactKeepsLine(below: Rendering, start: nat, depth: nat, k: nat) returns (k': nat)
    requires start <= |below.lines| && k < |below.lines| && (k < start || below.lines[k].depth != depth)
    ensures var r := Compact(below, start, depth); k' < |r.lines| && r.lines[k'] == below.lines[k]
    ensures if k < start then k' == k else k' >= start
  {
    var tail := below.lines[start..];
    if k < start || !Compacts(tail, depth, below.records) {
      k' := k;
    } else {
      CompactedFrom(tail, depth, below.records);
      assert below.lines[k] == tail[k - start] && tail[k - start] in tail;
      k' := PlaceBehind(below.lines[..start], CompactedLines(tail, depth, below.records), below.lines[k]);
    }
  }

  lemma PlaceBehind<T>(head: seq<T>, tail: seq<T>, x: T) returns (k: nat)
    requires x in tail
    ensures |head| <= k < |head + tail| && (head + tail)[k] == x
  {
    var l :| 0 <= l < |tail| && tail[l] == x;
    k := |head| + l;
  }

  // A stuck line stays stuck when its parent's children are compacted.
  lemma CompactKeepsStuck(s: Rendering, here: Rendering, below: Rendering, depth: nat, k: nat) returns (k': nat)
    requires Stuck(here, below, depth + 1, k) && |here.lines| <= |below.lines| && |s.lines| < |here.lines|
    requires KeepsDeep(s, here, depth)
    ensures Stuck(s, Compact(below, |here.lines|, depth + 1), depth, k')
  {
    var start, z := |here.lines|, below.lines[k];
    CompactKeepsMisnamed(below, start, depth + 1, z);
    assert Deep(here, start, depth + 1);
    k' := CompactKeepsLine(below, start, depth + 1, k);
    forall first: nat, d: nat | first <= |s.lines| && d <= depth && Deep(s, first, d)
      ensures k' < first || z.depth > d
    {
      assert Deep(here, first, d);
    }
  }

  /** If the walk clashes, the rendering has a line that its number no longer leads back from. */
  lemma {:induction false} WalkClashes(s: Rendering, node: Node, depth: nat, path: seq<nat>) returns (k: nat)
    requires Matched(s) && Unvisited(s, path) && !NoClash(s, node, depth, path)
    ensures Stuck(s, Walk(s, node, depth, path, true), depth, k)
    decreases node, |node.children| + 1
  {
    if node.look.elided {
      k := ChildrenClash(s, node, 0, depth, path);
      return;
    }
    var here := Enter(s, node, depth, path);
    EnterKeepsMatched(s, node, depth, path);
    if node.look.childrenSuppressed {
      k := ClashSticks(s, node, depth, path);
      return;
    }
    var below := WalkChildren(here, node, 0, depth + 1, path, true);
    ChildrenAppend(here, node, 0, depth + 1, path);
    if NextIsFree(s) {
      k := ChildrenClash(here, node, 0, depth + 1, path);
      k := CompactKeepsStuck(s, here, below, depth, k);
    } else {
      k := ClashSticks(s, node, depth, path);
      var z := here.lines[k];
      ChildrenKeepMisnamed(here, node, 0, depth + 1, path, z);
      CompactKeepsMisnamed(below, |here.lines|, depth + 1, z);
      CompactAppends(here, below, depth + 1, path);
    }
  }

  lemma {:induction false} ChildrenClash(s: Rendering, node: Node, i: nat, depth: nat, path: seq<nat>) returns (k: nat)
    requires i <= |node.children| && Matched(s) && AllPassed(s, path, i) && !NoClashBelow(s, node, i, depth, path)
    ensures Stuck(s, WalkChildren(s, node, i, depth, path, true), depth, k)
    decreases node, |node.children| - i
  {
    var child := node.children[i];
    var next := if child.Some? then Walk(s, child.value, depth, path + [i], true) else s;
    NextChildUnvisited(s, path, i);
    if child.Some? {
      WalkAppends(s, child.value, depth, path + [i]);
    }
    ChildPassed(s, next, depth, path, i);
    if child.Some? && !NoClash(s, child.value, depth, path + [i]) {
      k := WalkClashes(s, child.value, depth, path + [i]);
      ChildrenAppend(next, node, i + 1, depth, path);
      assert Passed(next.lines[k], path, i + 1);
      ChildrenKeepMisnamed(next, node, i + 1, depth, path, next.lines[k]);
    } else {
      if child.Some? {
        WalkKeepsMatched(s, child.value, depth, path + [i]);
      }
      k := ChildrenClash(next, node, i + 1, depth, path);
    }
  }

  // ---------------------------------------------------------------- every record has its line

  ghost predicate HasLine(lines: seq<Line>, r: Record) {
    exists line :: line in lines && line.ElementLine? && line.index == r.index && line.path == r.runtimeId
  }

  ghost predicate EachShown(lines: seq<Line>, records: seq<Record>) {
    forall r :: r in records ==> HasLine(lines, r)
  }

  lemma CompactedHasLine(lines: seq<Line>, start: nat, depth: nat, records: seq<Record>, r: Record)
    requires start <= |lines| && HasLine(lines, r) && r.index !in OmittedIndexes(lines[start..], depth, records)
    ensures HasLine(lines[..start] + CompactedLines(lines[start..], depth, records), r)
  {
    var tail := lines[start..];
    var line :| line in lines && line.ElementLine? && line.index == r.index && line.path == r.runtimeId;
    OmittedIndexesAre(tail, depth, records, r.index);
    assert lines == lines[..start] + tail;
    if line in tail {
      CompactedFrom(tail, depth, records);
      assert line in CompactedLines(tail, depth, records);
    }
  }

  lemma CompactKeepsShown(s: Rendering, start: nat, depth: nat)
    requires start <= |s.lines| && EachShown(s.lines, s.records)
    ensures EachShown(Compact(s, start, depth).lines, Compact(s, start, depth).records)
  {
    var r := Compact(s, start, depth);
    if Compacts(s.lines[start..], depth, s.records) {
      forall record | record in r.records ensures HasLine(r.lines, record) {
        CompactedHasLine(s.lines, start, depth, s.records, record);
      }
    }
  }

  lemma MoreLines(lines: seq<Line>, more: seq<Line>, r: Record)
    requires HasLine(lines, r) || HasLine(more, r)
    ensures HasLine(lines + more, r)
  {
    assert forall line :: line in lines || line in more ==> line in lines + more;
  }

  lemma EnterKeepsShown(s: Rendering, node: Node, depth: nat, path: seq<nat>)
    requires EachShown(s.lines, s.records)
    ensures EachShown(Enter(s, node, depth, path).lines, Enter(s, node, depth, path).records)
  {
    var here := Enter(s, node, depth, path);
    var last := ElementLine(depth, |s.records|, node.look, path);
    forall r | r in here.records ensures HasLine(here.lines, r) {
      assert last in [last];
      MoreLines(s.lines, [last], r);
    }
  }

  lemma {:induction false} WalkKeepsShown(s: Rendering, node: Node, depth: nat, path: seq<nat>)
    requires EachShown(s.lines, s.records)
    ensures var r := Walk(s, node, depth, path, true); EachShown(r.lines, r.records)
    decreases node, |node.children| + 1
  {
    if |s.records| >= MAX_NODES || depth > MAX_DEPTH {
    } else if node.look.elided {
      ChildrenKeepShown(s, node, 0, depth, path);
    } else {
      EnterKeepsShown(s, node, depth, path);
      if !node.look.childrenSuppressed {
        SubtreeKeepsShown(Enter(s, node, depth, path), node, depth, path);
      }
    }
  }

  lemma {:induction false} SubtreeKeepsShown(here: Rendering, node: Node, depth: nat, path: seq<nat>)
    requires EachShown(here.lines, here.records)
    ensures var r := Compact(WalkChildren(here, node, 0, depth + 1, path, true), |here.lines|, depth + 1);
            EachShown(r.lines, r.records)
    decreases node, |node.children|, 1
  {
    ChildrenKeepShown(here, node, 0, depth + 1, path);
    CompactKeepsShown(WalkChildren(here, node, 0, depth + 1, path, true), |here.lines|, depth + 1);
  }

  lemma {:induction false} ChildrenKeepShown(s: Rendering, node: Node, i: nat, depth: nat, path: seq<nat>)
    requires i <= |node.children| && EachShown(s.lines, s.records)
    ensures var r := WalkChildren(s, node, i, depth, path, true); EachShown(r.lines, r.records)
    decreases node, |node.children| - i, 0
  {
    if i < |node.children| {
      var child := node.children[i];
      if child.Some? {
        WalkKeepsShown(s, child.value, depth, path + [i]);
      }
      var next := if child.Some? then Walk(s, child.value, depth, path + [i], true) else s;
      ChildrenKeepShown(next, node, i + 1, depth, path);
    }
  }

  lemma {:induction false} FirstIsListed(records: seq<Record>, index: nat)
    ensures var first := FirstWithIndex(records, index);
            if first.Some? then first.value in records && first.value.index == index
            else forall r :: r in records ==> r.index != index
  {
    if records != [] {
      FirstIsListed(records[1..], index);
      assert forall r :: r in records <==> r == records[0] || r in records[1..];
    }
  }

  lemma MisnamedLeadsAstray(s: Rendering, z: Line)
    requires EachShown(s.lines, s.records) && z in s.lines && z.ElementLine? && Misnamed(s.records, z)
    ensures !NumbersLeadBack(s)
  {
    FirstIsListed(s.records, z.index);
    if LeadsBack(z, s.records) {
      var r :| r in s.records && r.index == z.index && r.runtimeId != z.path;
      assert HasLine(s.lines, r);
      var line :| line in s.lines && line.ElementLine? && line.index == r.index && line.path == r.runtimeId;
      assert !LeadsBack(line, s.records);
    }
  }

  /** In a compacted rendering every displayed number leads to the element it is displayed for, exactly if the walk
      never lists a node while the count of records is the number of a record that is still there. */
  lemma NumbersLeadBackIff(root: Node, rootPath: seq<nat>)
    ensures NumbersLeadBack(Render(root, rootPath, true)) <==> NoClash(EMPTY, root, 0, rootPath)
    ensures NoClash(EMPTY, root, 0, rootPath) ==> Matched(Render(root, rootPath, true))
  {
    var r := Render(root, rootPath, true);
    if NoClash(EMPTY, root, 0, rootPath) {
      WalkKeepsMatched(EMPTY, root, 0, rootPath);
      MatchedLeadsBack(r);
    } else {
      var k := WalkClashes(EMPTY, root, 0, rootPath);
      WalkKeepsShown(EMPTY, root, 0, rootPath);
      MisnamedLeadsAstray(r, r.lines[k]);
    }
  }

  /** Without compaction every displayed number leads back. */
  lemma UncompactedLeadsBack(root: Node, rootPath: seq<nat>)
    ensures NumbersLeadBack(Render(root, rootPath, false))
  {
    RenderIsPreorderPrefix(root, rootPath);
    var r := Render(root, rootPath, false);
    forall line | line in r.lines && line.ElementLine? ensures LeadsBack(line, r.records) {
      var k :| 0 <= k < |r.lines| && r.lines[k] == line;
      FirstIsOnly(r.records, k);
    }
  }

  /** A number that leads back reaches, on an unchanged tree, the very node its line was rendered for. */
  lemma NumberReachesNode(app: Node, root: Node, rootPath: seq<nat>, compactTabs: bool, line: Line)
    requires FindByPath(app, rootPath) == Some(root) && line in Render(root, rootPath, compactTabs).lines
    requires line.ElementLine? && LeadsBack(line, Render(root, rootPath, compactTabs).records)
    ensures var first := FirstWithIndex(Render(root, rootPath, compactTabs).records, line.index);
            first.Some? && FindElement(app, first.value).Some? &&
            FindElement(app, first.value) == FindByPath(app, line.path)
  {
    var r := Render(root, rootPath, compactTabs);
    FirstIsListed(r.records, line.index);
    RenderedRecordsResolve(app, root, rootPath, compactTabs, FirstWithIndex(r.records, line.index).value);
  }

  // ------------------------------------------------------------------------ the numbering

  ghost predicate Numbered(records: seq<Record>) { forall k :: 0 <= k < |records| ==> records[k].index == k }

  /** Compacting a numbered list keeps every index equal to its position exactly if nothing that survives comes after
      something that was omitted. */
  lemma CompactionKeepsNumbersIff(records: seq<Record>, omitted: set<nat>)
    requires Numbered(records)
    ensures Numbered(Filter(records, Survives(omitted))) <==>
            OmitsASuffix(|records|, omitted)
  {
    var n, j := FirstOmitted(|records|, omitted);
    if OmitsASuffix(|records|, omitted) {
      NothingSurvives(records, omitted, n);
    } else {
      SurvivorMoves(records, omitted, n, j);
    }
  }

  lemma FirstOmitted(size: nat, omitted: set<nat>) returns (n: nat, j: nat)
    ensures n <= size && forall k :: 0 <= k < n ==> k !in omitted
    ensures OmitsASuffix(size, omitted) ==> OmitsFrom(n, size, omitted)
    ensures !OmitsASuffix(size, omitted) ==> n < j < size && n in omitted && j !in omitted
  {
    n, j := 0, 0;
    while n < size && n !in omitted
      invariant n <= size && forall k :: 0 <= k < n ==> k !in omitted
    {
      n := n + 1;
    }
    if OmitsASuffix(size, omitted) {
      var m :| 0 <= m <= size && OmitsFrom(m, size, omitted);
      if m < size { assert m in omitted; }
      assert m <= n <= m;
    } else {
      assert !OmitsFrom(n, size, omitted);
      j :| n < j < size && j !in omitted;
    }
  }

  ghost predicate OmitsFrom(n: nat, size: nat, omitted: set<nat>) {
    forall k :: 0 <= k < size ==> (k in omitted <==> n <= k)
  }

  ghost predicate OmitsASuffix(size: nat, omitted: set<nat>) {
    exists n :: 0 <= n <= size && OmitsFrom(n, size, omitted)
  }

  lemma NothingSurvives(records: seq<Record>, omitted: set<nat>, n: nat)
    requires Numbered(records) && n <= |records| && OmitsFrom(n, |records|, omitted)
    ensures Numbered(Filter(records, Survives(omitted)))
  {
    FilterOfSplit(records, omitted, n);
    forall i | 0 <= i < |records[n..]| ensures !Survives(omitted)(records[n..][i]) {
      assert records[n + i].index == n + i;
    }
    FilterNone(records[n..], Survives(omitted));
    assert records[..n] + [] == records[..n];
  }

  lemma SurvivorMoves(records: seq<Record>, omitted: set<nat>, n: nat, j: nat)
    requires Numbered(records) && n < j < |records| && n in omitted && j !in omitted
    requires forall k :: 0 <= k < n ==> k !in omitted
    ensures !Numbered(Filter(records, Survives(omitted)))
  {
    FilterOfSplit(records, omitted, n);
    var later := Filter(records[n..], Survives(omitted));
    assert records[j] in records[n..] && records[j].index == j;
    assert records[j] in later;
    assert later[0] in later && later[0] in records[n..];
    assert Filter(records, Survives(omitted))[n] == later[0];
  }

  lemma FilterOfSplit(records: seq<Record>, omitted: set<nat>, n: nat)
    requires Numbered(records) && n <= |records| && forall k :: 0 <= k < n ==> k !in omitted
    ensures Filter(records, Survives(omitted)) == records[..n] + Filter(records[n..], Survives(omitted))
  {
    assert records == records[..n] + records[n..];
    FilterConcat(records[..n], records[n..], Survives(omitted));
    forall r | r in records[..n] ensures Survives(omitted)(r) {
      var k :| 0 <= k < n && records[k] == r;
    }
    FilterAll(records[..n], Survives(omitted));
  }

  /** Every compaction of the walk omits the last of the records there are. */
  ghost predicate OmitsOnlySuffixes(s: Rendering, node: Node, depth: nat, path: seq<nat>)
    decreases node, |node.children| + 1
  {
    if |s.records| >= MAX_NODES || depth > MAX_DEPTH then true
    else if node.look.elided then OmitsOnlySuffixesBelow(s, node, 0, depth, path)
    else if node.look.childrenSuppressed then true
    else
      var here := Enter(s, node, depth, path);
      var below := WalkChildren(here, node, 0, depth + 1, path, true);
      && OmitsOnlySuffixesBelow(here, node, 0, depth + 1, path)
      && CompactsASuffix(below, |here.lines|, depth + 1)
  }

  ghost predicate CompactsASuffix(s: Rendering, start: nat, depth: nat)
    requires start <= |s.lines|
  {
    var tail := s.lines[start..];
    Compacts(tail, depth, s.records) ==> OmitsASuffix(|s.records|, OmittedIndexes(tail, depth, s.records))
  }

  ghost predicate OmitsOnlySuffixesBelow(s: Rendering, node: Node, i: nat, depth: nat, path: seq<nat>)
    requires i <= |node.children|
    decreases node, |node.children| - i
  {
    i == |node.children| ||
    (var child := node.children[i];
     var next := if child.Some? then Walk(s, child.value, depth, path + [i], true) else s;
     && (child.Some? ==> OmitsOnlySuffixes(s, child.value, depth, path + [i]))
     && OmitsOnlySuffixesBelow(next, node, i + 1, depth, path))
  }

  lemma CompactStaysNumbered(s: Rendering, start: nat, depth: nat)
    requires start <= |s.lines| && Numbered(s.records)
    ensures Numbered(Compact(s, start, depth).records) <==> CompactsASuffix(s, start, depth)
  {
    CompactionKeepsNumbersIff(s.records, OmittedIndexes(s.lines[start..], depth, s.records));
  }

  lemma {:induction false} WalkStaysNumbered(s: Rendering, node: Node, depth: nat, path: seq<nat>)
    requires Numbered(s.records) && OmitsOnlySuffixes(s, node, depth, path)
    ensures Numbered(Walk(s, node, depth, path, true).records) && NoClash(s, node, depth, path)
    decreases node, |node.children| + 1
  {
    if |s.records| >= MAX_NODES || depth > MAX_DEPTH {
    } else if node.look.elided {
      ChildrenStayNumbered(s, node, 0, depth, path);
    } else {
      assert NextIsFree(s);
      if !node.look.childrenSuppressed {
        SubtreeStaysNumbered(Enter(s, node, depth, path), node, depth, path);
      }
    }
  }

  lemma {:induction false} SubtreeStaysNumbered(here: Rendering, node: Node, depth: nat, path: seq<nat>)
    requires Numbered(here.records) && OmitsOnlySuffixesBelow(here, node, 0, depth + 1, path)
    requires CompactsASuffix(WalkChildren(here, node, 0, depth + 1, path, true), |here.lines|, depth + 1)
    ensures Numbered(Compact(WalkChildren(here, node, 0, depth + 1, path, true), |here.lines|, depth + 1).records)
    ensures NoClashBelow(here, node, 0, depth + 1, path)
    decreases node, |node.children|, 1
  {
    ChildrenStayNumbered(here, node, 0, depth + 1, path);
    CompactStaysNumbered(WalkChildren(here, node, 0, depth + 1, path, true), |here.lines|, depth + 1);
  }

  lemma {:induction false} ChildrenStayNumbered(s: Rendering, node: Node, i: nat, depth: nat, path: seq<nat>)
    requires i <= |node.children| && Numbered(s.records) && OmitsOnlySuffixesBelow(s, node, i, depth, path)
    ensures Numbered(WalkChildren(s, node, i, depth, path, true).records) && NoClashBelow(s, node, i, depth, path)
    decreases node, |node.children| - i, 0
  {
    if i < |node.children| {
      var child := node.children[i];
      if child.Some? {
        WalkStaysNumbered(s, child.value, depth, path + [i]);
      }
      var next := if child.Some? then Walk(s, child.value, depth, path + [i], true) else s;
      ChildrenStayNumbered(next, node, i + 1, depth, path);
    }
  }

  // -------------------------------------------------- a broken numbering is never made good

  ghost predicate Increasing(records: seq<Record>) {
    forall i, j :: 0 <= i < j < |records| ==> records[i].index < records[j].index
  }

  lemma {:induction false} FilterKeepsIncreasing(records: seq<Record>, keep: Record -> bool)
    requires Increasing(records)
    ensures Increasing(Filter(records, keep))
  {
    if records != [] {
      FilterKeepsIncreasing(records[1..], keep);
      assert forall r :: r in records[1..] ==> records[0].index < r.index;
    }
  }

  lemma {:induction false} Spread(records: seq<Record>, i: nat, j: nat)
    requires Increasing(records) && i <= j < |records|
    ensures records[j].index - records[i].index >= j - i
    decreases j
  {
    if i < j {
      Spread(records, i, j - 1);
    }
  }

  /** The record has a number that is still to be given out. */
  ghost predicate Ahead(records: seq<Record>, r: Record) { r in records && r.index >= |records| }

  // A compaction that omits no suffix leaves a record ahead of the count.
  lemma GapLeavesOneAhead(s: Rendering, start: nat, depth: nat) returns (r: Record)
    requires start <= |s.lines| && Numbered(s.records) && !CompactsASuffix(s, start, depth)
    ensures Ahead(Compact(s, start, depth).records, r)
  {
    var rest := Compact(s, start, depth).records;
    CompactStaysNumbered(s, start, depth);
    FilterKeepsIncreasing(s.records, Survives(OmittedIndexes(s.lines[start..], depth, s.records)));
    var k :| 0 <= k < |rest| && rest[k].index != k;
    Spread(rest, 0, k);
    Spread(rest, k, |rest| - 1);
    r := rest[|rest| - 1];
  }

  lemma {:induction false} WalkKeepsAhead(s: Rendering, node: Node, depth: nat, path: seq<nat>, r: Record)
    requires Matched(s) && NoClash(s, node, depth, path) && Ahead(s.records, r)
    ensures Ahead(Walk(s, node, depth, path, true).records, r)
    decreases node, |node.children| + 1
  {
    WalkKeepsMatched(s, node, depth, path);
    if |s.records| >= MAX_NODES || depth > MAX_DEPTH {
    } else if node.look.elided {
      ChildrenKeepAhead(s, node, 0, depth, path, r);
    } else {
      var here := Enter(s, node, depth, path);
      EnterKeepsMatched(s, node, depth, path);
      if !node.look.childrenSuppressed {
        var below := WalkChildren(here, node, 0, depth + 1, path, true);
        ChildrenKeepAhead(here, node, 0, depth + 1, path, r);
        assert |Compact(below, |here.lines|, depth + 1).records| <= |below.records|;
      }
    }
  }

  lemma {:induction false} ChildrenKeepAhead(s: Rendering, node: Node, i: nat, depth: nat, path: seq<nat>, r: Record)
    requires i <= |node.children| && Matched(s) && NoClashBelow(s, node, i, depth, path) && Ahead(s.records, r)
    ensures Ahead(WalkChildren(s, node, i, depth, path, true).records, r)
    decreases node, |node.children| - i
  {
    if i < |node.children| {
      var child := node.children[i];
      var next := if child.Some? then Walk(s, child.value, depth, path + [i], true) else s;
      if child.Some? {
        WalkKeepsMatched(s, child.value, depth, path + [i]);
        WalkKeepsAhead(s, child.value, depth, path + [i], r);
      }
      ChildrenKeepAhead(next, node, i + 1, depth, path, r);
    }
  }

  /** Line `k` shows a record ahead of the count, and lies too deep for any later compaction. */
  ghost predicate Adrift(r: Rendering, from: nat, depth: nat, k: nat) {
    && from <= k < |r.lines| && r.lines[k].ElementLine? && r.lines[k].depth > depth
    && r.lines[k].index >= |r.records|
  }

  /** Without a clash, a compaction in the middle leaves a record ahead of the count for good. */
  lemma {:induction false} WalkLeavesAdrift(s: Rendering, node: Node, depth: nat, path: seq<nat>) returns (k: nat)
    requires Matched(s) && Numbered(s.records) && NoClash(s, node, depth, path)
    requires !OmitsOnlySuffixes(s, node, depth, path)
    ensures Adrift(Walk(s, node, depth, path, true), |s.lines|, depth, k)
    decreases node, |node.children| + 1
  {
    if node.look.elided {
      k := ChildrenLeaveAdrift(s, node, 0, depth, path);
    } else {
      var here := Enter(s, node, depth, path);
      EnterKeepsMatched(s, node, depth, path);
      k := SubtreeLeavesAdrift(here, node, depth, path);
    }
  }

  lemma {:induction false} SubtreeLeavesAdrift(here: Rendering, node: Node, depth: nat, path: seq<nat>) returns (k: nat)
    requires Matched(here) && Numbered(here.records) && NoClashBelow(here, node, 0, depth + 1, path)
    requires var below := WalkChildren(here, node, 0, depth + 1, path, true);
             !OmitsOnlySuffixesBelow(here, node, 0, depth + 1, path) || !CompactsASuffix(below, |here.lines|, depth + 1)
    ensures Adrift(Compact(WalkChildren(here, node, 0, depth + 1, path, true), |here.lines|, depth + 1),
                   |here.lines|, depth, k)
    decreases node, |node.children|, 1
  {
    var below := WalkChildren(here, node, 0, depth + 1, path, true);
    if OmitsOnlySuffixesBelow(here, node, 0, depth + 1, path) {
      ChildrenStayNumbered(here, node, 0, depth + 1, path);
      SubtreeKeepsMatched(here, node, depth, path);
      var r := GapLeavesOneAhead(below, |here.lines|, depth + 1);
      k := AheadIsBelow(here, Compact(below, |here.lines|, depth + 1), depth, path, r);
    } else {
      k := ChildrenLeaveAdrift(here, node, 0, depth + 1, path);
      k := CompactKeepsLine(below, |here.lines|, depth + 1, k);
      assert |Compact(below, |here.lines|, depth + 1).records| <= |below.records|;
    }
  }

  lemma AheadIsBelow(here: Rendering, after: Rendering, depth: nat, path: seq<nat>, r: Record) returns (k: nat)
    requires Matched(here) && Numbered(here.records) && Matched(after) && here.records <= after.records
    requires Appends(here, after, depth + 1, path) && Ahead(after.records, r)
    ensures Adrift(after, |here.lines|, depth, k)
  {
    var key := Key(r.index, r.runtimeId);
    ListedAt(after.records);
    assert key in Listed(after.records);
    ShownIs(after.lines, key);
    k :| 0 <= k < |after.lines| && after.lines[k].ElementLine? && Key(after.lines[k].index, after.lines[k].path) == key;
    NumbersAreBelowCount(here);
    assert forall l :: 0 <= l < |here.lines| ==> after.lines[l] == here.lines[l];
  }

  lemma NumbersAreBelowCount(s: Rendering)
    requires Matched(s) && Numbered(s.records)
    ensures forall k :: 0 <= k < |s.lines| && s.lines[k].ElementLine? ==> s.lines[k].index < |s.records|
  {
    forall k | 0 <= k < |s.lines| && s.lines[k].ElementLine? ensures s.lines[k].index < |s.records| {
      ShownIs(s.lines, Key(s.lines[k].index, s.lines[k].path));
      ListedAt(s.records);
      var l :| 0 <= l < |s.records| && Listed(s.records)[l] == Key(s.lines[k].index, s.lines[k].path);
    }
  }

  lemma {:induction false} ChildrenLeaveAdrift(s: Rendering, node: Node, i: nat, depth: nat, path: seq<nat>)
    returns (k: nat)
    requires i <= |node.children| && Matched(s) && Numbered(s.records) && NoClashBelow(s, node, i, depth, path)
    requires !OmitsOnlySuffixesBelow(s, node, i, depth, path)
    ensures Adrift(WalkChildren(s, node, i, depth, path, true), |s.lines|, depth, k)
    decreases node, |node.children| - i, 0
  {
    var child := node.children[i];
    var next := if child.Some? then Walk(s, child.value, depth, path + [i], true) else s;
    if child.Some? {
      WalkKeepsMatched(s, child.value, depth, path + [i]);
      WalkAppends(s, child.value, depth, path + [i]);
    }
    if child.Some? && !OmitsOnlySuffixes(s, child.value, depth, path + [i]) {
      k := WalkLeavesAdrift(s, child.value, depth, path + [i]);
      ChildrenKeepAdrift(next, node, i + 1, depth, path, k);
    } else {
      if child.Some? {
        WalkStaysNumbered(s, child.value, depth, path + [i]);
      }
      k := ChildrenLeaveAdrift(next, node, i + 1, depth, path);
    }
  }

  lemma ChildrenKeepAdrift(s: Rendering, node: Node, i: nat, depth: nat, path: seq<nat>, k: nat)
    requires i <= |node.children| && Matched(s) && NoClashBelow(s, node, i, depth, path) && Adrift(s, 0, depth, k)
    ensures var r := WalkChildren(s, node, i, depth, path, true); Adrift(r, 0, depth, k)
  {
    ChildrenAppend(s, node, i, depth, path);
    ShownIs(s.lines, Key(s.lines[k].index, s.lines[k].path));
    ListedAt(s.records);
    var l :| 0 <= l < |s.records| && Listed(s.records)[l] == Key(s.lines[k].index, s.lines[k].path);
    ChildrenKeepAhead(s, node, i, depth, path, s.records[l]);
  }

  /** A compacted rendering is numbered by position and has every displayed number lead back, exactly if every
      compaction of the walk omits the last of the records there are. A break is never made good: a list that happens
      to be in order again has lost the record of a displayed line. */
  lemma NumberedAndLeadsBackIff(root: Node, rootPath: seq<nat>)
    ensures Numbered(Render(root, rootPath, true).records) && NumbersLeadBack(Render(root, rootPath, true)) <==>
            OmitsOnlySuffixes(EMPTY, root, 0, rootPath)
  {
    var r := Render(root, rootPath, true);
    NumbersLeadBackIff(root, rootPath);
    if OmitsOnlySuffixes(EMPTY, root, 0, rootPath) {
      WalkStaysNumbered(EMPTY, root, 0, rootPath);
    } else if NoClash(EMPTY, root, 0, rootPath) {
      var k := WalkLeavesAdrift(EMPTY, root, 0, rootPath);
      ShownIs(r.lines, Key(r.lines[k].index, r.lines[k].path));
      ListedAt(r.records);
      var l :| 0 <= l < |r.records| && Listed(r.records)[l] == Key(r.lines[k].index, r.lines[k].path);
      assert r.records[l].index != l;
    }
  }

  // ------------------------------------------------------------------- a window with a tab bar

  /** Leaf tabs of which only the last is active. */
  ghost predicate IsTabBar(bar: Node) {
    && !bar.look.elided && !bar.look.childrenSuppressed && !bar.look.isTab && |bar.children| >= 10
    && forall i :: 0 <= i < |bar.children| ==>
         IsLeaf(bar.children[i], Look(false, false, true, false, i == |bar.children| - 1))
  }

  predicate IsLeaf(child: Option<Node>, look: Look) {
    child.Some? && child.value.children == [] && child.value.look == look
  }

  lemma LeafIsListed(s: Rendering, leaf: Node, depth: nat, path: seq<nat>, look: Look)
    requires IsLeaf(Some(leaf), look) && !look.elided && |s.records| < MAX_NODES && depth <= MAX_DEPTH
    ensures Walk(s, leaf, depth, path, true) == Enter(s, leaf, depth, path)
    ensures OmitsOnlySuffixes(s, leaf, depth, path)
    ensures NoClash(s, leaf, depth, path) <==> NextIsFree(s)
  {
    var here := Enter(s, leaf, depth, path);
    assert WalkChildren(here, leaf, 0, depth + 1, path, true) == here;
    assert here.lines[|here.lines|..] == [];
  }

  // The children of `node` from the i-th on are leaves, and there is room for them.
  ghost predicate LeavesFrom(s: Rendering, node: Node, i: nat, depth: nat) {
    && i <= |node.children| && |s.records| + (|node.children| - i) <= MAX_NODES && depth <= MAX_DEPTH
    && forall j :: i <= j < |node.children| ==>
         node.children[j].Some? && IsLeaf(node.children[j], node.children[j].value.look)
         && !node.children[j].value.look.elided
  }

  /** Leaves are listed one after the other, numbered by the count of records. */
  ghost predicate ListsLeaves(s: Rendering, r: Rendering, node: Node, i: nat, depth: nat, path: seq<nat>)
    requires LeavesFrom(s, node, i, depth)
  {
    var (c, l) := (|s.records|, |s.lines|);
    && |r.records| == c + (|node.children| - i) && s.records <= r.records
    && |r.lines| == l + (|node.children| - i) && s.lines <= r.lines
    && (forall k :: c <= k < |r.records| ==> r.records[k] == LeafRecord(node, i + (k - c), k, path))
    && (forall k :: l <= k < |r.lines| ==> r.lines[k] == LeafLine(node, i + (k - l), c + (k - l), depth, path))
  }

  function LeafRecord(node: Node, j: nat, index: nat, path: seq<nat>): Record
    requires j < |node.children| && node.children[j].Some?
  {
    MakeRecord(node.children[j].value, index, path + [j])
  }

  function LeafLine(node: Node, j: nat, index: nat, depth: nat, path: seq<nat>): Line
    requires j < |node.children| && node.children[j].Some?
  {
    ElementLine(depth, index, node.children[j].value.look, path + [j])
  }

  lemma {:induction false} LeavesAreListed(s: Rendering, node: Node, i: nat, depth: nat, path: seq<nat>)
    requires LeavesFrom(s, node, i, depth)
    ensures ListsLeaves(s, WalkChildren(s, node, i, depth, path, true), node, i, depth, path)
    ensures OmitsOnlySuffixesBelow(s, node, i, depth, path)
    decreases |node.children| - i
  {
    if i < |node.children| {
      var leaf := node.children[i].value;
      LeafIsListed(s, leaf, depth, path + [i], leaf.look);
      var next := Enter(s, leaf, depth, path + [i]);
      LeavesAreListed(next, node, i + 1, depth, path);
      OneMoreLeaf(s, node, i, depth, path, WalkChildren(next, node, i + 1, depth, path, true));
    }
  }

  lemma OneMoreLeaf(s: Rendering, node: Node, i: nat, depth: nat, path: seq<nat>, r: Rendering)
    requires LeavesFrom(s, node, i, depth) && i < |node.children|
    requires ListsLeaves(Enter(s, node.children[i].value, depth, path + [i]), r, node, i + 1, depth, path)
    ensures ListsLeaves(s, r, node, i, depth, path)
  {
    var next := Enter(s, node.children[i].value, depth, path + [i]);
    assert next.records[|s.records|] == LeafRecord(node, i, |s.records|, path);
    assert next.lines[|s.lines|] == LeafLine(node, i, |s.records|, depth, path);
  }

  /** Leaves clash exactly with the records that carry one of the next numbers. */
  lemma {:induction false} LeavesClashIff(s: Rendering, node: Node, i: nat, depth: nat, path: seq<nat>)
    requires LeavesFrom(s, node, i, depth)
    ensures NoClashBelow(s, node, i, depth, path) <==>
            forall r :: r in s.records ==> !(|s.records| <= r.index < |s.records| + (|node.children| - i))
    decreases |node.children| - i
  {
    if i < |node.children| {
      var leaf := node.children[i].value;
      LeafIsListed(s, leaf, depth, path + [i], leaf.look);
      var next := Enter(s, leaf, depth, path + [i]);
      LeavesClashIff(next, node, i + 1, depth, path);
      var last := MakeRecord(leaf, |s.records|, path + [i]);
      assert forall r :: r in next.records <==> r in s.records || r == last;
    }
  }

  lemma {:induction false} RecordAtItsIndex(records: seq<Record>, index: nat)
    requires Numbered(records) && index < |records|
    ensures RecordByIndex(records, index) == Some(records[index])
  {
    var k := |records| - 1;
    if index < k {
      RecordAtItsIndex(records[..k], index);
    }
  }

  lemma FilterKeepsEnds<T(!new)>(first: seq<T>, middle: seq<T>, last: T, keep: T -> bool)
    requires (forall x :: x in first ==> keep(x)) && (forall x :: x in middle ==> !keep(x)) && keep(last)
    ensures Filter(first + middle + [last], keep) == first + [last]
  {
    FilterConcat(first + middle, [last], keep);
    FilterConcat(first, middle, keep);
    FilterAll(first, keep);
    FilterNone(middle, keep);
    FilterAll([last], keep);
  }

  // What is left of a tab bar at record `c`: the bar, a note, and the last tab.
  ghost predicate BarRendered(s: Rendering, r: Rendering, bar: Node, depth: nat, path: seq<nat>)
    requires IsTabBar(bar)
  {
    var (c, n) := (|s.records|, |bar.children|);
    && r.records == s.records + [MakeRecord(bar, c, path)] + [LeafRecord(bar, n - 1, c + n, path)]
    && r.lines == s.lines + [ElementLine(depth, c, bar.look, path)] + [OmittedLine(depth + 1, n - 1),
                             LeafLine(bar, n - 1, c + n, depth + 1, path)]
  }

  lemma TabBarIsRendered(s: Rendering, bar: Node, depth: nat, path: seq<nat>)
    requires IsTabBar(bar) && Numbered(s.records) && |s.records| + |bar.children| < MAX_NODES && depth < MAX_DEPTH
    ensures BarRendered(s, Walk(s, bar, depth, path, true), bar, depth, path)
    ensures NoClash(s, bar, depth, path)
  {
    var here := Enter(s, bar, depth, path);
    assert Numbered(here.records) && NextIsFree(s);
    TabsAreNumbered(here, bar, depth, path);
    BarSubtreeIsRendered(s, bar, depth, path, WalkChildren(here, bar, 0, depth + 1, path, true));
  }

  lemma TabsAreNumbered(here: Rendering, bar: Node, depth: nat, path: seq<nat>)
    requires IsTabBar(bar) && Numbered(here.records)
    requires |here.records| + |bar.children| <= MAX_NODES && depth < MAX_DEPTH
    ensures LeavesFrom(here, bar, 0, depth + 1)
    ensures var below := WalkChildren(here, bar, 0, depth + 1, path, true);
            ListsLeaves(here, below, bar, 0, depth + 1, path) && Numbered(below.records)
    ensures NoClashBelow(here, bar, 0, depth + 1, path)
  {
    LeavesAreListed(here, bar, 0, depth + 1, path);
    ChildrenStayNumbered(here, bar, 0, depth + 1, path);
  }

  lemma BarSubtreeIsRendered(s: Rendering, bar: Node, depth: nat, path: seq<nat>, below: Rendering)
    requires var here := Enter(s, bar, depth, path);
             && IsTabBar(bar) && LeavesFrom(here, bar, 0, depth + 1)
             && ListsLeaves(here, below, bar, 0, depth + 1, path) && Numbered(below.records)
    ensures BarRendered(s, Compact(below, |s.lines| + 1, depth + 1), bar, depth, path)
  {
    TabsAreCompacted(Enter(s, bar, depth, path), bar, depth, path, below);
  }

  // Inactive tabs are omitted, and the last one stays.
  lemma TabsAreCompacted(here: Rendering, bar: Node, depth: nat, path: seq<nat>, below: Rendering)
    requires IsTabBar(bar) && LeavesFrom(here, bar, 0, depth + 1)
    requires ListsLeaves(here, below, bar, 0, depth + 1, path) && Numbered(below.records)
    ensures var r, c, n := Compact(below, |here.lines|, depth + 1), |here.records|, |bar.children|;
            && r.records == here.records + [LeafRecord(bar, n - 1, c + n - 1, path)]
            && r.lines == here.lines + [OmittedLine(depth + 1, n - 1), LeafLine(bar, n - 1, c + n - 1, depth + 1, path)]
  {
    TabLinesAre(here, bar, depth, path, below);
    OneTabIsLeft(here.lines, below.lines[|here.lines|..], here.records, below, depth + 1);
    assert here.lines + below.lines[|here.lines|..] == below.lines;
  }

  lemma OneTabIsLeft(lines: seq<Line>, tail: seq<Line>, records: seq<Record>, below: Rendering, depth: nat)
    requires below.lines == lines + tail && AreTabs(tail, depth, below.records)
    requires records <= below.records && |below.records| == |records| + |tail| && Numbered(below.records)
    requires forall k :: 0 <= k < |tail| ==> tail[k].index == |records| + k
    ensures var r := Compact(below, |lines|, depth);
            && r.records == records + [below.records[|below.records| - 1]]
            && r.lines == lines + [OmittedLine(depth, |tail| - 1), tail[|tail| - 1]]
  {
    assert below.lines[..|lines|] == lines && below.lines[|lines|..] == tail;
    TabBarCompacts(tail, depth, below.records);
    TabRecords(below.records, |records|, tail, depth);
  }

  lemma TabLinesAre(here: Rendering, bar: Node, depth: nat, path: seq<nat>, below: Rendering)
    requires IsTabBar(bar) && LeavesFrom(here, bar, 0, depth + 1)
    requires ListsLeaves(here, below, bar, 0, depth + 1, path) && Numbered(below.records)
    ensures var tail := below.lines[|here.lines|..];
            && AreTabs(tail, depth + 1, below.records)
            && forall k :: 0 <= k < |tail| ==> tail[k] == LeafLine(bar, k, |here.records| + k, depth + 1, path)
  {
    var c, tail := |here.records|, below.lines[|here.lines|..];
    forall k | 0 <= k < |tail|
      ensures tail[k] == LeafLine(bar, k, c + k, depth + 1, path) && IsTabLine(tail[k], depth + 1)
      ensures IsOmitted(tail[k], depth + 1, below.records) <==> k < |tail| - 1
    {
      assert tail[k] == below.lines[|here.lines| + k];
      assert below.records[c + k] == LeafRecord(bar, k, c + k, path);
      assert IsLeaf(bar.children[k], Look(false, false, true, false, k == |tail| - 1));
      RecordAtItsIndex(below.records, c + k);
    }
  }

  // Tab lines of which the last is the active one.
  ghost predicate AreTabs(tail: seq<Line>, depth: nat, records: seq<Record>) {
    && |tail| >= MIN_COMPACTED_TABS
    && forall k :: 0 <= k < |tail| ==>
         IsTabLine(tail[k], depth) && (IsOmitted(tail[k], depth, records) <==> k < |tail| - 1)
  }

  lemma TabBarCompacts(tail: seq<Line>, depth: nat, records: seq<Record>)
    requires AreTabs(tail, depth, records)
    ensures Compacts(tail, depth, records)
    ensures CompactedLines(tail, depth, records) == [OmittedLine(depth, |tail| - 1), tail[|tail| - 1]]
  {
    LastTabIsKept(tail, depth, records);
    AllAreTabs(tail, depth, records);
    var kept := KeptLines(tail, depth, records);
    assert FirstTab(tail, depth) == 0 && tail[0..] == tail && tail[..0] == [];
    assert [] + [OmittedLine(depth, |tail| - |kept|)] + kept == [OmittedLine(depth, |tail| - 1), tail[|tail| - 1]];
  }

  lemma LastTabIsKept(tail: seq<Line>, depth: nat, records: seq<Record>)
    requires AreTabs(tail, depth, records)
    ensures KeptLines(tail, depth, records) == [tail[|tail| - 1]]
  {
    var front, last := tail[..|tail| - 1], tail[|tail| - 1];
    FilterKeepsEnds([], front, last, (line: Line) => !IsOmitted(line, depth, records));
    assert [] + front + [last] == tail;
  }

  lemma AllAreTabs(tail: seq<Line>, depth: nat, records: seq<Record>)
    requires AreTabs(tail, depth, records)
    ensures |TabLines(tail, depth)| == |tail| && ActiveTabLines(tail, depth, records) != []
  {
    FilterAll(tail, (line: Line) => IsTabLine(line, depth));
    assert tail[|tail| - 1] in TabLines(tail, depth);
    assert tail[|tail| - 1] in ActiveTabLines(tail, depth, records);
  }

  lemma TabRecords(records: seq<Record>, c: nat, tail: seq<Line>, depth: nat)
    requires Numbered(records) && |records| == c + |tail| && AreTabs(tail, depth, records)
    requires forall k :: 0 <= k < |tail| ==> tail[k].index == c + k
    ensures Filter(records, Survives(OmittedIndexes(tail, depth, records))) == records[..c] + [records[|records| - 1]]
  {
    var omitted := OmittedIndexes(tail, depth, records);
    forall k | 0 <= k < |records| ensures Survives(omitted)(records[k]) <==> k < c || k == |records| - 1 {
      OmittedIndexesAre(tail, depth, records, k);
      if c <= k { assert tail[k - c] in tail; }
    }
    assert records == records[..c] + records[c..|records| - 1] + [records[|records| - 1]];
    FilterKeepsEnds(records[..c], records[c..|records| - 1], records[|records| - 1], Survives(omitted));
  }

  /** On every tab bar whose last tab is the active one, numbers and positions differ. */
  lemma TabBarBreaksNumbering(bar: Node, path: seq<nat>)
    requires IsTabBar(bar) && |bar.children| < MAX_NODES
    ensures !Numbered(Render(bar, path, true).records)
  {
    TabBarIsRendered(EMPTY, bar, 0, path);
    assert Render(bar, path, true).records[1].index == |bar.children|;
  }

  /** A window that holds such a tab bar and after it plain leaves. */
  ghost predicate IsTabbedWindow(window: Node) {
    && !window.look.elided && !window.look.childrenSuppressed
    && window.children != [] && window.children[0].Some? && IsTabBar(window.children[0].value)
    && (forall i :: 1 <= i < |window.children| ==> IsLeaf(window.children[i], Look(false, false, false, false, false)))
    && |window.children[0].value.children| + |window.children| < MAX_NODES
  }

  // The rendering when the bar is done, and before the leaves.
  lemma BarInWindow(window: Node, path: seq<nat>) returns (s: Rendering)
    requires IsTabbedWindow(window)
    ensures var (bar, here) := (window.children[0].value, Enter(EMPTY, window, 0, path));
            && s == Walk(here, bar, 1, path + [0], true) && BarRendered(here, s, bar, 1, path + [0])
            && NoClash(here, bar, 1, path + [0])
    ensures LeavesFrom(s, window, 1, 1) && WindowRecords(s.records, window, path)
  {
    var (bar, here) := (window.children[0].value, Enter(EMPTY, window, 0, path));
    TabBarIsRendered(here, bar, 1, path + [0]);
    s := Walk(here, bar, 1, path + [0], true);
    RecordsOfBar(s, window, path);
  }

  // The window, the bar and its last tab.
  ghost predicate WindowRecords(records: seq<Record>, window: Node, path: seq<nat>)
    requires IsTabbedWindow(window)
  {
    var n := |window.children[0].value.children|;
    && |records| == 3 && records[0].index == 0 && records[1].index == 1
    && records[2].index == n + 1 && records[2].runtimeId == path + [0] + [n - 1]
  }

  lemma RecordsOfBar(s: Rendering, window: Node, path: seq<nat>)
    requires IsTabbedWindow(window)
    requires BarRendered(Enter(EMPTY, window, 0, path), s, window.children[0].value, 1, path + [0])
    ensures WindowRecords(s.records, window, path)
  {
  }

  /** In such a window every displayed number leads back exactly if there are fewer leaves than inactive tabs. */
  lemma TabbedWindowLeadsBackIff(window: Node, path: seq<nat>)
    requires IsTabbedWindow(window)
    ensures NumbersLeadBack(Render(window, path, true)) <==>
            |window.children| - 1 < |window.children[0].value.children| - 1
  {
    NumbersLeadBackIff(window, path);
    var s := BarInWindow(window, path);
    LeavesClashIff(s, window, 1, 1, path);
    ClashWithTheLastTab(s.records, |window.children[0].value.children|, |window.children| - 1);
    assert NextIsFree(EMPTY);
    assert NoClash(EMPTY, window, 0, path) <==> NoClashBelow(Enter(EMPTY, window, 0, path), window, 0, 1, path);
  }

  lemma ClashWithTheLastTab(records: seq<Record>, n: nat, leaves: nat)
    requires |records| == 3 && records[0].index == 0 && records[1].index == 1 && records[2].index == n + 1 && n > 1
    ensures (forall r :: r in records ==> !(3 <= r.index < 3 + leaves)) <==> leaves < n - 1
  {
    assert records[2] in records;
    assert forall r :: r in records ==> r == records[0] || r == records[1] || r == records[2];
  }

  /** With enough leaves, the number of the active tab is given again: it stands on the line of a leaf, and clicking
      that line reaches the tab. */
  lemma LeafReachesTheTab(window: Node, path: seq<nat>) returns (r: Rendering, n: nat)
    requires IsTabbedWindow(window) && |window.children| >= |window.children[0].value.children|
    ensures r == Render(window, path, true) && n == |window.children[0].value.children|
    ensures LeafLine(window, n - 1, n + 1, 1, path) in r.lines && |r.records| > n + 1
    ensures FirstWithIndex(r.records, n + 1) == Some(r.records[2])
    ensures r.records[2].runtimeId == path + [0] + [n - 1] != path + [n - 1]
    ensures r.records[n + 1] == LeafRecord(window, n - 1, n + 1, path)
  {
    n := |window.children[0].value.children|;
    var s;
    s, r := LeavesInWindow(window, path);
    LeafTakesTheNumber(window, path, s, r, n);
    assert |path + [0] + [n - 1]| != |path + [n - 1]|;
  }

  lemma LeavesInWindow(window: Node, path: seq<nat>) returns (s: Rendering, r: Rendering)
    requires IsTabbedWindow(window)
    ensures r == Render(window, path, true)
    ensures LeavesFrom(s, window, 1, 1) && WindowRecords(s.records, window, path)
    ensures ListsLeaves(s, r, window, 1, 1, path)
  {
    s := BarInWindow(window, path);
    LeavesAreListed(s, window, 1, 1, path);
    r := WalkChildren(s, window, 1, 1, path, true);
    NoTabsInWindow(window, path, s, r);
    WindowIsRendered(window, path, s, r);
  }

  lemma WindowIsRendered(window: Node, path: seq<nat>, s: Rendering, r: Rendering)
    requires IsTabbedWindow(window)
    requires s == Walk(Enter(EMPTY, window, 0, path), window.children[0].value, 1, path + [0], true)
    requires r == WalkChildren(s, window, 1, 1, path, true) && |r.lines| > 0 && Compact(r, 1, 1) == r
    ensures Render(window, path, true) == r
  {
    var here := Enter(EMPTY, window, 0, path);
    assert |here.lines| == 1;
    assert WalkChildren(here, window, 0, 1, path, true) == r;
  }

  lemma LeafTakesTheNumber(window: Node, path: seq<nat>, s: Rendering, r: Rendering, n: nat)
    requires IsTabbedWindow(window) && |window.children| >= n == |window.children[0].value.children|
    requires LeavesFrom(s, window, 1, 1) && WindowRecords(s.records, window, path)
    requires ListsLeaves(s, r, window, 1, 1, path)
    ensures LeafLine(window, n - 1, n + 1, 1, path) in r.lines && |r.records| > n + 1
    ensures FirstWithIndex(r.records, n + 1) == Some(r.records[2]) && r.records[2] == s.records[2]
    ensures r.records[n + 1] == LeafRecord(window, n - 1, n + 1, path)
  {
    assert r.lines[|s.lines| + n - 2] == LeafLine(window, n - 1, n + 1, 1, path);
    assert r.records[n + 1] == LeafRecord(window, n - 1, n + 1, path);
    assert forall k :: 0 <= k < 3 ==> r.records[k] == s.records[k];
    FirstIsOnly(r.records, 2);
  }

  lemma NoTabsInWindow(window: Node, path: seq<nat>, s: Rendering, below: Rendering)
    requires IsTabbedWindow(window) && LeavesFrom(s, window, 1, 1) && ListsLeaves(s, below, window, 1, 1, path)
    requires BarRendered(Enter(EMPTY, window, 0, path), s, window.children[0].value, 1, path + [0])
    ensures Compact(below, 1, 1) == below
  {
    forall k | 0 <= k < |below.lines| ensures !IsTabLine(below.lines[k], 1) {
      if k < |s.lines| { assert below.lines[k] == s.lines[k]; }
    }
    FilterNone(below.lines[1..], (line: Line) => IsTabLine(line, 1));
  }
}
