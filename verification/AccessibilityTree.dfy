/** Rendering of accessibility trees and resolution of saved elements: native/computer-use-linux/runtime.py. */
module AccessibilityTree {
  import opened Basics

  const MAX_NODES := 1200
  const MAX_DEPTH := 64
  const MIN_COMPACTED_TABS := 10

  datatype Signature = Signature(role: Text, name: Text, automationId: Text, actions: seq<Text>)

  /** What the content heuristics decide about a node: whether it is elided, whether its children are suppressed,
      whether its line reads as a browser tab, and whether the line or the record marks it as the active one. */
  datatype Look = Look(elided: bool, childrenSuppressed: bool, isTab: bool, lineSelected: bool, recordActive: bool)

  /** A child that cannot be fetched is None and keeps its index. */
  datatype Node = Node(signature: Signature, look: Look, children: seq<Option<Node>>)

  datatype Record = Record(index: nat, runtimeId: seq<nat>, signature: Signature, active: bool)

  /** The path of an element line is not displayed: it says which node the line was rendered for. */
  datatype Line = ElementLine(depth: nat, index: nat, look: Look, path: seq<nat>) | OmittedLine(depth: nat, count: nat)

  datatype Rendering = Rendering(records: seq<Record>, lines: seq<Line>, truncated: bool, maxDepthReached: bool)

  // ----------------------------------------------------------------------- resolution

  function FindByPath(app: Node, path: seq<nat>): Option<Node> {
    if path == [] then Some(app)
    else if path[0] < |app.children| && app.children[path[0]].Some?
      then FindByPath(app.children[path[0]].value, path[1..])
    else None
  }

  function FindElement(app: Node, saved: Record): Option<Node> {
    match FindByPath(app, saved.runtimeId)
    case None => None
    case Some(node) => if node.signature == saved.signature then Some(node) else None
  }

  function MakeRecord(node: Node, index: nat, path: seq<nat>): Record {
    Record(index, path, node.signature, node.look.recordActive)
  }

  // ----------------------------------------------------------------------- compaction

  predicate IsTabLine(line: Line, depth: nat) { line.ElementLine? && line.depth == depth && line.look.isTab }

  /** The last record with an index, as the dictionary built from the list keeps it. */
  function RecordByIndex(records: seq<Record>, index: nat): Option<Record> {
    if records == [] then None
    else if records[|records| - 1].index == index then Some(records[|records| - 1])
    else RecordByIndex(records[..|records| - 1], index)
  }

  lemma {:induction false} LastRecordWins(records: seq<Record>, index: nat, i: nat)
    requires i < |records| && records[i].index == index
    requires forall j :: i < j < |records| ==> records[j].index != index
    ensures RecordByIndex(records, index) == Some(records[i])
  {
    if i < |records| - 1 {
      LastRecordWins(records[..|records| - 1], index, i);
    }
  }

  predicate IsActiveTabLine(line: Line, records: seq<Record>) {
    line.ElementLine? &&
    (line.look.lineSelected ||
     (RecordByIndex(records, line.index).Some? && RecordByIndex(records, line.index).value.active))
  }

  predicate IsOmitted(line: Line, depth: nat, records: seq<Record>) {
    IsTabLine(line, depth) && !IsActiveTabLine(line, records)
  }

  function TabLines(lines: seq<Line>, depth: nat): seq<Line> { Filter(lines, (line: Line) => IsTabLine(line, depth)) }

  function KeptLines(lines: seq<Line>, depth: nat, records: seq<Record>): seq<Line> {
    Filter(lines, (line: Line) => !IsOmitted(line, depth, records))
  }

  function OmittedIndexes(lines: seq<Line>, depth: nat, records: seq<Record>): set<nat> {
    if lines == [] then {}
    else
      (if IsOmitted(lines[0], depth, records) then {lines[0].index} else {})
      + OmittedIndexes(lines[1..], depth, records)
  }

  function FirstTab(lines: seq<Line>, depth: nat): (i: nat)
    ensures i <= |lines| && (i < |lines| ==> IsTabLine(lines[i], depth))
    ensures forall j :: 0 <= j < i ==> !IsTabLine(lines[j], depth)
  {
    if lines == [] || IsTabLine(lines[0], depth) then 0 else 1 + FirstTab(lines[1..], depth)
  }

  function ActiveTabLines(lines: seq<Line>, depth: nat, records: seq<Record>): seq<Line> {
    Filter(TabLines(lines, depth), (line: Line) => IsActiveTabLine(line, records))
  }

  predicate Compacts(lines: seq<Line>, depth: nat, records: seq<Record>) {
    && |TabLines(lines, depth)| >= MIN_COMPACTED_TABS
    && ActiveTabLines(lines, depth, records) != []
    && |KeptLines(lines, depth, records)| < |lines|
  }

  ghost predicate ShowsTab(line: Line, depth: nat) { line.ElementLine? && line.depth == depth && line.look.isTab }

  /** The line says so, or the last record with its number does. */
  ghost predicate ShowsActive(line: Line, records: seq<Record>) {
    line.ElementLine? &&
    (line.look.lineSelected || exists i ::
       && 0 <= i < |records| && records[i].index == line.index && records[i].active
       && forall j :: i < j < |records| ==> records[j].index != line.index)
  }

  lemma {:induction false} LastRecordExists(records: seq<Record>, index: nat)
    ensures RecordByIndex(records, index).Some? ==> exists i ::
              && 0 <= i < |records| && records[i].index == index && records[i] == RecordByIndex(records, index).value
              && forall j :: i < j < |records| ==> records[j].index != index
  {
    if records != [] {
      var front := records[..|records| - 1];
      LastRecordExists(front, index);
      if records[|records| - 1].index != index && RecordByIndex(front, index).Some? {
        var i :| && 0 <= i < |front| && front[i].index == index && front[i] == RecordByIndex(front, index).value
                 && forall j :: i < j < |front| ==> front[j].index != index;
        assert records[i] == front[i];
        assert forall j :: i < j < |records| ==> records[j].index != index;
      }
    }
  }

  lemma ActiveIff(line: Line, records: seq<Record>)
    ensures IsActiveTabLine(line, records) <==> ShowsActive(line, records)
  {
    if line.ElementLine? {
      LastRecordExists(records, line.index);
      forall i | 0 <= i < |records| && records[i].index == line.index &&
                 (forall j :: i < j < |records| ==> records[j].index != line.index)
        ensures RecordByIndex(records, line.index) == Some(records[i])
      {
        LastRecordWins(records, line.index, i);
      }
    }
  }

  lemma {:induction false} FilterSame<T(!new)>(s: seq<T>, p: T -> bool, q: T -> bool)
    requires forall x :: x in s ==> p(x) == q(x)
    ensures Filter(s, p) == Filter(s, q)
    ensures |Filter(s, p)| < |s| <==> exists x :: x in s && !p(x)
  {
    if s != [] { FilterSame(s[1..], p, q); }
  }

  /** Lines are compacted exactly if at least ten of them are tabs of that depth, some active and some not. */
  lemma CompactsIff(lines: seq<Line>, depth: nat, records: seq<Record>)
    ensures Compacts(lines, depth, records) <==>
            && |Filter(lines, (line: Line) => ShowsTab(line, depth))| >= 10
            && (exists line :: line in lines && ShowsTab(line, depth) && ShowsActive(line, records))
            && (exists line :: line in lines && ShowsTab(line, depth) && !ShowsActive(line, records))
  {
    forall line ensures IsActiveTabLine(line, records) <==> ShowsActive(line, records) { ActiveIff(line, records); }
    FilterSame(lines, (line: Line) => IsTabLine(line, depth), (line: Line) => ShowsTab(line, depth));
    var keep := (line: Line) => !IsOmitted(line, depth, records);
    FilterSame(lines, keep, keep);
    var active := ActiveTabLines(lines, depth, records);
    assert active != [] ==> active[0] in active;
  }

  function Survives(omitted: set<nat>): Record -> bool { (r: Record) => r.index !in omitted }

  /** The first tab's place is taken by a note; inactive tabs go, and everything else stays in order. */
  function CompactedLines(lines: seq<Line>, depth: nat, records: seq<Record>): seq<Line> {
    var first := FirstTab(lines, depth);
    lines[..first] + [OmittedLine(depth, |lines| - |KeptLines(lines, depth, records)|)]
    + KeptLines(lines[first..], depth, records)
  }

  function Compact(s: Rendering, start: nat, depth: nat): Rendering
    requires start <= |s.lines|
  {
    var tail := s.lines[start..];
    if !Compacts(tail, depth, s.records) then s
    else
      var omitted := OmittedIndexes(tail, depth, s.records);
      s.(records := Filter(s.records, Survives(omitted)),
         lines := s.lines[..start] + CompactedLines(tail, depth, s.records))
  }

  // --------------------------------------------------------------------------- walking

  // One record and one line for a node that is not elided.
  function Enter(s: Rendering, node: Node, depth: nat, path: seq<nat>): Rendering {
    s.(records := s.records + [MakeRecord(node, |s.records|, path)],
       lines := s.lines + [ElementLine(depth, |s.records|, node.look, path)])
  }

  function Walk(s: Rendering, node: Node, depth: nat, path: seq<nat>, compactTabs: bool): (r: Rendering)
    ensures |r.lines| >= |s.lines|
    decreases node, |node.children| + 1
  {
    if |s.records| >= MAX_NODES || depth > MAX_DEPTH then
      s.(truncated := true, maxDepthReached := s.maxDepthReached || depth > MAX_DEPTH)
    else if node.look.elided then WalkChildren(s, node, 0, depth, path, compactTabs)
    else
      var here := Enter(s, node, depth, path);
      if node.look.childrenSuppressed then here
      else
        var below := WalkChildren(here, node, 0, depth + 1, path, compactTabs);
        if compactTabs then Compact(below, |here.lines|, depth + 1) else below
  }

  function WalkChildren(s: Rendering, node: Node, i: nat, depth: nat, path: seq<nat>, compactTabs: bool): (r: Rendering)
    requires i <= |node.children|
    ensures |r.lines| >= |s.lines|
    decreases node, |node.children| - i
  {
    if i == |node.children| then s
    else
      var child := node.children[i];
      var next := if child.Some? then Walk(s, child.value, depth, path + [i], compactTabs) else s;
      WalkChildren(next, node, i + 1, depth, path, compactTabs)
  }

  const EMPTY := Rendering([], [], false, false)

  function Render(root: Node, rootPath: seq<nat>, compactTabs: bool): Rendering {
    Walk(EMPTY, root, 0, rootPath, compactTabs)
  }

  lemma KeptFromFirstTab(lines: seq<Line>, depth: nat, records: seq<Record>)
    ensures var first := FirstTab(lines, depth);
            KeptLines(lines, depth, records) == lines[..first] + KeptLines(lines[first..], depth, records)
  {
    var first := FirstTab(lines, depth);
    var keep := (line: Line) => !IsOmitted(line, depth, records);
    assert lines == lines[..first] + lines[first..];
    FilterConcat(lines[..first], lines[first..], keep);
    FilterAll(lines[..first], keep);
  }

  // ----------------------------------------------------------- every record resolves

  /** The record describes the node it leads back to. */
  ghost predicate Resolves(app: Node, r: Record) {
    match FindElement(app, r)
    case None => false
    case Some(node) => r.signature == node.signature && r.active == node.look.recordActive
  }

  /** Following the indices of a path from the application leads to the node. */
  ghost predicate IsAt(app: Node, path: seq<nat>, node: Node) {
    if path == [] then app == node
    else path[0] < |app.children| && app.children[path[0]].Some? && IsAt(app.children[path[0]].value, path[1..], node)
  }

  lemma {:induction false} FindByPathIff(app: Node, path: seq<nat>, node: Node)
    ensures FindByPath(app, path) == Some(node) <==> IsAt(app, path, node)
  {
    if path != [] && path[0] < |app.children| && app.children[path[0]].Some? {
      FindByPathIff(app.children[path[0]].value, path[1..], node);
    }
  }

  /** A saved element is found exactly at the end of its path, and only if role, name, id and actions are unchanged. */
  lemma FoundIff(app: Node, saved: Record, node: Node)
    ensures FindElement(app, saved) == Some(node) <==>
            && IsAt(app, saved.runtimeId, node)
            && node.signature.role == saved.signature.role && node.signature.name == saved.signature.name
            && node.signature.automationId == saved.signature.automationId
            && node.signature.actions == saved.signature.actions
  {
    FindByPathIff(app, saved.runtimeId, node);
  }

  lemma {:induction false} FindByLongerPath(app: Node, path: seq<nat>, i: nat)
    requires FindByPath(app, path).Some?
    ensures FindByPath(app, path + [i]) ==
            var node := FindByPath(app, path).value;
            if i < |node.children| then node.children[i] else None
  {
    if path == [] {
      assert path + [i] == [i];
    } else {
      assert (path + [i])[1..] == path[1..] + [i];
      FindByLongerPath(app.children[path[0]].value, path[1..], i);
    }
  }

  lemma {:induction false} WalkResolves(app: Node, s: Rendering, node: Node, depth: nat, path: seq<nat>,
                                        compactTabs: bool)
    requires FindByPath(app, path) == Some(node)
    requires forall r :: r in s.records ==> Resolves(app, r)
    ensures forall r :: r in Walk(s, node, depth, path, compactTabs).records ==> Resolves(app, r)
    decreases node, |node.children| + 1
  {
    if |s.records| >= MAX_NODES || depth > MAX_DEPTH {
    } else if node.look.elided {
      ChildrenResolve(app, s, node, 0, depth, path, compactTabs);
    } else {
      var here := Enter(s, node, depth, path);
      assert Resolves(app, MakeRecord(node, |s.records|, path));
      if !node.look.childrenSuppressed {
        ChildrenResolve(app, here, node, 0, depth + 1, path, compactTabs);
      }
    }
  }

  lemma {:induction false} ChildrenResolve(app: Node, s: Rendering, node: Node, i: nat, depth: nat, path: seq<nat>,
                                           compactTabs: bool)
    requires i <= |node.children| && FindByPath(app, path) == Some(node)
    requires forall r :: r in s.records ==> Resolves(app, r)
    ensures forall r :: r in WalkChildren(s, node, i, depth, path, compactTabs).records ==> Resolves(app, r)
    decreases node, |node.children| - i
  {
    if i < |node.children| {
      var child := node.children[i];
      FindByLongerPath(app, path, i);
      if child.Some? {
        WalkResolves(app, s, child.value, depth, path + [i], compactTabs);
      }
      var next := if child.Some? then Walk(s, child.value, depth, path + [i], compactTabs) else s;
      ChildrenResolve(app, next, node, i + 1, depth, path, compactTabs);
    }
  }

  /** On an unchanged tree every rendered record, compacted or not, resolves to the node it was taken from. */
  lemma RenderedRecordsResolve(app: Node, window: Node, rootPath: seq<nat>, compactTabs: bool, r: Record)
    requires FindByPath(app, rootPath) == Some(window) && r in Render(window, rootPath, compactTabs).records
    ensures Resolves(app, r)
  {
    WalkResolves(app, EMPTY, window, 0, rootPath, compactTabs);
  }

  // ------------------------------------------------------------------------- bounds

  ghost predicate Bounded(s: Rendering) {
    |s.records| <= MAX_NODES && forall line :: line in s.lines ==> line.depth <= MAX_DEPTH
  }

  lemma CompactedLinesBounded(lines: seq<Line>, depth: nat, records: seq<Record>, most: nat)
    requires depth <= most && forall line :: line in lines ==> line.depth <= most
    ensures forall line :: line in CompactedLines(lines, depth, records) ==> line.depth <= most
  {
    var first := FirstTab(lines, depth);
    assert forall line :: line in lines[..first] ==> line in lines;
    assert forall line :: line in KeptLines(lines[first..], depth, records) ==> line in lines[first..] && line in lines;
  }

  lemma CompactKeepsBounds(s: Rendering, start: nat, depth: nat)
    requires start <= |s.lines| && Bounded(s)
    ensures Bounded(Compact(s, start, depth))
  {
    var tail := s.lines[start..];
    if Compacts(tail, depth, s.records) {
      var tab := TabLines(tail, depth)[0];
      assert tab in TabLines(tail, depth) && tab in tail && tab in s.lines;
      assert forall line :: line in tail ==> line in s.lines;
      CompactedLinesBounded(tail, depth, s.records, MAX_DEPTH);
    }
  }

  lemma EnterKeepsBounds(s: Rendering, node: Node, depth: nat, path: seq<nat>)
    requires Bounded(s) && |s.records| < MAX_NODES && depth <= MAX_DEPTH
    ensures Bounded(Enter(s, node, depth, path))
  {
  }

  lemma {:induction false} WalkKeepsBounds(s: Rendering, node: Node, depth: nat, path: seq<nat>, compactTabs: bool)
    requires Bounded(s)
    ensures Bounded(Walk(s, node, depth, path, compactTabs))
    decreases node, |node.children| + 1
  {
    if |s.records| >= MAX_NODES || depth > MAX_DEPTH {
    } else if node.look.elided {
      ChildrenKeepBounds(s, node, 0, depth, path, compactTabs);
    } else {
      var here := Enter(s, node, depth, path);
      EnterKeepsBounds(s, node, depth, path);
      if !node.look.childrenSuppressed {
        ChildrenKeepBounds(here, node, 0, depth + 1, path, compactTabs);
        var below := WalkChildren(here, node, 0, depth + 1, path, compactTabs);
        CompactKeepsBounds(below, |here.lines|, depth + 1);
      }
    }
  }

  lemma {:induction false} ChildrenKeepBounds(s: Rendering, node: Node, i: nat, depth: nat, path: seq<nat>,
                                              compactTabs: bool)
    requires i <= |node.children| && Bounded(s)
    ensures Bounded(WalkChildren(s, node, i, depth, path, compactTabs))
    decreases node, |node.children| - i
  {
    if i < |node.children| {
      var child := node.children[i];
      if child.Some? {
        WalkKeepsBounds(s, child.value, depth, path + [i], compactTabs);
      }
      var next := if child.Some? then Walk(s, child.value, depth, path + [i], compactTabs) else s;
      ChildrenKeepBounds(next, node, i + 1, depth, path, compactTabs);
    }
  }

  /** At most 1200 records, and no line nests deeper than 64. */
  lemma RenderIsBounded(root: Node, rootPath: seq<nat>, compactTabs: bool)
    ensures |Render(root, rootPath, compactTabs).records| <= 1200
    ensures forall line :: line in Render(root, rootPath, compactTabs).lines ==> line.depth <= 64
  {
    WalkKeepsBounds(EMPTY, root, 0, rootPath, compactTabs);
  }

  // -------------------------------------------- without compaction: a prefix of the preorder

  datatype Visit = Visit(node: Node, depth: nat, path: seq<nat>)

  /** The nodes of a subtree in preorder, without elided ones and what suppressed ones hide; maybe limited in depth. */
  function Preorder(node: Node, depth: nat, path: seq<nat>, limited: bool): seq<Visit>
    decreases node, |node.children| + 1
  {
    if limited && depth > 64 then []
    else if node.look.elided then PreorderBelow(node, 0, depth, path, limited)
    else
      [Visit(node, depth, path)] +
      if node.look.childrenSuppressed then [] else PreorderBelow(node, 0, depth + 1, path, limited)
  }

  function PreorderBelow(node: Node, i: nat, depth: nat, path: seq<nat>, limited: bool): seq<Visit>
    requires i <= |node.children|
    decreases node, |node.children| - i
  {
    if i == |node.children| then []
    else
      (if node.children[i].Some? then Preorder(node.children[i].value, depth, path + [i], limited) else [])
      + PreorderBelow(node, i + 1, depth, path, limited)
  }

  function Capped(visits: seq<Visit>): seq<Visit> { visits[..Min(|visits|, 1200)] }

  /** The rendering lists these visits, numbered from zero, one record and one line each. */
  ghost predicate Lists(s: Rendering, visits: seq<Visit>) {
    && |s.records| == |s.lines| == |visits|
    && forall k :: 0 <= k < |visits| ==>
         && s.records[k] == Record(k, visits[k].path, visits[k].node.signature, visits[k].node.look.recordActive)
         && s.lines[k] == ElementLine(visits[k].depth, k, visits[k].node.look, visits[k].path)
  }

  lemma CappedTwice(a: seq<Visit>, b: seq<Visit>, c: seq<Visit>)
    ensures Capped(Capped(a + b) + c) == Capped(a + (b + c))
  {
    assert a + (b + c) == (a + b) + c;
  }

  lemma {:induction false} WalkListsPreorder(s: Rendering, visits: seq<Visit>, node: Node, depth: nat, path: seq<nat>)
    requires Lists(s, visits) && |visits| <= MAX_NODES
    ensures Lists(Walk(s, node, depth, path, false), Capped(visits + Preorder(node, depth, path, true)))
    decreases node, |node.children| + 1
  {
    if |s.records| >= MAX_NODES || depth > MAX_DEPTH {
      assert Capped(visits + Preorder(node, depth, path, true)) == visits;
    } else if node.look.elided {
      ChildrenListPreorder(s, visits, node, 0, depth, path);
    } else {
      var here := Enter(s, node, depth, path);
      var first := [Visit(node, depth, path)];
      assert Lists(here, visits + first);
      if node.look.childrenSuppressed {
        assert visits + (first + []) == visits + first;
      } else {
        ChildrenListPreorder(here, visits + first, node, 0, depth + 1, path);
        var below := PreorderBelow(node, 0, depth + 1, path, true);
        assert (visits + first) + below == visits + (first + below);
      }
    }
  }

  lemma {:induction false} ChildrenListPreorder(s: Rendering, visits: seq<Visit>, node: Node, i: nat, depth: nat,
                                                path: seq<nat>)
    requires i <= |node.children| && Lists(s, visits) && |visits| <= MAX_NODES
    ensures Lists(WalkChildren(s, node, i, depth, path, false),
                  Capped(visits + PreorderBelow(node, i, depth, path, true)))
    decreases node, |node.children| - i
  {
    if i == |node.children| {
      assert Capped(visits + []) == visits;
    } else {
      var child := node.children[i];
      var rest := PreorderBelow(node, i + 1, depth, path, true);
      if child.Some? {
        var visited := Preorder(child.value, depth, path + [i], true);
        WalkListsPreorder(s, visits, child.value, depth, path + [i]);
        ChildrenListPreorder(Walk(s, child.value, depth, path + [i], false), Capped(visits + visited),
                             node, i + 1, depth, path);
        CappedTwice(visits, visited, rest);
      } else {
        ChildrenListPreorder(s, visits, node, i + 1, depth, path);
        assert [] + rest == rest;
      }
    }
  }

  /** Without compaction the rendering is the first 1200 nodes of the depth-limited preorder: one line per record,
      and every record's index is its position. */
  lemma RenderIsPreorderPrefix(root: Node, rootPath: seq<nat>)
    ensures Lists(Render(root, rootPath, false), Capped(Preorder(root, 0, rootPath, true)))
  {
    WalkListsPreorder(EMPTY, [], root, 0, rootPath);
    assert [] + Preorder(root, 0, rootPath, true) == Preorder(root, 0, rootPath, true);
  }

  // -------------------------------------------------- not truncated means nothing is missing

  lemma {:induction false} UntruncatedWalk(s: Rendering, node: Node, depth: nat, path: seq<nat>)
    requires Bounded(s) && !Walk(s, node, depth, path, false).truncated
    ensures !s.truncated && Preorder(node, depth, path, true) == Preorder(node, depth, path, false)
    ensures |Walk(s, node, depth, path, false).records| == |s.records| + |Preorder(node, depth, path, true)|
    decreases node, |node.children| + 1
  {
    if |s.records| >= MAX_NODES || depth > MAX_DEPTH {
    } else if node.look.elided {
      UntruncatedChildren(s, node, 0, depth, path);
    } else {
      var here := Enter(s, node, depth, path);
      if !node.look.childrenSuppressed {
        UntruncatedChildren(here, node, 0, depth + 1, path);
      }
    }
  }

  lemma {:induction false} UntruncatedChildren(s: Rendering, node: Node, i: nat, depth: nat, path: seq<nat>)
    requires i <= |node.children| && Bounded(s) && !WalkChildren(s, node, i, depth, path, false).truncated
    ensures !s.truncated && PreorderBelow(node, i, depth, path, true) == PreorderBelow(node, i, depth, path, false)
    ensures |WalkChildren(s, node, i, depth, path, false).records| ==
            |s.records| + |PreorderBelow(node, i, depth, path, true)|
    decreases node, |node.children| - i
  {
    if i < |node.children| {
      var child := node.children[i];
      var next := if child.Some? then Walk(s, child.value, depth, path + [i], false) else s;
      if child.Some? {
        WalkKeepsBounds(s, child.value, depth, path + [i], false);
      }
      UntruncatedChildren(next, node, i + 1, depth, path);
      if child.Some? {
        UntruncatedWalk(s, child.value, depth, path + [i]);
      }
    }
  }

  /** If the truncation flag is off, the whole tree was rendered, however deep. */
  lemma UntruncatedIsComplete(root: Node, rootPath: seq<nat>)
    requires !Render(root, rootPath, false).truncated
    ensures Lists(Render(root, rootPath, false), Preorder(root, 0, rootPath, false))
  {
    RenderIsPreorderPrefix(root, rootPath);
    UntruncatedWalk(EMPTY, root, 0, rootPath);
  }

  // ---------------------------------------------------------------- when the flag is on

  /** Every node of the subtree in preorder, elided ones included, except what suppressed ones hide. */
  function Reached(node: Node, depth: nat, path: seq<nat>): seq<Visit>
    decreases node, |node.children| + 1
  {
    [Visit(node, depth, path)] +
    if node.look.elided then ReachedBelow(node, 0, depth, path)
    else if node.look.childrenSuppressed then []
    else ReachedBelow(node, 0, depth + 1, path)
  }

  function ReachedBelow(node: Node, i: nat, depth: nat, path: seq<nat>): seq<Visit>
    requires i <= |node.children|
    decreases node, |node.children| - i
  {
    if i == |node.children| then []
    else
      (if node.children[i].Some? then Reached(node.children[i].value, depth, path + [i]) else [])
      + ReachedBelow(node, i + 1, depth, path)
  }

  function OneIfKept(visit: Visit): nat { if visit.node.look.elided then 0 else 1 }

  /** How many of the nodes get a line. */
  function Kept(visits: seq<Visit>): nat { if visits == [] then 0 else OneIfKept(visits[0]) + Kept(visits[1..]) }

  /** After `count` lines, some node is deeper than 64, or comes when there are 1200 lines already. */
  ghost predicate Overflows(count: nat, visits: seq<Visit>)
    decreases |visits|
  {
    visits != [] &&
    (visits[0].depth > 64 || count >= 1200 || Overflows(count + OneIfKept(visits[0]), visits[1..]))
  }

  lemma {:induction false} OverflowsEither(count: nat, a: seq<Visit>, b: seq<Visit>)
    ensures Kept(a + b) == Kept(a) + Kept(b)
    ensures Overflows(count, a + b) <==> Overflows(count, a) || Overflows(count + Kept(a), b)
    decreases |a|
  {
    if a == [] {
      assert a + b == b;
    } else {
      assert (a + b)[1..] == a[1..] + b;
      OverflowsEither(count + OneIfKept(a[0]), a[1..], b);
    }
  }

  lemma OverflowsFirst(count: nat, first: Visit, rest: seq<Visit>)
    ensures Kept([first] + rest) == OneIfKept(first) + Kept(rest)
    ensures Overflows(count, [first] + rest) <==>
            first.depth > 64 || count >= 1200 || Overflows(count + OneIfKept(first), rest)
  {
    assert ([first] + rest)[1..] == rest;
  }

  /** From `s` to `t` these nodes were reached, and they alone decide about the flag. */
  ghost predicate TruncatesIff(s: Rendering, t: Rendering, reached: seq<Visit>) {
    && (t.truncated <==> s.truncated || Overflows(|s.records|, reached))
    && (!Overflows(|s.records|, reached) ==> |t.records| == |s.records| + Kept(reached))
  }

  lemma TruncatesOn(s: Rendering, t: Rendering, u: Rendering, a: seq<Visit>, b: seq<Visit>)
    requires TruncatesIff(s, t, a) && TruncatesIff(t, u, b)
    ensures TruncatesIff(s, u, a + b)
  {
    OverflowsEither(|s.records|, a, b);
  }

  lemma {:induction false} WalkTruncatesIff(s: Rendering, node: Node, depth: nat, path: seq<nat>)
    ensures TruncatesIff(s, Walk(s, node, depth, path, false), Reached(node, depth, path))
    decreases node, |node.children| + 1
  {
    var first := Visit(node, depth, path);
    if node.look.elided {
      OverflowsFirst(|s.records|, first, ReachedBelow(node, 0, depth, path));
      ChildrenTruncateIff(s, node, 0, depth, path);
    } else if node.look.childrenSuppressed {
      OverflowsFirst(|s.records|, first, []);
    } else {
      OverflowsFirst(|s.records|, first, ReachedBelow(node, 0, depth + 1, path));
      ChildrenTruncateIff(Enter(s, node, depth, path), node, 0, depth + 1, path);
    }
  }

  lemma {:induction false} ChildrenTruncateIff(s: Rendering, node: Node, i: nat, depth: nat, path: seq<nat>)
    requires i <= |node.children|
    ensures TruncatesIff(s, WalkChildren(s, node, i, depth, path, false), ReachedBelow(node, i, depth, path))
    decreases node, |node.children| - i
  {
    if i < |node.children| {
      var rest := ReachedBelow(node, i + 1, depth, path);
      match node.children[i]
      case None =>
        assert [] + rest == rest;
        ChildrenTruncateIff(s, node, i + 1, depth, path);
      case Some(child) =>
        var next := Walk(s, child, depth, path + [i], false);
        WalkTruncatesIff(s, child, depth, path + [i]);
        ChildrenTruncateIff(next, node, i + 1, depth, path);
        TruncatesOn(s, next, WalkChildren(next, node, i + 1, depth, path, false), Reached(child, depth, path + [i]),
                    rest);
    }
  }

  /** The flag is on exactly if a node is reached that is deeper than 64 or comes after 1200 lines; an elided one
      counts, so that the flag can be on with nothing missing. */
  lemma TruncatedIff(root: Node, rootPath: seq<nat>)
    ensures Render(root, rootPath, false).truncated <==> Overflows(0, Reached(root, 0, rootPath))
  {
    WalkTruncatesIff(EMPTY, root, 0, rootPath);
  }

  ghost predicate AnyDeep(visits: seq<Visit>) { exists v :: v in visits && v.depth > 64 }

  /** The depth flag never stands alone, and is on as well whenever there was room for more lines. */
  ghost predicate FlagsAgree(s: Rendering) {
    && (s.maxDepthReached ==> s.truncated)
    && (s.truncated && |s.records| < 1200 ==> s.maxDepthReached)
  }

  ghost predicate FlagsFollow(s: Rendering, t: Rendering, reached: seq<Visit>) {
    FlagsAgree(t) && |t.records| >= |s.records| && (t.maxDepthReached ==> s.maxDepthReached || AnyDeep(reached))
  }

  lemma FlagsOn(s: Rendering, t: Rendering, u: Rendering, a: seq<Visit>, b: seq<Visit>)
    requires FlagsFollow(s, t, a) && FlagsFollow(t, u, b)
    ensures FlagsFollow(s, u, a + b)
  {
    assert forall v :: v in a || v in b ==> v in a + b;
  }

  lemma {:induction false} WalkFlags(s: Rendering, node: Node, depth: nat, path: seq<nat>)
    requires FlagsAgree(s)
    ensures FlagsFollow(s, Walk(s, node, depth, path, false), Reached(node, depth, path))
    decreases node, |node.children| + 1
  {
    var first := Visit(node, depth, path);
    assert first in Reached(node, depth, path);
    if |s.records| >= MAX_NODES || depth > MAX_DEPTH {
    } else if node.look.elided {
      ChildrenFlags(s, node, 0, depth, path);
      FlagsOn(s, s, Walk(s, node, depth, path, false), [first], ReachedBelow(node, 0, depth, path));
    } else if !node.look.childrenSuppressed {
      var here := Enter(s, node, depth, path);
      ChildrenFlags(here, node, 0, depth + 1, path);
      FlagsOn(s, here, Walk(s, node, depth, path, false), [first], ReachedBelow(node, 0, depth + 1, path));
    }
  }

  lemma {:induction false} ChildrenFlags(s: Rendering, node: Node, i: nat, depth: nat, path: seq<nat>)
    requires i <= |node.children| && FlagsAgree(s)
    ensures FlagsFollow(s, WalkChildren(s, node, i, depth, path, false), ReachedBelow(node, i, depth, path))
    decreases node, |node.children| - i
  {
    if i < |node.children| {
      var rest := ReachedBelow(node, i + 1, depth, path);
      match node.children[i]
      case None =>
        assert [] + rest == rest;
        ChildrenFlags(s, node, i + 1, depth, path);
      case Some(child) =>
        var next := Walk(s, child, depth, path + [i], false);
        WalkFlags(s, child, depth, path + [i]);
        ChildrenFlags(next, node, i + 1, depth, path);
        FlagsOn(s, next, WalkChildren(next, node, i + 1, depth, path, false), Reached(child, depth, path + [i]), rest);
    }
  }

  /** The depth flag is on only if some node is deeper than 64; with fewer than 1200 lines it is the truncation flag. */
  lemma DepthFlag(root: Node, rootPath: seq<nat>)
    ensures var r := Render(root, rootPath, false);
            && (r.maxDepthReached ==> r.truncated && AnyDeep(Reached(root, 0, rootPath)))
            && (|r.records| < 1200 ==> r.maxDepthReached == r.truncated)
  {
    WalkFlags(EMPTY, root, 0, rootPath);
  }
}
