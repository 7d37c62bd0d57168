/** The renderer of native/computer-use-linux/runtime.py: the lists that `walk` appends to and
    `compact_rendered_browser_tabs` edits in place. */
module TreeRenderer {
  import opened Basics
  import opened AccessibilityTree
  import opened ElementNumbers

  ghost predicate Sound(app: Node, s: Rendering) { Bounded(s) && forall r :: r in s.records ==> Resolves(app, r) }

  lemma EnterIsSound(app: Node, s: Rendering, node: Node, depth: nat, path: seq<nat>)
    requires Sound(app, s) && FindByPath(app, path) == Some(node) && |s.records| < MAX_NODES && depth <= MAX_DEPTH
    ensures Sound(app, Enter(s, node, depth, path))
  {
    assert Resolves(app, MakeRecord(node, |s.records|, path));
  }

  lemma WalkIsSound(app: Node, s: Rendering, node: Node, depth: nat, path: seq<nat>, compactTabs: bool)
    requires Sound(app, s) && FindByPath(app, path) == Some(node)
    ensures var r := Walk(s, node, depth, path, compactTabs);
            Sound(app, r) && (compactTabs ==> s.lines <= r.lines)
  {
    WalkResolves(app, s, node, depth, path, compactTabs);
    WalkKeepsBounds(s, node, depth, path, compactTabs);
    WalkAppends(s, node, depth, path);
  }

  class Renderer {
    var records: seq<Record>
    var lines: seq<Line>
    var truncated: bool
    var maxDepthReached: bool
    ghost const app: Node

    ghost function View(): Rendering
      reads this
    {
      Rendering(records, lines, truncated, maxDepthReached)
    }

    /** At every moment the lists are within their bounds, and every record leads back to the node it was taken from. */
    ghost predicate Valid()
      reads this
    {
      Sound(app, View())
    }

    constructor (ghost app: Node)
      ensures Valid() && View() == EMPTY && this.app == app
    {
      this.app := app;
      records, lines, truncated, maxDepthReached := [], [], false, false;
    }

    /** Walking a node of the tree keeps the bounds, adds only records that resolve, and leaves the lines before it. */
    method WalkNode(node: Node, depth: nat, path: seq<nat>, compactTabs: bool)
      requires Valid() && FindByPath(app, path) == Some(node)
      modifies this
      ensures Valid() && View() == Walk(old(View()), node, depth, path, compactTabs)
      ensures compactTabs ==> old(lines) <= lines
      decreases node, |node.children| + 2
    {
      WalkIsSound(app, View(), node, depth, path, compactTabs);
      if |records| >= MAX_NODES || depth > MAX_DEPTH {
        truncated := true;
        if depth > MAX_DEPTH { maxDepthReached := true; }
      } else if node.look.elided {
        WalkBelow(node, depth, path, compactTabs);
      } else {
        WalkElement(node, depth, path, compactTabs);
      }
    }

    // A node that is listed, and what is below it.
    method WalkElement(node: Node, depth: nat, path: seq<nat>, compactTabs: bool)
      requires Valid() && FindByPath(app, path) == Some(node)
      requires |records| < MAX_NODES && depth <= MAX_DEPTH && !node.look.elided
      modifies this
      ensures View() == Walk(old(View()), node, depth, path, compactTabs)
      decreases node, |node.children| + 1
    {
      AppendElement(node, depth, path);
      if node.look.childrenSuppressed { return; }
      var childLineStart := |lines|;
      WalkBelow(node, depth + 1, path, compactTabs);
      if compactTabs {
        CompactRenderedBrowserTabs(childLineStart, depth + 1);
      }
    }

    method AppendElement(node: Node, depth: nat, path: seq<nat>)
      requires Valid() && FindByPath(app, path) == Some(node) && |records| < MAX_NODES && depth <= MAX_DEPTH
      modifies this`records, this`lines
      ensures Valid() && View() == Enter(old(View()), node, depth, path)
    {
      EnterIsSound(app, View(), node, depth, path);
      var item := MakeRecord(node, |records|, path);
      records := records + [item];
      lines := lines + [ElementLine(depth, item.index, node.look, path)];
    }

    method WalkBelow(node: Node, depth: nat, path: seq<nat>, compactTabs: bool)
      requires Valid() && FindByPath(app, path) == Some(node)
      modifies this
      ensures Valid() && View() == WalkChildren(old(View()), node, 0, depth, path, compactTabs)
      decreases node, |node.children|
    {
      for i := 0 to |node.children|
        invariant Valid() && WalkChildren(View(), node, i, depth, path, compactTabs)
                          == WalkChildren(old(View()), node, 0, depth, path, compactTabs)
      {
        var child := node.children[i];
        if child.Some? {
          FindByLongerPath(app, path, i);
          WalkNode(child.value, depth, path + [i], compactTabs);
        }
      }
    }

    method CompactRenderedBrowserTabs(startLine: nat, depth: nat)
      requires startLine <= |lines|
      modifies this`records, this`lines
      ensures View() == Compact(old(View()), startLine, depth)
    {
      ghost var s := View();
      var tail := lines[startLine..];
      if |TabLines(tail, depth)| < MIN_COMPACTED_TABS || ActiveTabLines(tail, depth, records) == [] {
        NothingToCompact(s, startLine, depth);
        return;
      }
      var omitted, omittedCount := DeleteInactiveTabs(startLine, depth);
      CompactBySweeping(s, startLine, depth, lines, omitted, omittedCount);
      if omittedCount == 0 { return; }
      var insertion := startLine + FirstTab(tail, depth);
      records := Filter(records, Survives(omitted));
      lines := lines[..insertion] + [OmittedLine(depth, omittedCount)] + lines[insertion..];
    }

    // The reversed loop that deletes the lines of inactive tabs.
    method DeleteInactiveTabs(startLine: nat, depth: nat) returns (omitted: set<nat>, omittedCount: nat)
      requires startLine <= |lines|
      modifies this`lines
      ensures Swept(lines, old(lines), startLine, depth, records, omitted, omittedCount)
    {
      ghost var all := lines;
      omitted, omittedCount := {}, 0;
      assert all[..|all|] == all && all[|all|..] == [];
      for k := |lines| downto startLine
        invariant k <= |all| && Swept(lines, all, k, depth, records, omitted, omittedCount)
      {
        SweepStep(lines, all, k, depth, records, omitted, omittedCount);
        if IsOmitted(lines[k], depth, records) {
          omitted := omitted + {lines[k].index};
          lines := lines[..k] + lines[k + 1..];
          omittedCount := omittedCount + 1;
        }
      }
    }
  }

  /** The lines of `all` from `k` on have been rid of the inactive tabs. */
  ghost predicate Swept(lines: seq<Line>, all: seq<Line>, k: nat, depth: nat, records: seq<Record>, omitted: set<nat>,
                        count: nat)
    requires k <= |all|
  {
    && lines == all[..k] + KeptLines(all[k..], depth, records)
    && count == |all[k..]| - |KeptLines(all[k..], depth, records)|
    && omitted == OmittedIndexes(all[k..], depth, records)
  }

  lemma SweepStep(lines: seq<Line>, all: seq<Line>, k: nat, depth: nat, records: seq<Record>, omitted: set<nat>,
                  count: nat)
    requires k < |all| && Swept(lines, all, k + 1, depth, records, omitted, count)
    ensures |lines| > k && lines[k] == all[k]
    ensures if IsOmitted(all[k], depth, records)
            then Swept(lines[..k] + lines[k + 1..], all, k, depth, records, omitted + {all[k].index}, count + 1)
            else Swept(lines, all, k, depth, records, omitted, count)
  {
    var kept := KeptLines(all[k + 1..], depth, records);
    assert all[k..][1..] == all[k + 1..] && all[k..][0] == all[k];
    assert all[..k + 1] == all[..k] + [all[k]];
    assert lines == all[..k] + ([all[k]] + kept);
    assert lines[..k] == all[..k] && lines[k + 1..] == kept;
  }

  lemma NothingToCompact(s: Rendering, startLine: nat, depth: nat)
    requires startLine <= |s.lines|
    requires |TabLines(s.lines[startLine..], depth)| < MIN_COMPACTED_TABS ||
             ActiveTabLines(s.lines[startLine..], depth, s.records) == []
    ensures Compact(s, startLine, depth) == s
  {
  }

  lemma CompactBySweeping(s: Rendering, startLine: nat, depth: nat, swept: seq<Line>, omitted: set<nat>, count: nat)
    requires startLine <= |s.lines| && Swept(swept, s.lines, startLine, depth, s.records, omitted, count)
    requires |TabLines(s.lines[startLine..], depth)| >= MIN_COMPACTED_TABS
    requires ActiveTabLines(s.lines[startLine..], depth, s.records) != []
    ensures count == 0 ==> swept == s.lines && Compact(s, startLine, depth) == s
    ensures var insertion := startLine + FirstTab(s.lines[startLine..], depth);
            count > 0 ==>
              && insertion <= |swept|
              && Compact(s, startLine, depth) ==
                 s.(records := Filter(s.records, Survives(omitted)),
                    lines := swept[..insertion] + [OmittedLine(depth, count)] + swept[insertion..])
  {
    if count > 0 {
      InsertedNote(s.lines, startLine, depth, s.records);
    } else {
      AllKept(s.lines[startLine..], depth, s.records);
      assert s.lines[..startLine] + s.lines[startLine..] == s.lines;
    }
  }

  lemma InsertedNote(all: seq<Line>, startLine: nat, depth: nat, records: seq<Record>)
    requires startLine <= |all|
    ensures var tail := all[startLine..];
            var (lines, insertion) :=
                (all[..startLine] + KeptLines(tail, depth, records), startLine + FirstTab(tail, depth));
            var note := OmittedLine(depth, |tail| - |KeptLines(tail, depth, records)|);
            && insertion <= |lines|
            && lines[..insertion] + [note] + lines[insertion..] ==
               all[..startLine] + CompactedLines(tail, depth, records)
  {
    var tail := all[startLine..];
    KeptFromFirstTab(tail, depth, records);
    var first := FirstTab(tail, depth);
    InsertBetween(all[..startLine], tail[..first], OmittedLine(depth, |tail| - |KeptLines(tail, depth, records)|),
                  KeptLines(tail[first..], depth, records));
  }

  lemma InsertBetween<T>(a: seq<T>, b: seq<T>, x: T, c: seq<T>)
    ensures var s := a + (b + c);
            s[..|a| + |b|] + [x] + s[|a| + |b|..] == a + (b + [x] + c)
  {
    assert (a + (b + c))[..|a| + |b|] == a + b;
    assert (a + (b + c))[|a| + |b|..] == c;
  }

  lemma {:induction false} AllKept(lines: seq<Line>, depth: nat, records: seq<Record>)
    requires |KeptLines(lines, depth, records)| == |lines|
    ensures KeptLines(lines, depth, records) == lines
  {
    if lines != [] {
      AllKept(lines[1..], depth, records);
    }
  }

  /** The rendering of a window: within its bounds, each record leading back to its node on the unchanged tree. Without
      compaction it is the capped preorder; with it, numbers lead back exactly if the walk does not clash, and are
      positions as well exactly if every compaction omits the last of the records there are. */
  method RenderAccessibilityTree(ghost app: Node, root: Node, rootPath: seq<nat>, compactTabs: bool)
    returns (r: Rendering)
    requires FindByPath(app, rootPath) == Some(root)
    ensures |r.records| <= 1200 && forall line :: line in r.lines ==> line.depth <= 64
    ensures forall record :: record in r.records ==> Resolves(app, record)
    ensures !compactTabs ==> Lists(r, Capped(Preorder(root, 0, rootPath, true))) && NumbersLeadBack(r)
    ensures !compactTabs ==> (r.truncated <==> Overflows(0, Reached(root, 0, rootPath)))
    ensures !compactTabs && !r.truncated ==> Lists(r, Preorder(root, 0, rootPath, false))
    ensures compactTabs ==> (NumbersLeadBack(r) <==> NoClash(EMPTY, root, 0, rootPath))
    ensures compactTabs ==> (Numbered(r.records) && NumbersLeadBack(r) <==> OmitsOnlySuffixes(EMPTY, root, 0, rootPath))
  {
    var renderer := new Renderer(app);
    renderer.WalkNode(root, 0, rootPath, compactTabs);
    r := Rendering(renderer.records, renderer.lines, renderer.truncated, renderer.maxDepthReached);
    assert r == Render(root, rootPath, compactTabs);
    if compactTabs {
      NumbersLeadBackIff(root, rootPath);
      NumberedAndLeadsBackIff(root, rootPath);
    } else {
      RenderIsPreorderPrefix(root, rootPath);
      UncompactedLeadsBack(root, rootPath);
      TruncatedIff(root, rootPath);
      if !r.truncated { UntruncatedIsComplete(root, rootPath); }
    }
  }
}
