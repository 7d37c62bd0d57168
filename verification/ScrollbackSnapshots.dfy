/** Terminal scrollback snapshots: src/main/terminal-scrollback-snapshots.ts. */
module ScrollbackSnapshots {
  import opened Basics
  import opened ByteTrimming
  import opened Utf8

  // src/shared/terminal-scrollback-limits.ts
  const REPLAY_BYTE_LIMIT: nat := 512 * 1024
  const STORE_BYTE_LIMIT: nat := 5 * 1024 * 1024

  type Id = Text
  type Ref = Text

  type MakeRef = (Id, Id) -> Ref

  // /^v1-[0-9a-f]{32}$/
  predicate IsRef(ref: Ref) {
    && |ref| == 35 && ref[..3] == [118, 49, 45]
    && forall i :: 3 <= i < 35 ==> 48 <= ref[i] <= 57 || 97 <= ref[i] <= 102
  }

  /** Every ref is one that can be read, and no two leaves share one. */
  ghost predicate IsRefScheme(makeRef: MakeRef) {
    && (forall tab, leaf :: IsRef(makeRef(tab, leaf)))
    && (forall tab, leaf, tab', leaf' :: makeRef(tab, leaf) == makeRef(tab', leaf') ==> tab == tab' && leaf == leaf')
  }

  // The first 16 bytes of the sha256 of (tab, leaf), taken as injective.
  type Digest = (Id, Id) -> seq<Byte>

  ghost predicate IsDigest(digest: Digest) {
    && (forall tab, leaf :: |digest(tab, leaf)| == 16)
    && (forall tab, leaf, tab', leaf' :: digest(tab, leaf) == digest(tab', leaf') ==> tab == tab' && leaf == leaf')
  }

  function HexDigit(n: nat): CodeUnit
    requires n < 16
  {
    if n < 10 then 48 + n else 87 + n
  }

  function Hex(bytes: seq<Byte>): (r: Text)
    ensures |r| == 2 * |bytes|
    ensures forall i :: 0 <= i < |bytes| ==>
            r[2 * i] == HexDigit(bytes[i] / 16) && r[2 * i + 1] == HexDigit(bytes[i] % 16)
  {
    seq(2 * |bytes|, i requires 0 <= i < 2 * |bytes| =>
      if i % 2 == 0 then HexDigit(bytes[i / 2] / 16) else HexDigit(bytes[i / 2] % 16))
  }

  function RefOf(digest: Digest): MakeRef { (tab: Id, leaf: Id) => [118, 49, 45] + Hex(digest(tab, leaf)) }

  lemma HexIsInjective(a: seq<Byte>, b: seq<Byte>)
    requires Hex(a) == Hex(b)
    ensures a == b
  {
    forall i | 0 <= i < |a| ensures a[i] == b[i] {
      assert Hex(a)[2 * i] == Hex(b)[2 * i] && Hex(a)[2 * i + 1] == Hex(b)[2 * i + 1];
    }
  }

  /** The refs that are written are among those that can be read, and each is written for one leaf only. */
  lemma WrittenRefsAreReadable(digest: Digest)
    requires IsDigest(digest)
    ensures IsRefScheme(RefOf(digest))
  {
    forall tab, leaf ensures IsRef(RefOf(digest)(tab, leaf)) {
      var hex := Hex(digest(tab, leaf));
      forall i | 0 <= i < 32 ensures 48 <= hex[i] <= 57 || 97 <= hex[i] <= 102 {
        assert hex[2 * (i / 2)] == HexDigit(digest(tab, leaf)[i / 2] / 16);
      }
    }
    forall tab, leaf, tab', leaf' | RefOf(digest)(tab, leaf) == RefOf(digest)(tab', leaf')
      ensures tab == tab' && leaf == leaf'
    {
      var (ref, ref') := (RefOf(digest)(tab, leaf), RefOf(digest)(tab', leaf'));
      assert ref[3..] == Hex(digest(tab, leaf)) && ref'[3..] == Hex(digest(tab', leaf'));
      HexIsInjective(digest(tab, leaf), digest(tab', leaf'));
    }
  }

  // Whether the file system lets the snapshot of a leaf be written.
  type Writable = (Id, Id) -> bool

  datatype Storage = Storage(root: Text, fallback: Option<Text>)

  /** The files below the snapshot roots. */
  class Disk {
    var files: map<(Text, Ref), Bytes>
    constructor () ensures files == map[] { files := map[]; }
  }

  /** What a stored buffer replays as: the longest suffix of its characters that fits both limits. */
  function Replay(buffer: Text): Text {
    Units(LongestFitting(Encode, Scalars(buffer), Min(STORE_BYTE_LIMIT, REPLAY_BYTE_LIMIT)))
  }

  function Stored(buffer: Text): Bytes { Trailing(EncodeAll(Encode, Scalars(buffer)), STORE_BYTE_LIMIT) }

  function Wrote(buffer: Text, tab: Id, leaf: Id, writable: Writable): bool { buffer != [] && writable(tab, leaf) }

  method WriteSnapshot(disk: Disk, storage: Storage, tab: Id, leaf: Id, buffer: Text, makeRef: MakeRef,
                       writable: Writable)
    returns (ref: Option<Ref>)
    requires IsRefScheme(makeRef)
    modifies disk
    ensures ref == if Wrote(buffer, tab, leaf, writable) then Some(makeRef(tab, leaf)) else None
    ensures disk.files == if ref.Some? then old(disk.files)[(storage.root, ref.value) := Stored(buffer)]
            else old(disk.files)
  {
    if buffer == [] { return None; }
    if !IsRef(makeRef(tab, leaf)) { return None; }
    if !writable(tab, leaf) { return None; }
    StartsOnBoundary(Encode, Scalars(buffer));
    var bytes := TrailingBytes(EncodeAll(Encode, Scalars(buffer)), STORE_BYTE_LIMIT);
    disk.files := disk.files[(storage.root, makeRef(tab, leaf)) := bytes];
    return Some(makeRef(tab, leaf));
  }

  // Whether the file system lets a file be read.
  type Readable = (Text, Ref) -> bool

  predicate CanRead(disk: Disk, readable: Readable, root: Text, ref: Ref)
    reads disk
  {
    (root, ref) in disk.files && readable(root, ref)
  }

  method ReadSnapshot(disk: Disk, storage: Storage, ref: Ref, readable: Readable) returns (text: Option<Text>)
    ensures !IsRef(ref) ==> text.None?
    ensures IsRef(ref) && CanRead(disk, readable, storage.root, ref) ==>
              text == Some(Replayed(disk.files[(storage.root, ref)]))
    ensures IsRef(ref) && !CanRead(disk, readable, storage.root, ref) ==>
              text == if storage.fallback.Some? && storage.fallback.value != []
                         && CanRead(disk, readable, storage.fallback.value, ref)
                      then Some(Replayed(disk.files[(storage.fallback.value, ref)])) else None
  {
    var roots := if IsRef(ref) then [storage.root] else [];
    if roots != [] && storage.fallback.Some? && storage.fallback.value != [] && storage.fallback.value != storage.root {
      roots := roots + [storage.fallback.value];
    }
    for i := 0 to |roots|
      invariant forall j :: 0 <= j < i ==> !CanRead(disk, readable, roots[j], ref)
    {
      if CanRead(disk, readable, roots[i], ref) {
        assert i > 0 ==> !CanRead(disk, readable, roots[0], ref);
        var bytes := ReadTrailing(disk.files[(roots[i], ref)], REPLAY_BYTE_LIMIT);
        return Some(Units(Decode(bytes)));
      }
    }
    assert forall root :: root in roots ==> !CanRead(disk, readable, root, ref);
    assert IsRef(ref) ==> roots[0] == storage.root;
    assert |roots| > 1 ==> roots[1] == storage.fallback.value;
    return None;
  }

  function Replayed(file: Bytes): Text { Units(Decode(Trailing(file, REPLAY_BYTE_LIMIT))) }

  /** A written snapshot always reads back, as the longest suffix that fits. */
  lemma ReadsBackWhatWasWritten(buffer: Text)
    ensures Replayed(Stored(buffer)) == Replay(buffer) == Units(LongestFitting(Encode, Scalars(buffer), 524_288))
    ensures Stored(buffer) == EncodeAll(Encode, LongestFitting(Encode, Scalars(buffer), 5_242_880))
  {
    TrimmingKeepsLongestSuffix(Encode, Scalars(buffer), STORE_BYTE_LIMIT);
    TrimmingTwice(Encode, Scalars(buffer), STORE_BYTE_LIMIT, REPLAY_BYTE_LIMIT);
    DecodeInvertsEncode(LongestFitting(Encode, Scalars(buffer), Min(STORE_BYTE_LIMIT, REPLAY_BYTE_LIMIT)));
  }

  /** The replay is a suffix of the buffer, never cut inside a character, with U+FFFD for lone surrogates; all of it if
      it fits. */
  lemma ReplayIsSuffix(buffer: Text)
    ensures |Replay(buffer)| <= |buffer| && Replay(buffer) == WellFormed(buffer)[|buffer| - |Replay(buffer)|..]
    ensures |EncodeAll(Encode, Scalars(buffer))| <= 524_288 ==> Replay(buffer) == WellFormed(buffer)
    ensures NoLoneSurrogate(buffer) ==> WellFormed(buffer) == buffer
  {
    var vs := Scalars(buffer);
    var kept := LongestFitting(Encode, vs, Min(STORE_BYTE_LIMIT, REPLAY_BYTE_LIMIT));
    UnitsOfScalars(buffer);
    UnitsOfSuffix(vs, |vs| - |kept|);
  }

  // ----------------------------------------------------------------- session migration

  datatype Layout = Layout(buffers: Option<map<Id, Text>>, refs: Option<map<Id, Ref>>, other: Text)
  datatype WorkspaceSession = WorkspaceSession(layouts: Option<map<Id, Layout>>, other: Text)

  function Entries<V>(m: Option<map<Id, V>>): map<Id, V> { if m.Some? then m.value else map[] }

  // A ref counts only if it is a non-empty string.
  predicate HasRef(layout: Layout, leaf: Id) { leaf in Entries(layout.refs) && Entries(layout.refs)[leaf] != [] }

  predicate HasBuffer(layout: Layout, leaf: Id) { leaf in Entries(layout.buffers) }

  /** Nothing left to migrate under these write outcomes: no buffer can be written and none has a ref. */
  ghost predicate Settled(layout: Layout, tab: Id, writable: Writable) {
    forall leaf :: HasBuffer(layout, leaf) ==>
           !Wrote(layout.buffers.value[leaf], tab, leaf, writable) && !HasRef(layout, leaf)
  }

  /** Each buffered leaf ends with exactly one of a snapshot ref and its unchanged buffer; others keep their refs. */
  ghost predicate Migrated(before: Layout, after: Layout, tab: Id, makeRef: MakeRef, writable: Writable) {
    && after.other == before.other
    && (forall leaf :: leaf in Entries(before.buffers) ==>
          if Wrote(before.buffers.value[leaf], tab, leaf, writable)
          then !HasBuffer(after, leaf) && leaf in Entries(after.refs) && after.refs.value[leaf] == makeRef(tab, leaf)
          else
            HasBuffer(after, leaf) && after.buffers.value[leaf] == before.buffers.value[leaf] && !HasRef(after, leaf))
    && (forall leaf :: leaf !in Entries(before.buffers) ==>
          && !HasBuffer(after, leaf)
          && (leaf in Entries(after.refs) <==> leaf in Entries(before.refs))
          && (leaf in Entries(after.refs) ==> after.refs.value[leaf] == before.refs.value[leaf]))
  }

  /** The snapshots of all written leaves of a layout are on disk. */
  ghost predicate OnDisk(files: map<(Text, Ref), Bytes>, root: Text, layout: Layout, leaves: set<Id>, tab: Id,
                         makeRef: MakeRef, writable: Writable)
  {
    forall leaf ::
      leaf in leaves && HasBuffer(layout, leaf) && Wrote(layout.buffers.value[leaf], tab, leaf, writable) ==>
        (root, makeRef(tab, leaf)) in files && files[(root, makeRef(tab, leaf))] == Stored(layout.buffers.value[leaf])
  }

  ghost predicate LeafChanges(layout: Layout, leaf: Id, tab: Id, writable: Writable)
    requires HasBuffer(layout, leaf)
  {
    Wrote(layout.buffers.value[leaf], tab, leaf, writable) || HasRef(layout, leaf)
  }

  ghost predicate Done(layout: Layout, leaf: Id, refs: map<Id, Ref>, remaining: map<Id, Text>, tab: Id,
                       makeRef: MakeRef, writable: Writable)
    requires HasBuffer(layout, leaf)
  {
    if Wrote(layout.buffers.value[leaf], tab, leaf, writable)
    then leaf !in remaining && leaf in refs && refs[leaf] == makeRef(tab, leaf)
    else leaf in remaining && remaining[leaf] == layout.buffers.value[leaf] && (leaf in refs ==> refs[leaf] == [])
  }

  ghost predicate Untouched(layout: Layout, leaf: Id, refs: map<Id, Ref>, remaining: map<Id, Text>) {
    && leaf !in remaining
    && (leaf in refs <==> leaf in Entries(layout.refs))
    && (leaf in refs ==> refs[leaf] == layout.refs.value[leaf])
  }

  method MigrateLayout(disk: Disk, storage: Storage, tab: Id, layout: Layout, makeRef: MakeRef, writable: Writable)
    returns (after: Layout, layoutChanged: bool)
    requires IsRefScheme(makeRef)
    modifies disk
    ensures Migrated(layout, after, tab, makeRef, writable)
    ensures layoutChanged <==> !Settled(layout, tab, writable)
    ensures !layoutChanged ==> after == layout
    ensures OnDisk(disk.files, storage.root, layout, Entries(layout.buffers).Keys, tab, makeRef, writable)
    ensures KeepsOtherTabs(old(disk.files), disk.files, tab, makeRef)
  {
    var buffers := Entries(layout.buffers);
    if buffers == map[] { return layout, false; }
    var refs := Entries(layout.refs);
    var remainingBuffers: map<Id, Text> := map[];
    layoutChanged := false;
    var todo := buffers.Keys;
    while todo != {}
      invariant todo <= buffers.Keys
      invariant Progress(layout, todo, refs, remainingBuffers, layoutChanged, tab, makeRef, writable)
      invariant OnDisk(disk.files, storage.root, layout, buffers.Keys - todo, tab, makeRef, writable)
      invariant KeepsOtherTabs(old(disk.files), disk.files, tab, makeRef)
    {
      var leaf :| leaf in todo;
      ghost var files := disk.files;
      refs, remainingBuffers, layoutChanged :=
        MigrateLeaf(disk, storage, todo, leaf, layout, refs, remainingBuffers, layoutChanged, tab, makeRef, writable);
      KeepsOn(old(disk.files), files, disk.files, tab, makeRef);
      todo := todo - {leaf};
    }
    assert buffers.Keys - todo == buffers.Keys;
    ProgressEnds(layout, refs, remainingBuffers, layoutChanged, tab, makeRef, writable);
    if !layoutChanged { return layout, false; }
    after := WithEntries(layout, refs, remainingBuffers);
  }

  // The body of the loop.
  method MigrateLeaf(disk: Disk, storage: Storage, ghost todo: set<Id>, leaf: Id, layout: Layout, refs: map<Id, Ref>,
                     remaining: map<Id, Text>, changed: bool, tab: Id, makeRef: MakeRef, writable: Writable)
    returns (refs': map<Id, Ref>, remaining': map<Id, Text>, changed': bool)
    requires IsRefScheme(makeRef) && leaf in todo && todo <= Entries(layout.buffers).Keys
    requires Progress(layout, todo, refs, remaining, changed, tab, makeRef, writable)
    requires OnDisk(disk.files, storage.root, layout, Entries(layout.buffers).Keys - todo, tab, makeRef, writable)
    modifies disk
    ensures Progress(layout, todo - {leaf}, refs', remaining', changed', tab, makeRef, writable)
    ensures OnDisk(disk.files, storage.root, layout, Entries(layout.buffers).Keys - (todo - {leaf}), tab, makeRef,
                   writable)
    ensures KeepsOtherTabs(old(disk.files), disk.files, tab, makeRef)
  {
    ghost var done := Entries(layout.buffers).Keys - todo;
    var ref := WriteSnapshot(disk, storage, tab, leaf, layout.buffers.value[leaf], makeRef, writable);
    WriteKeepsDisk(old(disk.files), disk.files, storage.root, layout, done, tab, leaf, makeRef, writable);
    assert Entries(layout.buffers).Keys - (todo - {leaf}) == done + {leaf};
    assert todo - {leaf} + {leaf} == todo;
    refs', remaining', changed' :=
      RecordLeaf(layout, todo - {leaf}, leaf, ref, refs, remaining, changed, tab, makeRef, writable);
  }

  function WithEntries(layout: Layout, refs: map<Id, Ref>, remaining: map<Id, Text>): Layout {
    layout.(refs := if refs != map[] then Some(refs) else None,
            buffers := if remaining != map[] then Some(remaining) else None)
  }

  lemma WithEntriesHas(layout: Layout, refs: map<Id, Ref>, remaining: map<Id, Text>)
    ensures Entries(WithEntries(layout, refs, remaining).refs) == refs
    ensures Entries(WithEntries(layout, refs, remaining).buffers) == remaining
  {
  }

  lemma ProgressEnds(layout: Layout, refs: map<Id, Ref>, remaining: map<Id, Text>, changed: bool,
                     tab: Id, makeRef: MakeRef, writable: Writable)
    requires Progress(layout, {}, refs, remaining, changed, tab, makeRef, writable)
    ensures changed <==> !Settled(layout, tab, writable)
    ensures Migrated(layout, if changed then WithEntries(layout, refs, remaining) else layout, tab, makeRef, writable)
  {
    WithEntriesHas(layout, refs, remaining);
    if !changed {
      forall leaf | HasBuffer(layout, leaf) ensures !LeafChanges(layout, leaf, tab, writable) {}
    } else {
      var leaf :| HasBuffer(layout, leaf) && LeafChanges(layout, leaf, tab, writable);
      var after := WithEntries(layout, refs, remaining);
      forall leaf | leaf in Entries(layout.buffers)
        ensures Done(layout, leaf, Entries(after.refs), Entries(after.buffers), tab, makeRef, writable)
      {
        assert HasBuffer(layout, leaf);
      }
      forall leaf | leaf !in Entries(layout.buffers)
        ensures Untouched(layout, leaf, Entries(after.refs), Entries(after.buffers))
      {
        assert !HasBuffer(layout, leaf);
      }
    }
  }

  ghost predicate KeepsOtherTabs(before: map<(Text, Ref), Bytes>, after: map<(Text, Ref), Bytes>, tab: Id,
                                 makeRef: MakeRef) {
    forall path :: path in before && (forall leaf :: path.1 != makeRef(tab, leaf)) ==>
           path in after && after[path] == before[path]
  }

  lemma KeepsOn(a: map<(Text, Ref), Bytes>, b: map<(Text, Ref), Bytes>, c: map<(Text, Ref), Bytes>, tab: Id,
                makeRef: MakeRef)
    requires KeepsOtherTabs(a, b, tab, makeRef) && KeepsOtherTabs(b, c, tab, makeRef)
    ensures KeepsOtherTabs(a, c, tab, makeRef)
  {
  }

  lemma WriteKeepsDisk(files: map<(Text, Ref), Bytes>, files': map<(Text, Ref), Bytes>, root: Text, layout: Layout,
                       done: set<Id>, tab: Id, leaf: Id, makeRef: MakeRef, writable: Writable)
    requires IsRefScheme(makeRef) && OnDisk(files, root, layout, done, tab, makeRef, writable) &&
             HasBuffer(layout, leaf)
    requires files' == if Wrote(layout.buffers.value[leaf], tab, leaf, writable)
                       then files[(root, makeRef(tab, leaf)) := Stored(layout.buffers.value[leaf])] else files
    ensures OnDisk(files', root, layout, done + {leaf}, tab, makeRef, writable)
    ensures KeepsOtherTabs(files, files', tab, makeRef)
  {
  }

  /** The leaves outside `todo` are done, the others untouched, and `changed` says if a done one made a difference. */
  ghost predicate Progress(layout: Layout, todo: set<Id>, refs: map<Id, Ref>, remaining: map<Id, Text>, changed: bool,
                           tab: Id, makeRef: MakeRef, writable: Writable)
  {
    && (forall leaf :: HasBuffer(layout, leaf) && leaf !in todo ==>
        Done(layout, leaf, refs, remaining, tab, makeRef, writable))
    && (forall leaf :: leaf in todo || !HasBuffer(layout, leaf) ==> Untouched(layout, leaf, refs, remaining))
    && (changed <==> exists leaf ::
        HasBuffer(layout, leaf) && leaf !in todo && LeafChanges(layout, leaf, tab, writable))
  }

  // The body of the leaf loop after the write.
  method RecordLeaf(layout: Layout, ghost todo: set<Id>, leaf: Id, ref: Option<Ref>, refs: map<Id, Ref>,
                    remaining: map<Id, Text>, changed: bool, ghost tab: Id, ghost makeRef: MakeRef,
                        ghost writable: Writable)
    returns (refs': map<Id, Ref>, remaining': map<Id, Text>, changed': bool)
    requires HasBuffer(layout, leaf) && leaf !in todo
    requires ref == if Wrote(layout.buffers.value[leaf], tab, leaf, writable) then Some(makeRef(tab, leaf)) else None
    requires Progress(layout, todo + {leaf}, refs, remaining, changed, tab, makeRef, writable)
    ensures Progress(layout, todo, refs', remaining', changed', tab, makeRef, writable)
  {
    refs', remaining', changed' := refs, remaining, changed;
    if ref.Some? {
      refs' := refs[leaf := ref.value];
      changed' := true;
    } else {
      remaining' := remaining[leaf := layout.buffers.value[leaf]];
      if leaf in refs && refs[leaf] != [] {
        refs' := refs - {leaf};
        changed' := true;
      }
    }
    assert LeafChanges(layout, leaf, tab, writable) <==> ref.Some? || (leaf in refs && refs[leaf] != []);
  }

  ghost predicate SessionSettled(session: WorkspaceSession, writable: Writable) {
    forall tab :: tab in Entries(session.layouts) ==> Settled(session.layouts.value[tab], tab, writable)
  }

  ghost predicate SessionMigrated(before: WorkspaceSession, after: WorkspaceSession, makeRef: MakeRef,
                                  writable: Writable) {
    && after.other == before.other
    && Entries(after.layouts).Keys == Entries(before.layouts).Keys
    && forall tab :: tab in Entries(before.layouts) ==>
         Migrated(before.layouts.value[tab], after.layouts.value[tab], tab, makeRef, writable)
  }

  method MigrateSession(disk: Disk, storage: Storage, session: WorkspaceSession, makeRef: MakeRef, writable: Writable)
    returns (result: WorkspaceSession, changed: bool)
    requires IsRefScheme(makeRef)
    modifies disk
    ensures SessionMigrated(session, result, makeRef, writable)
    ensures changed <==> !SessionSettled(session, writable)
    ensures !changed ==> result == session
    ensures forall tab :: tab in Entries(session.layouts) ==>
              OnDisk(disk.files, storage.root, session.layouts.value[tab],
                     Entries(session.layouts.value[tab].buffers).Keys,
                     tab, makeRef, writable)
  {
    var before := Entries(session.layouts);
    var layouts := before;
    changed := false;
    var todo := before.Keys;
    while todo != {}
      invariant todo <= before.Keys && layouts.Keys == before.Keys
      invariant TabsProgress(before, layouts, todo, changed, makeRef, writable)
      invariant TabsOnDisk(disk.files, storage.root, before, todo, makeRef, writable)
    {
      var tab :| tab in todo;
      ghost var (files, left) := (disk.files, todo);
      todo := todo - {tab};
      var next, layoutChanged := MigrateLayout(disk, storage, tab, before[tab], makeRef, writable);
      OneMoreTabOnDisk(files, disk.files, storage.root, before, left, tab, makeRef, writable);
      OneMoreTab(before, layouts, left, changed, tab, next, layoutChanged, makeRef, writable);
      if layoutChanged {
        changed := true;
        layouts := layouts[tab := next];
      }
    }
    if !changed { return session, false; }
    result := session.(layouts := Some(layouts));
  }

  /** The tabs outside `todo` are migrated, the others untouched, and `changed` says if there was anything to do. */
  ghost predicate TabsProgress(before: map<Id, Layout>, layouts: map<Id, Layout>, todo: set<Id>, changed: bool,
                               makeRef: MakeRef, writable: Writable)
    requires todo <= before.Keys && layouts.Keys == before.Keys
  {
    && (forall tab :: tab in todo ==> layouts[tab] == before[tab])
    && (forall tab :: tab in before && tab !in todo ==> Migrated(before[tab], layouts[tab], tab, makeRef, writable))
    && (changed <==> exists tab :: tab in before && tab !in todo && !Settled(before[tab], tab, writable))
    && (!changed ==> layouts == before)
  }

  lemma OneMoreTab(before: map<Id, Layout>, layouts: map<Id, Layout>, todo: set<Id>, changed: bool, tab: Id,
                   next: Layout, layoutChanged: bool, makeRef: MakeRef, writable: Writable)
    requires todo <= before.Keys && layouts.Keys == before.Keys && tab in todo
    requires TabsProgress(before, layouts, todo, changed, makeRef, writable)
    requires Migrated(before[tab], next, tab, makeRef, writable) && (!layoutChanged ==> next == before[tab])
    requires layoutChanged <==> !Settled(before[tab], tab, writable)
    ensures TabsProgress(before, if layoutChanged then layouts[tab := next] else layouts, todo - {tab},
                         changed || layoutChanged, makeRef, writable)
  {
  }

  ghost predicate TabsOnDisk(files: map<(Text, Ref), Bytes>, root: Text, before: map<Id, Layout>, todo: set<Id>,
                             makeRef: MakeRef, writable: Writable)
  {
    forall tab :: tab in before && tab !in todo ==>
      OnDisk(files, root, before[tab], Entries(before[tab].buffers).Keys, tab, makeRef, writable)
  }

  lemma OneMoreTabOnDisk(files: map<(Text, Ref), Bytes>, files': map<(Text, Ref), Bytes>, root: Text,
                         before: map<Id, Layout>, todo: set<Id>, tab: Id, makeRef: MakeRef, writable: Writable)
    requires IsRefScheme(makeRef) && tab in before && TabsOnDisk(files, root, before, todo, makeRef, writable)
    requires KeepsOtherTabs(files, files', tab, makeRef)
    requires OnDisk(files', root, before[tab], Entries(before[tab].buffers).Keys, tab, makeRef, writable)
    ensures TabsOnDisk(files', root, before, todo - {tab}, makeRef, writable)
  {
  }

  /** Running the migration again with the same write outcomes finds nothing to do. */
  lemma MigrationSettles(before: WorkspaceSession, after: WorkspaceSession, makeRef: MakeRef, writable: Writable)
    requires SessionMigrated(before, after, makeRef, writable)
    ensures SessionSettled(after, writable)
  {
    forall tab | tab in Entries(after.layouts) ensures Settled(after.layouts.value[tab], tab, writable) {
      var (b, a) := (before.layouts.value[tab], after.layouts.value[tab]);
      forall leaf | HasBuffer(a, leaf)
        ensures !Wrote(a.buffers.value[leaf], tab, leaf, writable) && !HasRef(a, leaf)
      {
        assert leaf in Entries(b.buffers);
      }
    }
  }

  /** Nothing is lost: every buffer is still in the session, or replays from the snapshot its ref names. */
  lemma MigrationLosesNothing(before: Layout, after: Layout, tab: Id, leaf: Id, files: map<(Text, Ref), Bytes>,
                              root: Text, makeRef: MakeRef, writable: Writable)
    requires IsRefScheme(makeRef) && Migrated(before, after, tab, makeRef, writable) && HasBuffer(before, leaf)
    requires OnDisk(files, root, before, Entries(before.buffers).Keys, tab, makeRef, writable)
    ensures HasRef(after, leaf) <==> !HasBuffer(after, leaf)
    ensures HasBuffer(after, leaf) ==> after.buffers.value[leaf] == before.buffers.value[leaf]
    ensures HasRef(after, leaf) ==>
              && IsRef(after.refs.value[leaf]) && (root, after.refs.value[leaf]) in files
              && Replayed(files[(root, after.refs.value[leaf])]) == Replay(before.buffers.value[leaf])
  {
    ReadsBackWhatWasWritten(before.buffers.value[leaf]);
  }
}
