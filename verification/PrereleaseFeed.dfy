/** Which release the updater offers: src/main/updater-prerelease-feed.ts. */
module PrereleaseFeed {
  import opened Basics
  import opened Sorting
  import opened VersionOrder

  const MAX_MANIFEST_PROBE_CANDIDATES := 6

  const RC: Text := [114, 99]
  const PERF: Text := [112, 101, 114, 102]

  datatype FeedTag = FeedTag(tag: Text, version: Text)

  datatype Channel = PerfOnly | WithPrereleases | StableOnly

  // Whether the platform manifest of a tag and all its assets can be fetched.
  type Readiness = Text -> bool

  datatype Selection =
    | Unavailable
    | NoNewer
    | NotReady(lastGoodTag: Option<Text>)
    | ReadyTags(tags: seq<Text>)

  // --------------------------------------------------------------------- the feed

  function NormalizeTagToVersion(tag: Text): Text { StripV(tag) }

  predicate IsPerfPrereleaseTag(tag: Text) {
    var parsed := ParseStrict(NormalizeTagToVersion(tag));
    && parsed.Some?
    && |parsed.value.prerelease| == 3
    && parsed.value.prerelease[0] == RC && IsNumeric(parsed.value.prerelease[1]) && parsed.value.prerelease[2] == PERF
  }

  function ToFeedTag(tag: Text): FeedTag { FeedTag(tag, NormalizeTagToVersion(tag)) }

  function ValidTags(tags: seq<Text>): (r: seq<FeedTag>)
    ensures forall e :: e in r <==> e.tag in tags && e == ToFeedTag(e.tag) && IsValidVersion(e.version)
  {
    if tags == [] then []
    else
      var rest := ValidTags(tags[1..]);
      if IsValidVersion(NormalizeTagToVersion(tags[0])) then [ToFeedTag(tags[0])] + rest else rest
  }

  function NewestFirst(host: Host): (FeedTag, FeedTag) -> int {
    (left: FeedTag, right: FeedTag) => CompareVersions(right.version, left.version, host)
  }

  function FeedTags(tags: seq<Text>, host: Host): seq<FeedTag> { StableSort(ValidTags(tags), NewestFirst(host)) }

  /** The loop over the feed's matches, and the sort. */
  method FetchReleaseFeedTags(matches: seq<Text>, host: Host) returns (tags: seq<FeedTag>)
    ensures tags == FeedTags(matches, host)
  {
    tags := [];
    for i := 0 to |matches|
      invariant tags == ValidTags(matches[..i])
    {
      var version := NormalizeTagToVersion(matches[i]);
      ValidTagsAppend(matches[..i], matches[i]);
      assert matches[..i + 1] == matches[..i] + [matches[i]];
      if IsValidVersion(version) {
        tags := tags + [FeedTag(matches[i], version)];
      }
    }
    assert matches[..|matches|] == matches;
    tags := StableSort(tags, NewestFirst(host));
  }

  lemma {:induction false} ValidTagsAppend(tags: seq<Text>, tag: Text)
    ensures ValidTags(tags + [tag]) ==
            ValidTags(tags) + if IsValidVersion(NormalizeTagToVersion(tag)) then [ToFeedTag(tag)] else []
  {
    if tags != [] {
      assert (tags + [tag])[1..] == tags[1..] + [tag];
      ValidTagsAppend(tags[1..], tag);
    } else {
      assert (tags + [tag])[1..] == [];
    }
  }

  // ------------------------------------------------------------------ the selection

  predicate OnChannel(e: FeedTag, channel: Channel) {
    match channel
    case PerfOnly => IsPerfPrereleaseTag(e.tag)
    case WithPrereleases => !IsPerfPrereleaseTag(e.tag)
    case StableOnly => !IsPrereleaseVersion(e.version)
  }

  function ChannelTest(channel: Channel): FeedTag -> bool { (e: FeedTag) => OnChannel(e, channel) }

  function Candidates(matches: seq<Text>, channel: Channel, host: Host): seq<FeedTag> {
    Filter(FeedTags(matches, host), ChannelTest(channel))
  }

  predicate IsNewer(e: FeedTag, currentVersion: Text, host: Host) {
    CompareVersions(e.version, currentVersion, host) > 0
  }

  function NewerTest(currentVersion: Text, host: Host): FeedTag -> bool {
    (e: FeedTag) => IsNewer(e, currentVersion, host)
  }

  function ReadyTest(ready: Readiness): FeedTag -> bool { (e: FeedTag) => ready(e.tag) }

  function PrimaryTest(ready: Readiness, currentVersion: Text, host: Host): FeedTag -> bool {
    (e: FeedTag) => ready(e.tag) && IsNewer(e, currentVersion, host)
  }

  /** Array.prototype.findIndex. */
  function FindIndex<T>(s: seq<T>, p: T -> bool): (r: Option<nat>)
    ensures r.Some? ==> r.value < |s| && p(s[r.value]) && forall i :: 0 <= i < r.value ==> !p(s[i])
    ensures r.None? ==> forall i :: 0 <= i < |s| ==> !p(s[i])
  {
    if s == [] then None
    else if p(s[0]) then Some(0)
    else
      match FindIndex(s[1..], p)
      case None => None
      case Some(i) => Some(i + 1)
  }

  function Tags(entries: seq<FeedTag>): (r: seq<Text>)
    ensures |r| == |entries| && forall i :: 0 <= i < |r| ==> r[i] == entries[i].tag
  {
    seq(|entries|, i requires 0 <= i < |entries| => entries[i].tag)
  }

  function Probed(candidates: seq<FeedTag>, from: nat): seq<FeedTag>
    requires from <= |candidates|
  {
    candidates[from..Min(|candidates|, from + MAX_MANIFEST_PROBE_CANDIDATES)]
  }

  function FetchNewerReleaseTags(feed: Option<seq<Text>>, currentVersion: Text, maxTags: int, channel: Channel,
                                 ready: Readiness, host: Host): Selection
  {
    if feed.None? || maxTags <= 0 then Unavailable
    else
      var candidates := Candidates(feed.value, channel, host);
      match FindIndex(candidates, NewerTest(currentVersion, host))
      case None => NoNewer
      case Some(newest) => SelectProbed(Probed(candidates, newest), currentVersion, maxTags, ready, host)
  }

  function SelectProbed(probed: seq<FeedTag>, currentVersion: Text, maxTags: nat, ready: Readiness,
                        host: Host): (r: Selection)
    ensures r.ReadyTags? || r.NotReady?
  {
    match FindIndex(probed, PrimaryTest(ready, currentVersion, host))
    case None =>
      (match FindIndex(probed, ReadyTest(ready))
       case None => NotReady(None)
       case Some(i) => NotReady(Some(probed[i].tag)))
    case Some(primary) =>
      if primary > 0 then NotReady(Some(probed[primary].tag))
      else
        var good := Filter(probed, ReadyTest(ready));
        ReadyTags(Tags(good[..Min(|good|, maxTags)]))
  }

  // ---------------------------------------------------- which releases belong to a channel

  ghost predicate IsStable(tag: Text) {
    exists core :: ParseVersion(StripV(tag)) == Some(ParsedVersion(core, []))
  }

  /** The prerelease identifiers are "rc", a numeral and "perf". */
  ghost predicate IsPerfBuild(tag: Text) {
    exists core, n ::
      && ParseStrict(StripV(tag)) == Some(ParsedVersion(core, [[114, 99], n, [112, 101, 114, 102]]))
      && n != [] && forall i :: 0 <= i < |n| ==> 48 <= n[i] <= 57
  }

  /** Perf builds are for those who ask for them, and only stable releases for those who want no prereleases. */
  ghost predicate MayBeOffered(tag: Text, channel: Channel) {
    && IsValidVersion(StripV(tag))
    && (channel.PerfOnly? ==> IsPerfBuild(tag))
    && (channel.WithPrereleases? ==> !IsPerfBuild(tag))
    && (channel.StableOnly? ==> IsStable(tag))
  }

  lemma OnChannelIff(tag: Text, channel: Channel)
    requires IsValidVersion(StripV(tag))
    ensures OnChannel(FeedTag(tag, StripV(tag)), channel) <==> MayBeOffered(tag, channel)
  {
    PerfTagIff(tag);
    var parsed := ParseVersion(StripV(tag)).value;
    if parsed.prerelease == [] {
      assert parsed == ParsedVersion(parsed.core, []);
    }
  }

  lemma PerfTagIff(tag: Text)
    ensures IsPerfPrereleaseTag(tag) <==> IsPerfBuild(tag)
  {
    if IsPerfPrereleaseTag(tag) {
      var parsed := ParseStrict(StripV(tag)).value;
      var n := parsed.prerelease[1];
      assert parsed.prerelease == [[114, 99], n, [112, 101, 114, 102]];
      assert ParseStrict(StripV(tag)) == Some(ParsedVersion(parsed.core, [[114, 99], n, [112, 101, 114, 102]]));
    }
  }

  /** What a selection names. */
  function Offered(selection: Selection): set<Text> {
    match selection
    case ReadyTags(tags) => set tag | tag in tags
    case NotReady(Some(tag)) => {tag}
    case _ => {}
  }

  /** Whatever is offered, as ready or as the last good tag, is a ready release of the feed that belongs to the channel;
      and there is nothing newer exactly if the feed has no newer release that belongs to it. */
  lemma SelectionStaysOnChannel(feed: Option<seq<Text>>, currentVersion: Text, maxTags: int, channel: Channel,
                                ready: Readiness, host: Host)
    ensures var selection := FetchNewerReleaseTags(feed, currentVersion, maxTags, channel, ready, host);
            && (selection.Unavailable? <==> feed.None? || maxTags <= 0)
            && (forall tag :: tag in Offered(selection) ==>
                  feed.Some? && tag in feed.value && ready(tag) && MayBeOffered(tag, channel))
            && (!selection.Unavailable? ==>
                  (selection.NoNewer? <==> !HasUpdate(feed.value, currentVersion, channel, host)))
  {
    if feed.Some? && maxTags > 0 {
      NothingNewerIff(feed.value, currentVersion, maxTags, channel, ready, host);
      UpdateIsACandidate(feed.value, currentVersion, channel, host);
      OfferedStays(feed.value, currentVersion, maxTags, channel, ready, host);
    }
  }

  lemma NothingNewerIff(matches: seq<Text>, currentVersion: Text, maxTags: int, channel: Channel, ready: Readiness,
                        host: Host)
    requires maxTags > 0
    ensures var selection := FetchNewerReleaseTags(Some(matches), currentVersion, maxTags, channel, ready, host);
            && !selection.Unavailable?
            && (selection.NoNewer? <==> !AnyNewer(Candidates(matches, channel, host), currentVersion, host))
  {
    FoundIffAnyNewer(Candidates(matches, channel, host), currentVersion, host);
  }

  ghost predicate AnyNewer(candidates: seq<FeedTag>, currentVersion: Text, host: Host) {
    exists i :: 0 <= i < |candidates| && IsNewer(candidates[i], currentVersion, host)
  }

  lemma FoundIffAnyNewer(candidates: seq<FeedTag>, currentVersion: Text, host: Host)
    ensures FindIndex(candidates, NewerTest(currentVersion, host)).Some? <==> AnyNewer(candidates, currentVersion, host)
  {
    var p := NewerTest(currentVersion, host);
    assert forall e :: p(e) <==> IsNewer(e, currentVersion, host);
  }

  lemma OfferedStays(matches: seq<Text>, currentVersion: Text, maxTags: int, channel: Channel, ready: Readiness,
                     host: Host)
    requires maxTags > 0
    ensures forall tag ::
              tag in Offered(FetchNewerReleaseTags(Some(matches), currentVersion, maxTags, channel, ready, host)) ==>
              tag in matches && ready(tag) && MayBeOffered(tag, channel)
  {
    var candidates := Candidates(matches, channel, host);
    match FindIndex(candidates, NewerTest(currentVersion, host))
    case None =>
    case Some(newest) =>
      OfferedIsProbed(Probed(candidates, newest), currentVersion, maxTags, ready, host);
      ProbedIsOnChannel(matches, channel, host, newest);
  }

  lemma ProbedIsOnChannel(matches: seq<Text>, channel: Channel, host: Host, from: nat)
    requires from <= |Candidates(matches, channel, host)|
    ensures forall e :: e in Probed(Candidates(matches, channel, host), from) ==>
              e.tag in matches && MayBeOffered(e.tag, channel)
  {
    CandidatesAreOnChannel(matches, channel, host);
    ProbedAreCandidates(Candidates(matches, channel, host), from);
  }

  lemma ProbedAreCandidates(candidates: seq<FeedTag>, from: nat)
    requires from <= |candidates|
    ensures forall e :: e in Probed(candidates, from) ==> e in candidates
  {
    forall e | e in Probed(candidates, from) ensures e in candidates {
      var i :| 0 <= i < |Probed(candidates, from)| && Probed(candidates, from)[i] == e;
      assert candidates[from + i] == e;
    }
  }

  lemma OfferedIsProbed(probed: seq<FeedTag>, currentVersion: Text, maxTags: nat, ready: Readiness, host: Host)
    ensures forall tag :: tag in Offered(SelectProbed(probed, currentVersion, maxTags, ready, host)) ==>
              exists e :: e in probed && e.tag == tag && ready(tag)
  {
    match FindIndex(probed, PrimaryTest(ready, currentVersion, host))
    case None =>
    case Some(primary) =>
      if primary == 0 {
        var good := Filter(probed, ReadyTest(ready));
        var chosen := good[..Min(|good|, maxTags)];
        forall tag | tag in Tags(chosen) ensures exists e :: e in probed && e.tag == tag && ready(tag) {
          var i :| 0 <= i < |chosen| && Tags(chosen)[i] == tag;
          assert chosen[i] in good;
        }
      }
  }

  lemma CandidatesAreOnChannel(matches: seq<Text>, channel: Channel, host: Host)
    ensures forall e :: e in Candidates(matches, channel, host) <==>
              e.tag in matches && e == FeedTag(e.tag, StripV(e.tag)) && MayBeOffered(e.tag, channel)
  {
    SameElements(StableSort(ValidTags(matches), NewestFirst(host)), ValidTags(matches));
    forall e: FeedTag | e == FeedTag(e.tag, StripV(e.tag)) && IsValidVersion(e.version)
      ensures OnChannel(e, channel) <==> MayBeOffered(e.tag, channel)
    {
      OnChannelIff(e.tag, channel);
    }
  }

  /** A release of the feed that belongs to the channel is newer than what is running. */
  ghost predicate HasUpdate(matches: seq<Text>, currentVersion: Text, channel: Channel, host: Host) {
    exists tag :: tag in matches && MayBeOffered(tag, channel) && CompareVersions(StripV(tag), currentVersion, host) > 0
  }

  lemma UpdateIsACandidate(matches: seq<Text>, currentVersion: Text, channel: Channel, host: Host)
    ensures HasUpdate(matches, currentVersion, channel, host) <==>
            AnyNewer(Candidates(matches, channel, host), currentVersion, host)
  {
    CandidatesAreOnChannel(matches, channel, host);
    NewerCandidateIff(matches, Candidates(matches, channel, host), currentVersion, channel, host);
  }

  lemma NewerCandidateIff(matches: seq<Text>, candidates: seq<FeedTag>, currentVersion: Text, channel: Channel,
                          host: Host)
    requires forall e :: e in candidates <==>
               e.tag in matches && e == FeedTag(e.tag, StripV(e.tag)) && MayBeOffered(e.tag, channel)
    ensures HasUpdate(matches, currentVersion, channel, host) <==> AnyNewer(candidates, currentVersion, host)
  {
    if HasUpdate(matches, currentVersion, channel, host) {
      var tag :| tag in matches && MayBeOffered(tag, channel) &&
                 CompareVersions(StripV(tag), currentVersion, host) > 0;
      assert FeedTag(tag, StripV(tag)) in candidates;
    }
    if AnyNewer(candidates, currentVersion, host) {
      var i :| 0 <= i < |candidates| && IsNewer(candidates[i], currentVersion, host);
      assert candidates[i] in candidates;
    }
  }

  // ------------------------------------------------------------- why it is the right one

  lemma FeedIsSorted(matches: seq<Text>, host: Host)
    requires TotalPreorder(host.collate)
    ensures Sorted(NewestFirst(host), FeedTags(matches, host))
    ensures forall e :: e in FeedTags(matches, host) <==>
            e.tag in matches && e == ToFeedTag(e.tag) && IsValidVersion(e.version)
  {
    var entries := ValidTags(matches);
    forall a, b | a in entries && b in entries
      ensures NewestFirst(host)(a, b) < 0 <==> NewestFirst(host)(b, a) > 0
    {
      CompareFlips(b.version, a.version, host);
    }
    forall a, b, c | a in entries && b in entries && c in entries &&
                     NewestFirst(host)(a, b) <= 0 && NewestFirst(host)(b, c) <= 0
      ensures NewestFirst(host)(a, c) <= 0
    {
      CompareTransitive(c.version, b.version, a.version, host);
    }
    StableSortSorts(entries, NewestFirst(host), Elements(entries));
  }

  /** The candidates are the releases of the feed that belong to the channel, newest first. */
  lemma CandidatesAreSorted(matches: seq<Text>, channel: Channel, host: Host)
    requires TotalPreorder(host.collate)
    ensures forall i, j :: 0 <= i < j < |Candidates(matches, channel, host)| ==>
              CompareVersions(Candidates(matches, channel, host)[j].version,
                              Candidates(matches, channel, host)[i].version, host) <= 0
    ensures forall e :: e in Candidates(matches, channel, host) <==>
              e.tag in matches && e == FeedTag(e.tag, StripV(e.tag)) && MayBeOffered(e.tag, channel)
  {
    FeedIsSorted(matches, host);
    CandidatesAreOnChannel(matches, channel, host);
    FilterSorted(FeedTags(matches, host), NewestFirst(host), ChannelTest(channel));
    var candidates := Candidates(matches, channel, host);
    forall i, j | 0 <= i < j < |candidates|
      ensures CompareVersions(candidates[j].version, candidates[i].version, host) <= 0
    {
      assert NewestFirst(host)(candidates[i], candidates[j]) <= 0;
    }
  }

  /** Whatever is newer than the current version comes first: if any candidate is newer, so is every one before it. */
  lemma NewerFormAPrefix(matches: seq<Text>, currentVersion: Text, channel: Channel, host: Host, i: nat, j: nat)
    requires TotalPreorder(host.collate) && i <= j < |Candidates(matches, channel, host)|
    requires IsNewer(Candidates(matches, channel, host)[j], currentVersion, host)
    ensures IsNewer(Candidates(matches, channel, host)[i], currentVersion, host)
  {
    if i < j {
      var candidates := Candidates(matches, channel, host);
      CandidatesAreSorted(matches, channel, host);
      assert candidates[i] in candidates && candidates[j] in candidates;
      var (high, low) := (candidates[i].version, candidates[j].version);
      CompareFlips(currentVersion, low, host);
      CompareFlips(currentVersion, high, host);
      CompareTransitive(currentVersion, low, high, host);
    }
  }

  /** Hence the search for the newest newer candidate stops at the first candidate, or finds nothing. */
  lemma NewestNewerIsFirst(matches: seq<Text>, currentVersion: Text, channel: Channel, host: Host)
    requires TotalPreorder(host.collate)
    ensures var candidates := Candidates(matches, channel, host);
            FindIndex(candidates, NewerTest(currentVersion, host))
            == if candidates != [] && IsNewer(candidates[0], currentVersion, host) then Some(0) else None
  {
    var candidates := Candidates(matches, channel, host);
    match FindIndex(candidates, NewerTest(currentVersion, host))
    case None =>
    case Some(i) => NewerFormAPrefix(matches, currentVersion, channel, host, 0, i);
  }

  /** No candidate is newer than the first. */
  lemma FirstIsNewest(matches: seq<Text>, channel: Channel, host: Host, e: FeedTag)
    requires TotalPreorder(host.collate) && e in Candidates(matches, channel, host)
    ensures CompareVersions(e.version, Candidates(matches, channel, host)[0].version, host) <= 0
  {
    CandidatesAreSorted(matches, channel, host);
    var candidates := Candidates(matches, channel, host);
    var j :| 0 <= j < |candidates| && candidates[j] == e;
    if j == 0 {
      CompareFlips(e.version, e.version, host);
    }
  }

  /** The verdict depends on the newest eligible tag alone: no update if it is not newer, ready exactly if it is ready,
      and then it heads the list; otherwise the fallback is the newest ready tag among those probed. */
  lemma SelectionFollowsNewest(matches: seq<Text>, currentVersion: Text, maxTags: int, channel: Channel,
                               ready: Readiness, host: Host)
    requires TotalPreorder(host.collate) && maxTags > 0
    ensures var selection := FetchNewerReleaseTags(Some(matches), currentVersion, maxTags, channel, ready, host);
            var candidates := Candidates(matches, channel, host);
            && (selection == NoNewer <==> !HasUpdate(matches, currentVersion, channel, host))
            && (HasUpdate(matches, currentVersion, channel, host) ==>
                  && IsNewer(candidates[0], currentVersion, host)
                  && Probed(candidates, 0) == candidates[..Min(|candidates|, 6)]
                  && (selection.ReadyTags? <==> ready(candidates[0].tag))
                  && (selection.ReadyTags? ==> IsReadyList(selection.tags, candidates, maxTags, ready))
                  && (selection.NotReady? ==> selection.lastGoodTag == NewestReady(Probed(candidates, 0), ready)))
  {
    NewestNewerIsFirst(matches, currentVersion, channel, host);
    UpdateIsFirst(matches, currentVersion, channel, host);
    if HasUpdate(matches, currentVersion, channel, host) {
      ProbedSelection(matches, currentVersion, maxTags, channel, ready, host);
    }
  }

  lemma UpdateIsFirst(matches: seq<Text>, currentVersion: Text, channel: Channel, host: Host)
    requires TotalPreorder(host.collate)
    ensures HasUpdate(matches, currentVersion, channel, host) <==>
            && Candidates(matches, channel, host) != []
            && IsNewer(Candidates(matches, channel, host)[0], currentVersion, host)
  {
    UpdateIsACandidate(matches, currentVersion, channel, host);
    if HasUpdate(matches, currentVersion, channel, host) {
      var i :| && 0 <= i < |Candidates(matches, channel, host)|
               && IsNewer(Candidates(matches, channel, host)[i], currentVersion, host);
      NewerFormAPrefix(matches, currentVersion, channel, host, 0, i);
    }
  }

  /** The first ready tag of a list, newest first. */
  function NewestReady(probed: seq<FeedTag>, ready: Readiness): Option<Text> {
    if probed == [] then None else if ready(probed[0].tag) then Some(probed[0].tag) else NewestReady(probed[1..], ready)
  }

  /** The first `maxTags` ready tags among those probed, starting with the very first candidate. */
  ghost predicate IsReadyList(tags: seq<Text>, candidates: seq<FeedTag>, maxTags: nat, ready: Readiness) {
    var good := Filter(Probed(candidates, 0), ReadyTest(ready));
    && candidates != [] && 1 <= |tags| <= maxTags
    && tags[0] == candidates[0].tag
    && tags == Tags(good[..Min(|good|, maxTags)])
  }

  /** The offered tags are ready tags of the feed in non-increasing version order. */
  lemma ReadyListDescends(tags: seq<Text>, matches: seq<Text>, maxTags: nat, channel: Channel, ready: Readiness,
                          host: Host)
    requires TotalPreorder(host.collate) && IsReadyList(tags, Candidates(matches, channel, host), maxTags, ready)
    ensures forall tag :: tag in tags ==> tag in matches && ready(tag) && MayBeOffered(tag, channel)
    ensures forall i, j :: 0 <= i < j < |tags| ==>
              CompareVersions(StripV(tags[j]), StripV(tags[i]), host) <= 0
  {
    var candidates := Candidates(matches, channel, host);
    var probed := Probed(candidates, 0);
    CandidatesAreSorted(matches, channel, host);
    assert forall i :: 0 <= i < |probed| ==> probed[i] == candidates[i];
    assert Sorted(NewestFirst(host), probed);
    FilterSorted(probed, NewestFirst(host), ReadyTest(ready));
    var good := Filter(probed, ReadyTest(ready));
    forall i | 0 <= i < |tags|
      ensures tags[i] == good[i].tag && good[i] == FeedTag(tags[i], StripV(tags[i]))
      ensures tags[i] in matches && ready(tags[i]) && MayBeOffered(tags[i], channel)
    {
      assert good[i] in good && good[i] in probed && good[i] in candidates;
    }
    forall i, j | 0 <= i < j < |tags|
      ensures CompareVersions(StripV(tags[j]), StripV(tags[i]), host) <= 0
    {
      assert NewestFirst(host)(good[i], good[j]) <= 0;
    }
  }

  lemma {:induction false} NewestReadyIsFirst(probed: seq<FeedTag>, ready: Readiness)
    ensures var found := FindIndex(probed, ReadyTest(ready));
            NewestReady(probed, ready) == if found.Some? then Some(probed[found.value].tag) else None
  {
    if probed != [] && !ready(probed[0].tag) {
      NewestReadyIsFirst(probed[1..], ready);
    }
  }

  lemma ProbedSelection(matches: seq<Text>, currentVersion: Text, maxTags: nat, channel: Channel, ready: Readiness,
                        host: Host)
    requires TotalPreorder(host.collate) && maxTags > 0
    requires Candidates(matches, channel, host) != [] &&
             IsNewer(Candidates(matches, channel, host)[0], currentVersion, host)
    ensures var candidates := Candidates(matches, channel, host);
            var selection := SelectProbed(Probed(candidates, 0), currentVersion, maxTags, ready, host);
            && (selection.ReadyTags? <==> ready(candidates[0].tag))
            && (selection.ReadyTags? ==> IsReadyList(selection.tags, candidates, maxTags, ready))
            && (!selection.ReadyTags? ==> selection == NotReady(NewestReady(Probed(candidates, 0), ready)))
  {
    var candidates := Candidates(matches, channel, host);
    var probed := Probed(candidates, 0);
    assert forall i :: 0 <= i < |probed| ==> probed[i] == candidates[i];
    var newer := NewerTest(currentVersion, host);
    forall i: nat, j: nat | i <= j < |probed| && newer(probed[j]) ensures newer(probed[i]) {
      NewerFormAPrefix(matches, currentVersion, channel, host, i, j);
    }
    FirstOfBothIsFirst(probed, ReadyTest(ready), newer, PrimaryTest(ready, currentVersion, host));
    NewestReadyIsFirst(probed, ready);
  }

  /** Where `q` holds of a prefix, the first entry with `p` and `q`, if any, is the first entry with `p`. */
  lemma FirstOfBothIsFirst<T>(s: seq<T>, p: T -> bool, q: T -> bool, both: T -> bool)
    requires forall i: nat, j: nat :: i <= j < |s| && q(s[j]) ==> q(s[i])
    requires forall i :: 0 <= i < |s| ==> (both(s[i]) <==> p(s[i]) && q(s[i]))
    ensures FindIndex(s, both).Some? ==> FindIndex(s, p) == FindIndex(s, both)
  {
    var (first, primary) := (FindIndex(s, p), FindIndex(s, both));
    if primary.Some? {
      assert p(s[primary.value]);
      assert first.Some? && first.value <= primary.value;
      assert both(s[first.value]);
    }
  }
}
