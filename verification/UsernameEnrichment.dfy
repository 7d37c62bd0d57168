/** Single flight with one queued rerun: src/main/repo-git-username-enrichment.ts. The atomic steps are the code
    between awaits; requests and changes of the repository list may come between any two of them. The probe is
    documented never to reject; what can throw between two of them is the store that is handed the answer. */
module UsernameEnrichment {
  import opened Basics

  datatype Repo = Repo(id: Text, path: Text, isFolder: bool, connectionId: Option<Text>)

  // The key `${connectionId ?? 'local'}\0${path}`.
  datatype Location = Location(host: Text, path: Text)

  const LOCAL: Text := [108, 111, 99, 97, 108]

  function LocationOf(repo: Repo): Location {
    Location(if repo.connectionId.Some? then repo.connectionId.value else LOCAL, repo.path)
  }

  // Local and not a folder; an empty connection id counts as none.
  predicate Eligible(repo: Repo) { !repo.isFolder && (repo.connectionId.None? || repo.connectionId.value == []) }

  function Candidates(repos: seq<Repo>, attempted: set<Location>): (r: seq<Repo>)
    ensures |r| <= |repos|
    ensures forall repo :: repo in r <==> repo in repos && Eligible(repo) && LocationOf(repo) !in attempted
  {
    Filter(repos, (repo: Repo) => Eligible(repo) && LocationOf(repo) !in attempted)
  }

  /** Where the eligible repositories are. */
  ghost function Locations(repos: set<Repo>): set<Location> {
    set repo | repo in repos && Eligible(repo) :: LocationOf(repo)
  }

  function Listing(repos: seq<Repo>): set<Repo> { set repo | repo in repos }

  /** No pass; a probe is awaited and `todo` comes after it; or the pass is over and its promise about to settle. */
  datatype Phase = Idle | Probing(todo: seq<Repo>) | Settling

  /** The path given to git, the location it was marked as, and the pass it belongs to. */
  datatype Probe = Probe(path: Text, location: Location, pass: nat)

  /** `running` counts the passes begun and not ended; the rest is the history the properties speak of. */
  datatype History = History(now: nat, running: int, passes: nat, probes: seq<Probe>, requested: seq<Repo>,
                             requestedAt: nat, snapshot: seq<Repo>, snapshotAt: nat, listed: set<Repo>,
                             dropped: seq<Repo>)

  datatype State = State(repos: seq<Repo>, attempted: set<Location>, phase: Phase, rerun: bool, history: History)

  const INITIAL := State([], {}, Idle, false, History(0, 0, 0, [], [], 0, [], 0, {}, []))

  datatype Event =
    | StoreChanges(repos: seq<Repo>)
    | Request
    | ProbeAnswers
    | StoreThrows
    | PassSettles

  function ProbeOf(repo: Repo, pass: nat): Probe { Probe(repo.path, LocationOf(repo), pass) }

  // Marks a location before its probe is awaited.
  function StartProbe(s: State, todo: seq<Repo>): State {
    if todo == [] then s.(phase := Settling)
    else s.(attempted := s.attempted + {LocationOf(todo[0])}, phase := Probing(todo[1..]),
            history := s.history.(probes := s.history.probes + [ProbeOf(todo[0], s.history.passes)]))
  }

  // The synchronous start of a pass: it reads the repositories, and runs to its first probe.
  function BeginPass(s: State): State {
    var h := s.history.(running := s.history.running + 1, passes := s.history.passes + 1, snapshot := s.repos,
                        snapshotAt := s.history.now, listed := s.history.listed + Listing(s.repos), dropped := []);
    StartProbe(s.(history := h), Candidates(s.repos, s.attempted))
  }

  function Enrich(s: State): State {
    if s.phase.Idle? then BeginPass(s) else s.(rerun := true)
  }

  predicate CanHappen(s: State, e: Event) {
    match e
    case StoreChanges(_) => true
    case Request => true
    case ProbeAnswers => s.phase.Probing?
    case StoreThrows => s.phase.Probing?
    case PassSettles => s.phase.Settling?
  }

  function React(s: State, e: Event): State
    requires CanHappen(s, e)
  {
    match e
    case StoreChanges(repos) => s.(repos := repos)
    case Request => Enrich(s.(history := s.history.(requested := s.repos, requestedAt := s.history.now)))
    case ProbeAnswers => StartProbe(s, s.phase.todo)
    case StoreThrows => s.(phase := Settling, history := s.history.(dropped := s.phase.todo))
    case PassSettles =>
      var idle := s.(phase := Idle, rerun := false, history := s.history.(running := s.history.running - 1));
      if s.rerun then Enrich(idle) else idle
  }

  function Next(s: State, e: Event): State
    requires CanHappen(s, e)
  {
    React(s.(history := s.history.(now := s.history.now + 1)), e)
  }

  // ------------------------------------------------------------ what the runs are judged by

  /** A repository that local git can inspect. */
  ghost predicate IsLocalGit(repo: Repo) {
    !repo.isFolder && (repo.connectionId == None || repo.connectionId == Some([]))
  }

  /** Git was called with the path of the repository, under the host it is listed with. */
  ghost predicate IsProbed(h: History, repo: Repo) {
    exists p ::
      && p in h.probes && p.path == repo.path == p.location.path
      && p.location.host == if repo.connectionId.None? then [108, 111, 99, 97, 108] else repo.connectionId.value
  }

  lemma ProbedIffAttempted(s: State, repo: Repo)
    requires ProbedInOnePass(s)
    ensures IsProbed(s.history, repo) <==> LocationOf(repo) in s.attempted
  {
    if LocationOf(repo) in s.attempted {
      var p :| p in s.history.probes && p.location == LocationOf(repo);
      assert p.path == repo.path;
    }
  }

  // ---------------------------------------------------------------------------- runs

  ghost predicate Leads(s: State, run: seq<Event>, t: State)
    decreases |run|
  {
    if run == [] then s == t else CanHappen(s, run[0]) && Leads(Next(s, run[0]), run[1..], t)
  }

  lemma {:induction false} LeadsOn(s: State, run: seq<Event>, t: State, e: Event)
    requires Leads(s, run, t) && CanHappen(t, e)
    ensures Leads(s, run + [e], Next(t, e))
    decreases |run|
  {
    if run == [] {
      assert ([] + [e])[1..] == [];
    } else {
      assert (run + [e])[1..] == run[1..] + [e];
      LeadsOn(Next(s, run[0]), run[1..], t, e);
    }
  }

  function Todo(s: State): seq<Repo> { if s.phase.Probing? then s.phase.todo else [] }

  /** A location probed before the current pass is never probed again. */
  ghost predicate ProbedInOnePass(s: State) {
    var probes := s.history.probes;
    && (forall p :: p in probes ==>
          p.location in s.attempted && p.path == p.location.path && p.pass <= s.history.passes)
    && (forall l :: l in s.attempted ==> exists p :: p in probes && p.location == l)
    && (forall p, q :: p in probes && q in probes && p.location == q.location ==> p.pass == q.pass)
    && (forall repo, p :: repo in Todo(s) && p in probes && p.location == LocationOf(repo) ==>
        p.pass == s.history.passes)
  }

  /** Every eligible repository of the last snapshot is attempted, still to come, or was dropped by a throw. */
  ghost predicate SnapshotCovered(s: State) {
    forall repo :: repo in s.history.snapshot && Eligible(repo) ==>
      LocationOf(repo) in s.attempted || repo in Todo(s) || repo in s.history.dropped
  }

  ghost predicate Inv(s: State) {
    && s.history.running == (if s.phase.Idle? then 0 else 1)
    && (s.phase.Idle? ==> !s.rerun)
    && s.history.snapshotAt <= s.history.now && s.history.requestedAt <= s.history.now
    && (s.rerun || s.history.requestedAt <= s.history.snapshotAt)
    && (forall repo :: repo in s.history.dropped ==> repo in s.history.snapshot && Eligible(repo))
    && (forall repo :: repo in Todo(s) ==> repo in s.history.snapshot && Eligible(repo))
    && (s.phase.Probing? ==> s.history.dropped == [])
    && ProbedInOnePass(s)
    && SnapshotCovered(s)
  }

  lemma StartProbeKeeps(s: State, todo: seq<Repo>)
    requires Inv(s.(phase := Probing(todo)))
    ensures Inv(StartProbe(s, todo))
  {
    if todo != [] {
      var t := StartProbe(s, todo);
      var p := Probe(todo[0].path, LocationOf(todo[0]), s.history.passes);
      assert p in t.history.probes;
      assert forall q :: q in t.history.probes <==> q in s.history.probes || q == p;
      assert forall repo :: repo in todo <==> repo == todo[0] || repo in todo[1..];
      forall l | l in t.attempted ensures exists q :: q in t.history.probes && q.location == l {
        if l in s.attempted {
          var q :| q in s.history.probes && q.location == l;
          assert q in t.history.probes;
        }
      }
    }
  }

  lemma BeginPassKeeps(s: State)
    requires ProbedInOnePass(s) && s.phase.Idle? && s.history.running == 0 && s.history.requestedAt <= s.history.now
    ensures Inv(BeginPass(s))
  {
    var h := s.history.(running := s.history.running + 1, passes := s.history.passes + 1, snapshot := s.repos,
                        snapshotAt := s.history.now, listed := s.history.listed + Listing(s.repos), dropped := []);
    var begun, todo := s.(history := h), Candidates(s.repos, s.attempted);
    FreshPassKeeps(s, begun, todo);
    StartProbeKeeps(begun, todo);
    assert BeginPass(s) == StartProbe(begun, todo);
  }

  lemma FreshPassKeeps(s: State, begun: State, todo: seq<Repo>)
    requires ProbedInOnePass(s) && todo == Candidates(s.repos, s.attempted)
    requires begun == s.(history := begun.history) && begun.history.probes == s.history.probes
    requires begun.history.passes == s.history.passes + 1 && begun.history.snapshot == s.repos
    requires begun.history.running == 1 && begun.history.dropped == []
    requires begun.history.requestedAt <= begun.history.now == begun.history.snapshotAt
    ensures Inv(begun.(phase := Probing(todo)))
  {
    assert forall repo :: repo in todo ==> repo in begun.history.snapshot && Eligible(repo);
  }

  function Later(s: State): State { s.(history := s.history.(now := s.history.now + 1)) }

  lemma LaterKeeps(s: State)
    requires Inv(s)
    ensures Inv(Later(s))
  {
  }

  lemma ThrowKeeps(s: State)
    requires Inv(s) && s.phase.Probing?
    ensures Inv(s.(phase := Settling, history := s.history.(dropped := s.phase.todo)))
  {
  }

  lemma RequestKeeps(s: State)
    requires Inv(s)
    ensures Inv(React(s, Request))
  {
    if s.phase.Idle? {
      BeginPassKeeps(s.(history := s.history.(requested := s.repos, requestedAt := s.history.now)));
    }
  }

  lemma SettlingKeeps(s: State)
    requires Inv(s) && s.phase.Settling?
    ensures Inv(React(s, PassSettles))
  {
    if s.rerun {
      BeginPassKeeps(s.(phase := Idle, rerun := false, history := s.history.(running := 0)));
    }
  }

  lemma NextKeepsInv(s: State, e: Event)
    requires Inv(s) && CanHappen(s, e)
    ensures Inv(Next(s, e))
  {
    LaterKeeps(s);
    var later := Later(s);
    match e
    case StoreChanges(_) =>
    case Request => RequestKeeps(later);
    case ProbeAnswers => StartProbeKeeps(later, s.phase.todo);
    case StoreThrows => ThrowKeeps(later);
    case PassSettles => SettlingKeeps(later);
  }

  lemma {:induction false} RunKeepsInv(s: State, run: seq<Event>, t: State)
    requires Inv(s) && Leads(s, run, t)
    ensures Inv(t)
    decreases |run|
  {
    if run != [] {
      NextKeepsInv(s, run[0]);
      RunKeepsInv(Next(s, run[0]), run[1..], t);
    }
  }

  lemma ProbedInRun(run: seq<Event>, t: State, repo: Repo)
    requires Leads(INITIAL, run, t)
    ensures IsProbed(t.history, repo) <==> LocationOf(repo) in t.attempted
  {
    RunKeepsInv(INITIAL, run, t);
    ProbedIffAttempted(t, repo);
  }

  ghost predicate AreAlike(p: Probe, q: Probe) { p.path == q.path && p.location.host == q.location.host }

  /** One pass at a time, and no location probed in two of them. */
  lemma SingleFlight(run: seq<Event>, t: State)
    requires Leads(INITIAL, run, t)
    ensures t.history.running <= 1
    ensures forall p, q ::
              p in t.history.probes && q in t.history.probes && AreAlike(p, q) ==> p.pass == q.pass
  {
    RunKeepsInv(INITIAL, run, t);
  }

  // ------------------------------------------------------- what a throw costs

  /** The store throws while something in the pass is still to be attempted. */
  ghost predicate CutsPass(s: State, e: Event) {
    e.StoreThrows? && exists repo :: repo in Todo(s) && LocationOf(repo) !in s.attempted
  }

  /** Along the run from `s`, the pass numbered `pass` is cut short. */
  ghost predicate PassIsCut(s: State, run: seq<Event>, pass: nat)
    decreases |run|
  {
    && run != []
    && CanHappen(s, run[0])
    && ((CutsPass(s, run[0]) && s.history.passes == pass) || PassIsCut(Next(s, run[0]), run[1..], pass))
  }

  ghost predicate Lost(s: State) { exists repo :: repo in s.history.dropped && LocationOf(repo) !in s.attempted }

  lemma OneEventLoses(s: State, e: Event)
    requires Inv(s) && CanHappen(s, e)
    ensures s.history.passes <= Next(s, e).history.passes
    ensures Next(s, e).history.passes == s.history.passes ==> (Lost(Next(s, e)) <==> CutsPass(s, e) || Lost(s))
    ensures Next(s, e).history.passes > s.history.passes ==> !Lost(Next(s, e)) && !e.StoreThrows?
  {
    if e.StoreThrows? {
      assert Next(s, e).history.dropped == Todo(s);
    }
  }

  lemma {:induction false} RunLoses(s: State, run: seq<Event>, t: State)
    requires Inv(s) && Leads(s, run, t)
    ensures s.history.passes <= t.history.passes
    ensures Lost(t) <==> PassIsCut(s, run, t.history.passes) || (Lost(s) && s.history.passes == t.history.passes)
    decreases |run|
  {
    if run != [] {
      NextKeepsInv(s, run[0]);
      OneEventLoses(s, run[0]);
      RunLoses(Next(s, run[0]), run[1..], t);
    }
  }

  /** At rest the last snapshot is no older than the last request, and all of it has been attempted exactly unless in
      the last pass the store threw while something was still to be attempted. */
  lemma Quiescence(run: seq<Event>, t: State)
    requires Leads(INITIAL, run, t) && t.phase.Idle?
    ensures t.history.requestedAt <= t.history.snapshotAt
    ensures (forall repo :: repo in t.history.snapshot && IsLocalGit(repo) ==> IsProbed(t.history, repo))
       <==> !PassIsCut(INITIAL, run, t.history.passes)
  {
    RunKeepsInv(INITIAL, run, t);
    RunLoses(INITIAL, run, t);
    LostMeansUnprobed(t);
  }

  /** After a throw and without a further request nothing more is attempted, unless a rerun was queued: that one pass is
      all that follows, and at rest it has attempted everything that was listed when it began, exactly unless it is cut
      short as well. */
  lemma ThrowEndsThePass(before: seq<Event>, s: State, after: seq<Event>, t: State)
    requires Leads(INITIAL, before, s) && s.phase.Probing? && Leads(Next(s, StoreThrows), after, t) && Request !in after
    ensures t.history.passes <= s.history.passes + (if s.rerun then 1 else 0)
    ensures t.history.passes == s.history.passes ==>
              t.attempted == s.attempted && t.history.probes == s.history.probes && !t.phase.Probing?
    ensures t.phase.Idle? ==> t.history.passes == s.history.passes + (if s.rerun then 1 else 0)
    ensures t.phase.Idle? && s.rerun ==>
              ((forall repo :: repo in t.history.snapshot && IsLocalGit(repo) ==> IsProbed(t.history, repo))
               <==> !PassIsCut(Next(s, StoreThrows), after, t.history.passes))
  {
    RunKeepsInv(INITIAL, before, s);
    NextKeepsInv(s, StoreThrows);
    var thrown := Next(s, StoreThrows);
    OneMorePass(thrown, after, t);
    RunKeepsInv(thrown, after, t);
    RunLoses(thrown, after, t);
    if t.phase.Idle? { LostMeansUnprobed(t); }
  }

  lemma LostMeansUnprobed(t: State)
    requires Inv(t) && !t.phase.Probing?
    ensures Lost(t) <==> exists repo :: repo in t.history.snapshot && IsLocalGit(repo) && !IsProbed(t.history, repo)
  {
    assert Todo(t) == [];
    forall repo ensures IsProbed(t.history, repo) <==> LocationOf(repo) in t.attempted { ProbedIffAttempted(t, repo); }
  }

  // Without a request, a pass that is over is followed by the queued one and no other.
  lemma {:induction false} OneMorePass(s: State, run: seq<Event>, t: State)
    requires Inv(s) && Request !in run && Leads(s, run, t)
    ensures s.history.passes <= t.history.passes <= s.history.passes + (if s.rerun then 1 else 0)
    ensures t.history.passes == s.history.passes && !s.phase.Probing? ==>
              t.attempted == s.attempted && t.history.probes == s.history.probes && !t.phase.Probing?
    ensures t.phase.Idle? ==> t.history.passes == s.history.passes + (if s.rerun then 1 else 0)
    decreases |run|
  {
    if run != [] {
      assert run[0] in run;
      NextKeepsInv(s, run[0]);
      OneMorePass(Next(s, run[0]), run[1..], t);
    }
  }

  /** The queued pass takes up everything listed and not yet probed at that moment, what a throw gave up included, and
      probes the first of it at once. */
  lemma QueuedPassTakesUpTheRest(before: seq<Event>, s: State)
    requires Leads(INITIAL, before, s) && s.phase.Settling? && s.rerun
    ensures var t := Next(s, PassSettles);
            && t.history.snapshot == s.repos && t.history.passes == s.history.passes + 1
            && (forall repo :: repo in s.history.dropped ==> IsLocalGit(repo))
            && (forall repo :: repo in s.repos && IsLocalGit(repo) && !IsProbed(s.history, repo) ==>
                  && |t.history.probes| == |s.history.probes| + 1
                  && (IsProbed(t.history, repo) || repo in Todo(t)))
  {
    RunKeepsInv(INITIAL, before, s);
    NextKeepsInv(s, PassSettles);
    var t, todo := Next(s, PassSettles), Candidates(s.repos, s.attempted);
    forall repo | repo in s.repos && IsLocalGit(repo) && !IsProbed(s.history, repo)
      ensures |t.history.probes| == |s.history.probes| + 1 && (IsProbed(t.history, repo) || repo in Todo(t))
    {
      ProbedIffAttempted(s, repo);
      ProbedIffAttempted(t, repo);
      assert repo in todo;
    }
  }

  /** The rest is attempted without a request after the throw, if one came before it. */
  lemma QueuedRerunAttemptsTheRest(a: Repo, b: Repo) returns (run: seq<Event>, t: State)
    requires IsLocalGit(a) && IsLocalGit(b) && LocationOf(a) != LocationOf(b)
    ensures run == [StoreChanges([a, b]), Request, Request, StoreThrows, PassSettles] && Leads(INITIAL, run, t)
    ensures IsProbed(t.history, b)
  {
    t := RequestedTwice(a, b);
    run := [StoreChanges([a, b]), Request, Request];
    CandidatesOfTwo(a, b);
    run, t := AndThen(run, t, StoreThrows);
    run, t := AndThen(run, t, PassSettles);
    ProbedInRun(run, t, b);
  }

  // The second request comes while `a` is being probed, and queues a pass.
  lemma RequestedTwice(a: Repo, b: Repo) returns (t: State)
    requires Eligible(a) && Eligible(b) && LocationOf(a) != LocationOf(b)
    ensures Leads(INITIAL, [StoreChanges([a, b]), Request, Request], t)
    ensures t.phase == Probing([b]) && t.attempted == {LocationOf(a)} && t.rerun && t.repos == [a, b]
  {
    CandidatesOfTwo(a, b);
    var run: seq<Event> := [];
    t := INITIAL;
    run, t := AndThen(run, t, StoreChanges([a, b]));
    run, t := AndThen(run, t, Request);
    run, t := AndThen(run, t, Request);
    assert run == [StoreChanges([a, b]), Request, Request];
  }

  lemma CandidatesOfTwo(a: Repo, b: Repo)
    requires Eligible(a) && Eligible(b) && LocationOf(a) != LocationOf(b)
    ensures Candidates([a, b], {}) == [a, b] && Candidates([a, b], {LocationOf(a)}) == [b]
  {
    assert [a, b][1..] == [b] && [b][1..] == [];
  }

  // ------------------------------------------------------ what a request is promised at rest

  /** At rest, unless the last pass was cut short, everything listed at the last request and still listed when the last
      pass began has been attempted. */
  lemma RequestedReposAreAttempted(run: seq<Event>, t: State)
    requires Leads(INITIAL, run, t) && t.phase.Idle? && !PassIsCut(INITIAL, run, t.history.passes)
    ensures t.history.requestedAt <= t.history.snapshotAt
    ensures forall repo :: repo in t.history.requested && repo in t.history.snapshot && IsLocalGit(repo) ==>
              IsProbed(t.history, repo)
  {
    Quiescence(run, t);
  }

  predicate NeverThrows(run: seq<Event>) { StoreThrows !in run }

  lemma {:induction false} WithoutThrowsNothingIsCut(s: State, run: seq<Event>, pass: nat)
    requires NeverThrows(run)
    ensures !PassIsCut(s, run, pass)
    decreases |run|
  {
    if run != [] && CanHappen(s, run[0]) {
      assert run[0] in run;
      WithoutThrowsNothingIsCut(Next(s, run[0]), run[1..], pass);
    }
  }

  /** No repository is taken off the list along the run. */
  ghost predicate StoreGrows(s: State, run: seq<Event>)
    decreases |run|
  {
    run == [] ||
    (&& CanHappen(s, run[0])
     && (run[0].StoreChanges? ==> forall repo :: repo in s.repos ==> repo in run[0].repos)
     && StoreGrows(Next(s, run[0]), run[1..]))
  }

  ghost predicate RequestKept(s: State) {
    && (forall repo :: repo in s.history.requested ==> repo in s.repos)
    && (s.rerun || forall repo :: repo in s.history.requested ==> repo in s.history.snapshot)
  }

  lemma {:induction false} RunKeepsRequest(s: State, run: seq<Event>, t: State)
    requires Inv(s) && RequestKept(s) && Leads(s, run, t) && StoreGrows(s, run)
    ensures RequestKept(t)
    decreases |run|
  {
    if run != [] {
      NextKeepsInv(s, run[0]);
      assert RequestKept(Next(s, run[0]));
      RunKeepsRequest(Next(s, run[0]), run[1..], t);
    }
  }

  // A request that comes during a pass is followed by another one.
  lemma {:induction false} RerunBeginsAPass(s: State, run: seq<Event>, t: State)
    requires Inv(s) && Leads(s, run, t) && s.rerun && !t.rerun
    ensures s.history.passes < t.history.passes
    decreases |run|
  {
    var s' := Next(s, run[0]);
    NextKeepsInv(s, run[0]);
    RunLoses(s', run[1..], t);
    if s'.rerun {
      OneEventLoses(s, run[0]);
      RerunBeginsAPass(s', run[1..], t);
    }
  }

  /** If no repository is removed after the last request and no pass is cut short, everything listed at the request has
      been attempted at rest. */
  lemma NothingRequestedIsMissed(before: seq<Event>, s: State, after: seq<Event>, t: State)
    requires Leads(INITIAL, before, s) && Leads(Next(s, Request), after, t) && t.phase.Idle?
    requires StoreGrows(Next(s, Request), after) && !PassIsCut(Next(s, Request), after, t.history.passes)
    ensures forall repo :: repo in t.history.requested && IsLocalGit(repo) ==> IsProbed(t.history, repo)
  {
    RunKeepsInv(INITIAL, before, s);
    NextKeepsInv(s, Request);
    RequestBeginsOrQueues(s);
    var asked := Next(s, Request);
    RunKeepsInv(asked, after, t);
    RunKeepsRequest(asked, after, t);
    NothingIsLostSince(asked, after, t);
    AllRequestedProbed(t);
  }

  lemma AllRequestedProbed(t: State)
    requires Inv(t) && t.phase.Idle? && RequestKept(t) && !Lost(t)
    ensures forall repo :: repo in t.history.requested && IsLocalGit(repo) ==> IsProbed(t.history, repo)
  {
    LostMeansUnprobed(t);
  }

  lemma RequestBeginsOrQueues(s: State)
    requires Inv(s)
    ensures var t := Next(s, Request); RequestKept(t) && (t.rerun || !Lost(t))
    ensures var t := Next(s, Request);
            && t.repos == s.repos && t.history.requested == s.repos && t.history.requestedAt == t.history.now
            && !t.phase.Idle? && t.rerun == !s.phase.Idle?
            && (t.rerun || (t.history.snapshot == s.repos && t.history.snapshotAt == t.history.now))
  {
  }

  lemma NothingIsLostSince(asked: State, after: seq<Event>, t: State)
    requires Inv(asked) && (asked.rerun || !Lost(asked))
    requires Leads(asked, after, t) && !t.rerun && !PassIsCut(asked, after, t.history.passes)
    ensures !Lost(t)
  {
    RunLoses(asked, after, t);
    if asked.rerun {
      RerunBeginsAPass(asked, after, t);
    }
  }

  /** It is not enough that a repository was listed at the request: if it is gone when the queued rerun begins, it stays
      unattempted, without a throw. */
  lemma RemovedBeforeTheRerunIsMissed(a: Repo, b: Repo) returns (run: seq<Event>, t: State)
    requires IsLocalGit(a) && IsLocalGit(b) && LocationOf(a) != LocationOf(b)
    ensures run == [StoreChanges([a]), Request, StoreChanges([a, b]), Request, StoreChanges([a]), ProbeAnswers,
                    PassSettles, PassSettles]
    ensures Leads(INITIAL, run, t) && NeverThrows(run) && t.phase.Idle?
    ensures b in t.history.requested && !IsProbed(t.history, b)
  {
    var s := RequestedDuringAPass(a, b);
    run, t := [StoreChanges([a]), Request, StoreChanges([a, b]), Request, StoreChanges([a])], s;
    CandidatesOfOne(a);
    run, t := AndThen(run, t, ProbeAnswers);
    run, t := AndThen(run, t, PassSettles);
    run, t := AndThen(run, t, PassSettles);
    ProbedInRun(run, t, b);
  }

  lemma AndThen(run: seq<Event>, s: State, e: Event) returns (longer: seq<Event>, t: State)
    requires Leads(INITIAL, run, s) && CanHappen(s, e)
    ensures longer == run + [e] && t == Next(s, e) && Leads(INITIAL, longer, t)
  {
    LeadsOn(INITIAL, run, s, e);
    longer, t := run + [e], Next(s, e);
  }

  // The second request comes while `a` is being probed, and `b` is listed just then.
  lemma RequestedDuringAPass(a: Repo, b: Repo) returns (s: State)
    requires Eligible(a)
    ensures Leads(INITIAL, [StoreChanges([a]), Request, StoreChanges([a, b]), Request, StoreChanges([a])], s)
    ensures s.attempted == {LocationOf(a)} && s.phase == Probing([]) && s.rerun
    ensures s.repos == [a] && s.history.requested == [a, b]
  {
    var run: seq<Event>, t := [], INITIAL;
    CandidatesOfOne(a);
    run, t := AndThen(run, t, StoreChanges([a]));
    run, t := AndThen(run, t, Request);
    assert t.phase == Probing([]) && t.attempted == {LocationOf(a)};
    run, t := AndThen(run, t, StoreChanges([a, b]));
    run, t := AndThen(run, t, Request);
    run, t := AndThen(run, t, StoreChanges([a]));
    assert run == [StoreChanges([a]), Request, StoreChanges([a, b]), Request, StoreChanges([a])];
    s := t;
  }

  lemma CandidatesOfOne(a: Repo)
    requires Eligible(a)
    ensures Candidates([a], {}) == [a] && Candidates([a], {LocationOf(a)}) == []
  {
    assert [a][1..] == [];
  }

  /** Git is called only on the paths of local repositories that were listed when some pass began; and if nothing ever
      throws, at rest it has been called for every one of them. */
  lemma ProbedIffListed(run: seq<Event>, t: State)
    requires Leads(INITIAL, run, t)
    ensures forall p :: p in t.history.probes ==>
              exists repo :: repo in t.history.listed && IsLocalGit(repo) && repo.path == p.path
    ensures NeverThrows(run) && t.phase.Idle? ==>
              forall repo :: repo in t.history.listed && IsLocalGit(repo) ==> IsProbed(t.history, repo)
  {
    RunKeepsInv(INITIAL, run, t);
    RunAttemptsListed(INITIAL, run, t);
    forall p | p in t.history.probes
      ensures exists repo :: repo in t.history.listed && IsLocalGit(repo) && repo.path == p.path
    {
      assert p.location in Locations(t.history.listed);
    }
    forall repo ensures IsProbed(t.history, repo) <==> LocationOf(repo) in t.attempted { ProbedIffAttempted(t, repo); }
  }

  ghost function Ahead(s: State): set<Location> { Locations(Listing(Todo(s))) }

  ghost predicate NothingMissing(s: State) { Locations(s.history.listed) <= s.attempted + Ahead(s) }

  lemma {:induction false} RunAttemptsListed(s: State, run: seq<Event>, t: State)
    requires Inv(s) && Leads(s, run, t) && s.attempted + Ahead(s) <= Locations(s.history.listed)
    ensures t.attempted + Ahead(t) <= Locations(t.history.listed)
    ensures NeverThrows(run) && NothingMissing(s) ==> NothingMissing(t)
    decreases |run|
  {
    if run != [] {
      NextKeepsInv(s, run[0]);
      EventAttemptsListed(s, run[0]);
      RunAttemptsListed(Next(s, run[0]), run[1..], t);
      assert run[0] in run;
    }
  }

  lemma StartProbeAttempts(s: State, todo: seq<Repo>)
    requires forall repo :: repo in todo ==> Eligible(repo)
    ensures var t := StartProbe(s, todo); t.attempted + Ahead(t) == s.attempted + Locations(Listing(todo))
  {
    if todo != [] {
      assert todo == [todo[0]] + todo[1..];
      assert Locations(Listing(todo)) == {LocationOf(todo[0])} + Locations(Listing(todo[1..]));
    }
  }

  lemma EventAttemptsListed(s: State, e: Event)
    requires Inv(s) && CanHappen(s, e) && s.attempted + Ahead(s) <= Locations(s.history.listed)
    ensures var t := Next(s, e); t.attempted + Ahead(t) <= Locations(t.history.listed)
    ensures !e.StoreThrows? && NothingMissing(s) ==> NothingMissing(Next(s, e))
  {
    if e.ProbeAnswers? {
      StartProbeAttempts(Later(s), Todo(s));
    } else if Next(s, e).history.passes > s.history.passes {
      var todo := Candidates(s.repos, s.attempted);
      StartProbeAttempts(s, todo);
      assert Locations(Listing(todo)) == Locations(Listing(s.repos)) - s.attempted;
      assert Locations(s.history.listed + Listing(s.repos)) ==
             Locations(s.history.listed) + Locations(Listing(s.repos));
    }
  }

  // What the end of a pass leaves: rest, or the queued pass.
  lemma SettledOrQueued(run: seq<Event>, s: State)
    requires Leads(INITIAL, run, s) && Inv(s) && s.phase.Settling?
    ensures var t := Next(s, PassSettles);
            && Inv(t) && Leads(INITIAL, run + [PassSettles], t)
            && (t.phase.Idle? <==> !s.rerun) && !t.rerun && t.history.requestedAt <= t.history.snapshotAt
            && (s.rerun ==> t.history.snapshot == s.repos && t.history.passes == s.history.passes + 1)
            && (!s.rerun ==>
                  (PassIsCut(INITIAL, run + [PassSettles], t.history.passes) <==>
                   exists repo :: repo in t.history.snapshot && IsLocalGit(repo) && !IsProbed(t.history, repo)))
  {
    LeadsOn(INITIAL, run, s, PassSettles);
    NextKeepsInv(s, PassSettles);
    if !s.rerun {
      Quiescence(run + [PassSettles], Next(s, PassSettles));
    }
  }

  // ------------------------------------------------------------------------ termination

  /** How many more events of its own a pass and its queued rerun can take, if nothing new is requested. */
  function Remaining(s: State): nat {
    (match s.phase
     case Idle => 0
     case Settling => 1
     case Probing(todo) => |todo| + 2)
    + (if s.rerun then |s.repos| + 2 else 0)
  }

  lemma PassesComeToRest(s: State, e: Event)
    requires Inv(s) && CanHappen(s, e) && !e.Request? && !e.StoreChanges?
    ensures Remaining(Next(s, e)) < Remaining(s)
    ensures Remaining(s) > 0 && (Remaining(Next(s, e)) == 0 <==> Next(s, e).phase.Idle?)
  {
    NextKeepsInv(s, e);
  }

  // ----------------------------------------------------------------- the module's variables

  /** Git is called with the path of a local repository of the snapshot, whose location no earlier pass has probed. */
  ghost predicate IsNextProbe(repo: Repo, before: History, after: History) {
    && repo in after.snapshot && IsLocalGit(repo)
    && after.probes == before.probes + [Probe(repo.path, LocationOf(repo), after.passes)]
    && forall probe :: probe in before.probes && probe.location == LocationOf(repo) ==> probe.pass == after.passes
  }

  lemma AnswerGoesOn(s: State)
    requires Inv(s) && s.phase.Probing?
    ensures var t := Next(s, ProbeAnswers);
            && t.history.passes == s.history.passes
            && (t.phase.Probing? ==> exists repo :: IsNextProbe(repo, s.history, t.history))
            && (!t.phase.Probing? ==>
                  forall repo :: repo in t.history.snapshot && IsLocalGit(repo) ==> IsProbed(t.history, repo))
  {
    NextKeepsInv(s, ProbeAnswers);
    var t := Next(s, ProbeAnswers);
    if t.phase.Probing? {
      assert IsNextProbe(Todo(s)[0], s.history, t.history);
    } else {
      LostMeansUnprobed(t);
    }
  }

  class Enrichment {
    var repos: seq<Repo>
    var attemptedLocations: set<Location>
    var enrichmentInFlight: Phase
    var rerunRequested: bool
    ghost var history: History
    ghost var run: seq<Event>

    ghost function View(): State
      reads this
    {
      State(repos, attemptedLocations, enrichmentInFlight, rerunRequested, history)
    }

    /** The variables are what the events so far have made of them, so that everything said about runs holds of them. */
    ghost predicate Valid()
      reads this
    {
      Leads(INITIAL, run, View()) && Inv(View())
    }

    constructor ()
      ensures Valid() && View() == INITIAL && run == []
    {
      repos, attemptedLocations, enrichmentInFlight, rerunRequested := [], {}, Idle, false;
      history, run := INITIAL.history, [];
    }

    lemma Happens(e: Event)
      requires Valid() && CanHappen(View(), e)
      ensures Inv(Next(View(), e)) && Leads(INITIAL, run + [e], Next(View(), e))
    {
      LeadsOn(INITIAL, run, View(), e);
      NextKeepsInv(View(), e);
    }

    // The loop of a pass, up to its next await.
    method NextCandidate(todo: seq<Repo>)
      modifies this`attemptedLocations, this`enrichmentInFlight, this`history
      ensures View() == StartProbe(old(View()), todo)
    {
      if todo == [] {
        enrichmentInFlight := Settling;
        return;
      }
      attemptedLocations := attemptedLocations + {LocationOf(todo[0])};
      history := history.(probes := history.probes + [ProbeOf(todo[0], history.passes)]);
      enrichmentInFlight := Probing(todo[1..]);
    }

    // Called from outside and by a settling pass.
    method EnrichRepoGitUsernames()
      modifies this`attemptedLocations, this`enrichmentInFlight, this`rerunRequested, this`history
      ensures View() == Enrich(old(View()))
    {
      if !enrichmentInFlight.Idle? {
        rerunRequested := true;
        return;
      }
      history := history.(running := history.running + 1, passes := history.passes + 1, snapshot := repos,
                          snapshotAt := history.now, listed := history.listed + Listing(repos), dropped := []);
      NextCandidate(Candidates(repos, attemptedLocations));
    }

    method StoreChanged(repos': seq<Repo>)
      requires Valid()
      modifies this
      ensures Valid() && run == old(run) + [StoreChanges(repos')] && repos == repos'
      ensures attemptedLocations == old(attemptedLocations) && enrichmentInFlight == old(enrichmentInFlight)
    {
      Happens(StoreChanges(repos'));
      history := history.(now := history.now + 1);
      repos, run := repos', run + [StoreChanges(repos')];
    }

    /** A request is served by a pass that begins with the repositories of this moment, or by one that is queued. */
    method Requested()
      requires Valid()
      modifies this
      ensures Valid() && run == old(run) + [Request] && !enrichmentInFlight.Idle?
      ensures history.requested == repos == old(repos) && history.requestedAt == history.now
      ensures rerunRequested || (history.snapshot == repos && history.snapshotAt == history.now)
      ensures rerunRequested <==> !old(enrichmentInFlight).Idle?
    {
      Happens(Request);
      RequestBeginsOrQueues(View());
      ghost var next := Next(View(), Request);
      history := history.(now := history.now + 1, requested := repos, requestedAt := history.now + 1);
      EnrichRepoGitUsernames();
      run := run + [Request];
      assert View() == next;
    }

    /** A pass goes on with a location that no earlier pass has probed, or has attempted all it set out to. */
    method ProbeAnswered()
      requires Valid() && enrichmentInFlight.Probing?
      modifies this
      ensures Valid() && run == old(run) + [ProbeAnswers] && history.passes == old(history.passes)
      ensures enrichmentInFlight.Probing? ==>
                exists repo :: IsNextProbe(repo, old(history), history)
      ensures !enrichmentInFlight.Probing? ==>
                forall repo :: repo in history.snapshot && IsLocalGit(repo) ==> IsProbed(history, repo)
    {
      Happens(ProbeAnswers);
      AnswerGoesOn(View());
      ghost var next := Next(View(), ProbeAnswers);
      history := history.(now := history.now + 1);
      NextCandidate(enrichmentInFlight.todo);
      run := run + [ProbeAnswers];
      assert View() == next;
    }

    /** What was still to come in the pass is given up. */
    method StoreThrew()
      requires Valid() && enrichmentInFlight.Probing?
      modifies this
      ensures Valid() && run == old(run) + [StoreThrows] && enrichmentInFlight.Settling?
      ensures attemptedLocations == old(attemptedLocations) && history.probes == old(history.probes)
    {
      Happens(StoreThrows);
      history := history.(now := history.now + 1);
      history := history.(dropped := enrichmentInFlight.todo);
      enrichmentInFlight, run := Settling, run + [StoreThrows];
    }

    // The end of `finally`.
    method Settle()
      requires enrichmentInFlight.Settling?
      modifies this`attemptedLocations, this`enrichmentInFlight, this`rerunRequested, this`history
      ensures View() == Next(old(View()), PassSettles)
    {
      history := history.(now := history.now + 1, running := history.running - 1);
      enrichmentInFlight := Idle;
      if rerunRequested {
        rerunRequested := false;
        EnrichRepoGitUsernames();
      }
    }

    /** A settled pass leaves nothing of its snapshot unattempted, unless it was cut short; or a queued pass begins with
        the repositories of this moment, no older than the last request. */
    method PassSettled()
      requires Valid() && enrichmentInFlight.Settling?
      modifies this
      ensures Valid() && run == old(run) + [PassSettles] && !rerunRequested
      ensures enrichmentInFlight.Idle? <==> !old(rerunRequested)
      ensures enrichmentInFlight.Idle? ==>
                (PassIsCut(INITIAL, run, history.passes) <==>
                 exists repo :: repo in history.snapshot && IsLocalGit(repo) && !IsProbed(history, repo))
      ensures !enrichmentInFlight.Idle? ==> history.snapshot == repos && history.passes == old(history.passes) + 1
      ensures history.requestedAt <= history.snapshotAt
    {
      ghost var next := Next(View(), PassSettles);
      SettledOrQueued(run, View());
      Settle();
      run := run + [PassSettles];
      assert View() == next;
    }
  }
}
