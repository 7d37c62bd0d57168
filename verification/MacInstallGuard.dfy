/** The macOS install guard: src/main/updater-mac-install.ts, with the before-quit and update-downloaded listeners of
    src/main/updater-events.ts that drive it, and the two entry points of an install in src/main/updater.ts. */
module MacInstallGuard {
  import opened Basics

  const MAC_INSTALL_READY_TIMEOUT_MS := 15000

  datatype UpdateStatus = Downloading(percent: int) | OtherStatus

  /** What happened to requests to quit: one was held back, the guard's own timeout let the app go, the installer became
      ready, everything was reset, or an install took over. */
  datatype Entry = Held(at: int) | TimedOut(at: int) | BecameReady(hasNewer: bool) | WasReset | InstallStarted

  datatype State = State(
    isDarwin: bool,
    squirrelReady: bool,
    installRequested: bool,       // installRequestedAfterSquirrelReady
    inFlight: bool,               // quitAndInstallInFlight
    bypassOnce: bool,             // bypassMacInstallGuardOnce
    timeout: Option<int>,         // when pendingInstallTimeout is due
    inProgress: bool,             // quitAndInstallInProgress
    delaySet: bool,               // pendingQuitAndInstallTimer
    handoffs: nat,                // queued performQuitAndInstall calls
    now: int,
    log: seq<Entry>)

  function Initial(isDarwin: bool, now: int): State {
    State(isDarwin, false, false, false, false, None, false, false, 0, now, [])
  }

  // ------------------------------------------------------------------------------ events

  datatype Event =
    | Quits(status: UpdateStatus, hasNewer: bool)           // the app is about to quit
    | AsksToInstall(status: UpdateStatus, hasNewer: bool)   // quitAndInstall
    | TimerDue
    | SquirrelReady(hasNewer: bool)
    | Resets
    | DownloadBegins
    | InstallStarts(handedOff: bool)                        // performQuitAndInstall, queued or delayed
    | InstallIgnored                                        // the same, while an install is in progress
    | InstallFails                                          // resetQuitForUpdateState
    | TimePasses(ms: nat)

  predicate CanHappen(s: State, e: Event) {
    && (e.TimerDue? ==> s.timeout.Some? && s.timeout.value <= s.now)
    && (e.InstallStarts? ==> !s.inProgress && if e.handedOff then s.handoffs > 0 else s.delaySet)
    && (e.InstallIgnored? ==> s.inProgress && s.handoffs > 0)
    && (e.InstallFails? ==> s.inProgress)
  }

  predicate IsWaiting(s: State, status: UpdateStatus, hasNewer: bool) {
    s.isDarwin && !s.squirrelReady && hasNewer && status == Downloading(100)
  }

  function Hold(s: State): State {
    s.(installRequested := true,
       timeout := if s.timeout.Some? then s.timeout else Some(s.now + MAC_INSTALL_READY_TIMEOUT_MS),
       log := s.log + [Held(s.now)])
  }

  /** Whether the event is a request to quit or install that is held back. */
  predicate IsHeld(s: State, e: Event) {
    match e
    case Quits(status, hasNewer) => !s.bypassOnce && !s.inFlight && IsWaiting(s, status, hasNewer)
    case AsksToInstall(status, hasNewer) => !s.delaySet && !s.inProgress && IsWaiting(s, status, hasNewer)
    case _ => false
  }

  function Next(s: State, e: Event): State
    requires CanHappen(s, e)
  {
    match e
    case Quits(_, _) => if IsHeld(s, e) then Hold(s) else s.(bypassOnce := false)
    case AsksToInstall(_, _) => if IsHeld(s, e) then Hold(s) else s.(delaySet := s.delaySet || !s.inProgress)
    case TimerDue =>
      // the app quits, and that quit comes straight back through the listener, which consumes the bypass
      if !s.installRequested || s.inFlight then s.(timeout := None)
      else s.(timeout := None, installRequested := false, bypassOnce := false, log := s.log + [TimedOut(s.now)])
    case SquirrelReady(hasNewer) =>
      s.(squirrelReady := true, timeout := None, log := s.log + [BecameReady(hasNewer)],
         handoffs := if s.installRequested && hasNewer then s.handoffs + 1 else s.handoffs)
    case Resets => Cleared(s, false, WasReset)
    case DownloadBegins => Cleared(s, false, WasReset).(squirrelReady := false)
    case InstallStarts(handedOff) =>
      Cleared(s, true, InstallStarted).(inProgress := true, delaySet := false,
                                        handoffs := if handedOff then s.handoffs - 1 else s.handoffs)
    case InstallIgnored => s.(handoffs := s.handoffs - 1)
    case InstallFails => Cleared(s, false, WasReset).(inProgress := false)
    case TimePasses(ms) => s.(now := s.now + ms)
  }

  function Cleared(s: State, inFlight: bool, entry: Entry): State {
    s.(installRequested := false, inFlight := inFlight, bypassOnce := false, timeout := None, log := s.log + [entry])
  }

  ghost predicate Leads(s: State, run: seq<Event>, t: State)
    decreases |run|
  {
    if run == [] then s == t else CanHappen(s, run[0]) && Leads(Next(s, run[0]), run[1..], t)
  }

  lemma {:induction false} LeadsOn(s: State, run: seq<Event>, t: State, e: Event)
    requires Leads(s, run, t) && CanHappen(t, e)
    ensures Leads(s, run + [e], Next(t, e))
    decreases |run|
  {
    if run == [] {
      assert ([] + [e])[1..] == [];
    } else {
      assert (run + [e])[1..] == run[1..] + [e];
      LeadsOn(Next(s, run[0]), run[1..], t, e);
    }
  }

  // --------------------------------------------------------------- the fate of a held quit

  // Further attempts are held back too, and readiness without a newer version leaves the request standing.
  predicate LeavesOpen(entry: Entry) { entry.Held? || entry == BecameReady(false) }

  /** Nothing has happened since the quit was held back at entry `i` that decides about it. */
  ghost predicate Undecided(log: seq<Entry>, i: int) {
    0 <= i < |log| && log[i].Held? && forall j :: i < j < |log| ==> LeavesOpen(log[j])
  }

  ghost predicate DecidedAt(log: seq<Entry>, i: int, j: int) {
    && 0 <= i < j < |log| && log[i].Held? && !LeavesOpen(log[j])
    && forall k :: i < k < j ==> LeavesOpen(log[k])
  }

  predicate IsAnswer(entry: Entry) { entry.TimedOut? || entry.InstallStarted? || entry == BecameReady(true) }

  /** The app was let go, or the quit was handed to an install. */
  ghost predicate Answered(log: seq<Entry>, i: int) { exists j :: DecidedAt(log, i, j) && IsAnswer(log[j]) }

  ghost predicate Abandoned(log: seq<Entry>, i: int) { exists j :: DecidedAt(log, i, j) && !IsAnswer(log[j]) }

  /** The timer is armed on behalf of the quit, due within 15 seconds of it. */
  ghost predicate Waiting(s: State, i: int) {
    Undecided(s.log, i) && s.timeout.Some? && s.timeout.value <= s.log[i].at + 15_000
  }

  /** The quit held back at entry `i` still counts as a request to install. */
  ghost predicate Pending(log: seq<Entry>, i: int) {
    0 <= i < |log| && log[i].Held? && forall j :: i < j < |log| ==> log[j].Held? || log[j].BecameReady?
  }

  lemma OneMoreEntry(log: seq<Entry>, last: Entry, i: int)
    ensures Undecided(log, i) && !LeavesOpen(last) ==>
              if IsAnswer(last) then Answered(log + [last], i) else Abandoned(log + [last], i)
    ensures Undecided(log, i) && LeavesOpen(last) ==> Undecided(log + [last], i)
    ensures Undecided(log + [last], i) ==> LeavesOpen(last) && ((last.Held? && i == |log|) || Undecided(log, i))
    ensures Pending(log + [last], i) ==>
            (last.Held? && i == |log|) || ((last.Held? || last.BecameReady?) && Pending(log, i))
    ensures Pending(log, i) && (last.Held? || last.BecameReady?) ==> Pending(log + [last], i)
    ensures last.Held? ==> Undecided(log + [last], |log|) && Pending(log + [last], |log|)
  {
    var longer := log + [last];
    assert longer[|log|] == last;
    assert forall j :: 0 <= j < |log| ==> longer[j] == log[j];
    if Undecided(log, i) && !LeavesOpen(last) { assert DecidedAt(longer, i, |log|); }
  }

  lemma DecisionStands(log: seq<Entry>, longer: seq<Entry>, i: int)
    requires log <= longer
    ensures Answered(log, i) ==> Answered(longer, i) && !Abandoned(longer, i) && !Undecided(longer, i)
    ensures Abandoned(log, i) ==> Abandoned(longer, i) && !Answered(longer, i) && !Undecided(longer, i)
  {
    forall j | DecidedAt(log, i, j)
      ensures DecidedAt(longer, i, j) && log[j] == longer[j] && forall l :: DecidedAt(longer, i, l) ==> l == j
    {
    }
  }

  // --------------------------------------------------------------------------- invariant

  ghost predicate Inv(s: State) {
    && (s.timeout.Some? ==> s.installRequested && !s.squirrelReady)
    && (s.installRequested ==> s.timeout.Some? || s.squirrelReady)
    && (s.inFlight ==> !s.installRequested && s.timeout.None? && s.inProgress)
    && !(s.inProgress && s.delaySet)
    && !s.bypassOnce
    && LogExplains(s)
  }

  ghost predicate LogExplains(s: State) {
    // an install is requested exactly on behalf of a quit that was held back and not let go, reset or installed since
    && (s.installRequested <==> exists i :: Pending(s.log, i))
    // an armed timer is due 15 seconds after the first undecided attempt at the latest
    && (forall i :: Undecided(s.log, i) && s.timeout.Some? ==> Waiting(s, i))
    && (forall i :: 0 <= i < |s.log| && s.log[i].Held? ==> s.log[i].at <= s.now)
    && (s.timeout.Some? ==> s.timeout.value <= s.now + MAC_INSTALL_READY_TIMEOUT_MS)
  }

  lemma HoldKeepsInv(s: State)
    requires Inv(s) && !s.inFlight && !s.squirrelReady
    ensures Inv(Hold(s)) && Waiting(Hold(s), |s.log|)
  {
    forall i: int {
      OneMoreEntry(s.log, Held(s.now), i);
    }
    forall i | Undecided(Hold(s).log, i) ensures Waiting(Hold(s), i) {
      if i < |s.log| { UndecidedWaits(s, i); }
    }
  }

  // An undecided quit has its timer, or Squirrel is ready.
  lemma UndecidedWaits(s: State, i: int)
    requires Inv(s) && Undecided(s.log, i)
    ensures s.installRequested && !s.inFlight
    ensures (Waiting(s, i) <==> s.timeout.Some?) && (s.timeout.Some? <==> !s.squirrelReady)
  {
    assert Pending(s.log, i);
  }

  lemma NextKeepsInv(s: State, e: Event)
    requires Inv(s) && CanHappen(s, e)
    ensures Inv(Next(s, e)) && s.log <= Next(s, e).log
  {
    if IsHeld(s, e) {
      HoldKeepsInv(s);
    } else if Next(s, e).log != s.log {
      var last := Next(s, e).log[|s.log|];
      assert Next(s, e).log == s.log + [last];
      forall i: int {
        OneMoreEntry(s.log, last, i);
      }
    }
  }

  /** In every run the flags and the timer agree, and no bypass is left lying around. */
  lemma {:induction false} RunKeepsInv(s: State, run: seq<Event>, t: State)
    requires Inv(s) && Leads(s, run, t)
    ensures Inv(t) && t.isDarwin == s.isDarwin && s.log <= t.log
    decreases |run|
  {
    if run != [] {
      NextKeepsInv(s, run[0]);
      RunKeepsInv(Next(s, run[0]), run[1..], t);
    }
  }

  // --------------------------------------------------------------- promises about held quits

  predicate IsAnswering(e: Event) { e.TimerDue? || e.InstallStarts? || e == SquirrelReady(true) }

  predicate IsAbandoning(e: Event) { e.Resets? || e.DownloadBegins? || e.InstallFails? }

  /** What follows a held quit leaves it hanging: it is abandoned before it is answered; or it is still undecided, and
      readiness without a newer version has disarmed its timer. */
  predicate Hangs(run: seq<Event>, disarmed: bool) {
    if run == [] then disarmed
    else if IsAbandoning(run[0]) then true
    else if IsAnswering(run[0]) then false
    else Hangs(run[1..], disarmed || run[0].SquirrelReady?)
  }

  // One event leaves an undecided quit undecided, or decides it.
  lemma OneEventDecides(s: State, e: Event, i: int)
    requires Inv(s) && Undecided(s.log, i) && CanHappen(s, e)
    ensures var t := Next(s, e);
            if IsAnswering(e) then Answered(t.log, i)
            else if IsAbandoning(e) then Abandoned(t.log, i)
            else Undecided(t.log, i) && t.squirrelReady == (s.squirrelReady || e.SquirrelReady?)
  {
    UndecidedWaits(s, i);
    if Next(s, e).log != s.log {
      var last := Next(s, e).log[|s.log|];
      assert Next(s, e).log == s.log + [last];
      OneMoreEntry(s.log, last, i);
    }
  }

  lemma InstallTakesOver(s: State, handedOff: bool)
    requires Inv(s) && CanHappen(s, InstallStarts(handedOff))
    ensures forall i :: Undecided(s.log, i) ==> Answered(s.log + [InstallStarted], i)
  {
    forall i | Undecided(s.log, i) ensures Answered(s.log + [InstallStarted], i) {
      OneEventDecides(s, InstallStarts(handedOff), i);
    }
  }

  lemma {:induction false} UndecidedQuitIsAnsweredIff(s: State, run: seq<Event>, t: State, i: int)
    requires Inv(s) && Undecided(s.log, i) && Leads(s, run, t)
    ensures Waiting(t, i) || Answered(t.log, i) <==> !Hangs(run, s.squirrelReady)
    decreases |run|
  {
    if run == [] {
      UndecidedWaits(s, i);
    } else {
      var s' := Next(s, run[0]);
      NextKeepsInv(s, run[0]);
      OneEventDecides(s, run[0], i);
      if IsAnswering(run[0]) || IsAbandoning(run[0]) {
        RunKeepsInv(s', run[1..], t);
        DecisionStands(s'.log, t.log, i);
      } else {
        UndecidedQuitIsAnsweredIff(s', run[1..], t, i);
      }
    }
  }

  /** A quit held back in any run has been let go or handed to an install, or has a timer due within 15 seconds of it,
      exactly unless what follows it leaves it hanging. */
  lemma HeldQuitIsAnsweredIff(isDarwin: bool, start: int, before: seq<Event>, s: State, ask: Event, after: seq<Event>,
                              t: State)
    requires Leads(Initial(isDarwin, start), before, s) && CanHappen(s, ask) && IsHeld(s, ask)
    requires Leads(Next(s, ask), after, t)
    ensures |s.log| < |t.log| && t.log[|s.log|] == Held(s.now)
    ensures Waiting(t, |s.log|) || Answered(t.log, |s.log|) <==> !Hangs(after, false)
  {
    RunKeepsInv(Initial(isDarwin, start), before, s);
    HoldKeepsInv(s);
    RunKeepsInv(Next(s, ask), after, t);
    UndecidedQuitIsAnsweredIff(Next(s, ask), after, t, |s.log|);
  }

  // ------------------------------------------------------------ if nobody asks again

  /** No install is queued, delayed or in progress. */
  predicate NoInstallComing(s: State) { s.handoffs == 0 && !s.delaySet && !s.inProgress }

  predicate Unattended(run: seq<Event>) { forall e :: e in run ==> !e.Quits? && !e.AsksToInstall? }

  /** Since entry `i` neither the timer nor an install has ended the app. */
  ghost predicate NotEnded(log: seq<Entry>, i: nat) {
    forall j :: i < j < |log| ==> !log[j].TimedOut? && !log[j].InstallStarted?
  }

  /** Nothing has ended the app since the quit was held back, and nothing is on its way that would. */
  ghost predicate Trapped(s: State, i: nat) { s.timeout.None? && NoInstallComing(s) && NotEnded(s.log, i) }

  lemma {:induction false} TrappedStays(s: State, run: seq<Event>, t: State, i: nat)
    requires Inv(s) && Trapped(s, i) && !s.installRequested && i < |s.log| && Unattended(run) && Leads(s, run, t)
    ensures Trapped(t, i)
    decreases |run|
  {
    if run != [] {
      assert run[0] in run;
      NextKeepsInv(s, run[0]);
      TrappedStays(Next(s, run[0]), run[1..], t, i);
    }
  }

  // A handoff is queued, or the app has been ended; an install in progress has started since.
  ghost predicate Freed(s: State, i: nat) { s.handoffs > 0 || !NotEnded(s.log, i) }

  lemma OneEventFrees(s: State, e: Event, i: nat)
    requires Freed(s, i) && (s.inProgress ==> !NotEnded(s.log, i)) && i < |s.log| && CanHappen(s, e)
    requires s.log <= Next(s, e).log
    ensures Freed(Next(s, e), i) && (Next(s, e).inProgress ==> !NotEnded(Next(s, e).log, i))
  {
    var log := Next(s, e).log;
    if e.InstallStarts? { assert log[|s.log|].InstallStarted?; }
    if !NotEnded(s.log, i) {
      var j :| i < j < |s.log| && (s.log[j].TimedOut? || s.log[j].InstallStarted?);
      assert log[j] == s.log[j];
    }
  }

  lemma {:induction false} FreedStays(s: State, run: seq<Event>, t: State, i: nat)
    requires Inv(s) && Freed(s, i) && (s.inProgress ==> !NotEnded(s.log, i)) && i < |s.log| && Leads(s, run, t)
    ensures Freed(t, i)
    decreases |run|
  {
    if run != [] {
      var s' := Next(s, run[0]);
      NextKeepsInv(s, run[0]);
      OneEventFrees(s, run[0], i);
      FreedStays(s', run[1..], t, i);
    }
  }

  lemma {:induction false} UndecidedQuitIsTrappedIff(s: State, run: seq<Event>, t: State, i: nat)
    requires Inv(s) && Undecided(s.log, i) && NoInstallComing(s) && Unattended(run) && Leads(s, run, t)
    ensures Trapped(t, i) <==> Hangs(run, s.squirrelReady)
    decreases |run|
  {
    UndecidedWaits(s, i);
    if run != [] {
      assert run[0] in run;
      var s' := Next(s, run[0]);
      NextKeepsInv(s, run[0]);
      OneEventDecides(s, run[0], i);
      if IsAnswering(run[0]) {
        if run[0].TimerDue? { assert s'.log[|s.log|].TimedOut?; }
        FreedStays(s', run[1..], t, i);
      } else if IsAbandoning(run[0]) {
        TrappedStays(s', run[1..], t, i);
      } else {
        UndecidedQuitIsTrappedIff(s', run[1..], t, i);
      }
    }
  }

  /** If no other install was on its way and nobody asks again, nothing ends the app and nothing is on its way that
      would, exactly if what follows leaves the held quit hanging, however much time passes. */
  lemma HeldQuitIsTrappedIff(isDarwin: bool, start: int, before: seq<Event>, s: State, ask: Event, after: seq<Event>,
                             t: State)
    requires Leads(Initial(isDarwin, start), before, s) && CanHappen(s, ask) && IsHeld(s, ask) && NoInstallComing(s)
    requires Leads(Next(s, ask), after, t) && Unattended(after)
    ensures Trapped(t, |s.log|) <==> Hangs(after, false)
  {
    RunKeepsInv(Initial(isDarwin, start), before, s);
    HoldKeepsInv(s);
    UndecidedQuitIsTrappedIff(Next(s, ask), after, t, |s.log|);
  }

  /** Runs that leave a quit hanging exist: a quit, then a reset, a new download or readiness without a newer version,
      and any amount of time. A newer readiness after that still serves the quit, if it was neither reset nor begun
      anew. */
  lemma HangingRuns(start: int, e: Event, ms: nat) returns (run: seq<Event>, t: State)
    requires e.Resets? || e.DownloadBegins? || e == SquirrelReady(false)
    ensures run == [Quits(Downloading(100), true), e, TimePasses(ms)] && Leads(Initial(true, start), run, t)
    ensures t.now == start + ms && Trapped(t, 0)
    ensures Answered(Next(t, SquirrelReady(true)).log, 0) <==> e.SquirrelReady?
    ensures Next(t, SquirrelReady(true)).handoffs == if e.SquirrelReady? then 1 else 0
  {
    var s, quit := Initial(true, start), Quits(Downloading(100), true);
    var held := Next(s, quit);
    var next := Next(held, e);
    t := Next(next, TimePasses(ms));
    LeadsOn(s, [], s, quit);
    LeadsOn(s, [] + [quit], held, e);
    LeadsOn(s, [] + [quit] + [e], next, TimePasses(ms));
    run := [] + [quit] + [e] + [TimePasses(ms)];
    var log := Next(t, SquirrelReady(true)).log;
    assert log == [Held(start), if e.SquirrelReady? then BecameReady(false) else WasReset, BecameReady(true)];
    assert DecidedAt(log, 0, if e.SquirrelReady? then 2 else 1);
  }

  /** When Squirrel becomes ready, the install is handed off exactly if the update is newer and a quit was held back
      that has not been let go, reset or installed since. */
  lemma HandoffServesAHeldQuit(isDarwin: bool, start: int, run: seq<Event>, t: State, hasNewer: bool)
    requires Leads(Initial(isDarwin, start), run, t)
    ensures Next(t, SquirrelReady(hasNewer)).handoffs == t.handoffs + 1 <==> hasNewer && exists i :: Pending(t.log, i)
  {
    RunKeepsInv(Initial(isDarwin, start), run, t);
  }

  /** An armed timer always quits the app: its request stands, no install is under way, and the quit it issues behind
      the bypass passes the listener, which uses the bypass up. Afterwards nothing is held back. */
  lemma TimeoutQuitIsLetThrough(isDarwin: bool, start: int, run: seq<Event>, t: State, status: UpdateStatus,
                                hasNewer: bool)
    requires Leads(Initial(isDarwin, start), run, t) && CanHappen(t, TimerDue)
    ensures t.installRequested && !t.inFlight
    ensures var quitting := t.(timeout := None, installRequested := false, bypassOnce := true,
                               log := t.log + [TimedOut(t.now)]);
            !IsHeld(quitting, Quits(status, hasNewer)) && Next(quitting, Quits(status, hasNewer)) == Next(t, TimerDue)
    ensures !exists i :: Pending(Next(t, TimerDue).log, i)
  {
    RunKeepsInv(Initial(isDarwin, start), run, t);
    NextKeepsInv(t, TimerDue);
  }

  // ------------------------------------------------------- which quits are held, by the run

  ghost predicate StagedAt(run: seq<Event>, k: int) {
    0 <= k < |run| && run[k].SquirrelReady? && forall j :: k < j < |run| ==> !run[j].DownloadBegins?
  }

  ghost predicate InstallingAt(run: seq<Event>, k: int) {
    0 <= k < |run| && run[k].InstallStarts? && forall j :: k < j < |run| ==> !IsAbandoning(run[j])
  }

  /** The installer has become ready, and no download has begun since. */
  ghost predicate Staged(run: seq<Event>) { exists k :: StagedAt(run, k) }

  /** An install has started, and nothing was reset or has failed since. */
  ghost predicate Installing(run: seq<Event>) { exists k :: InstallingAt(run, k) }

  ghost predicate FollowsRun(t: State, run: seq<Event>) {
    t.squirrelReady == Staged(run) && t.inFlight == Installing(run)
  }

  lemma OneMoreEvent(s: State, run: seq<Event>, e: Event)
    requires FollowsRun(s, run) && CanHappen(s, e)
    ensures FollowsRun(Next(s, e), run + [e])
  {
    StagedOn(run, e);
    InstallingOn(run, e);
  }

  lemma StagedOn(run: seq<Event>, e: Event)
    ensures Staged(run + [e]) <==> e.SquirrelReady? || (Staged(run) && !e.DownloadBegins?)
  {
    var longer := run + [e];
    assert longer[|run|] == e && forall k :: 0 <= k < |run| ==> longer[k] == run[k];
    assert StagedAt(longer, |run|) <==> e.SquirrelReady?;
    assert forall k :: k != |run| ==> (StagedAt(longer, k) <==> StagedAt(run, k) && !e.DownloadBegins?);
  }

  lemma InstallingOn(run: seq<Event>, e: Event)
    ensures Installing(run + [e]) <==> e.InstallStarts? || (Installing(run) && !IsAbandoning(e))
  {
    var longer := run + [e];
    assert longer[|run|] == e && forall k :: 0 <= k < |run| ==> longer[k] == run[k];
    assert InstallingAt(longer, |run|) <==> e.InstallStarts?;
    assert forall k :: k != |run| ==> (InstallingAt(longer, k) <==> InstallingAt(run, k) && !IsAbandoning(e));
  }

  lemma {:induction false} FlagsFollowRun(done: seq<Event>, s: State, run: seq<Event>, t: State)
    requires FollowsRun(s, done) && Leads(s, run, t)
    ensures FollowsRun(t, done + run)
    decreases |run|
  {
    if run == [] {
      assert done + [] == done;
    } else {
      OneMoreEvent(s, done, run[0]);
      FlagsFollowRun(done + [run[0]], Next(s, run[0]), run[1..], t);
      assert done + [run[0]] + run[1..] == done + run;
    }
  }

  /** Which quits are held back, by what happened before: those of macOS while a newer update is downloaded in full, the
      installer has not become ready since the last download began, and no install is under way; requests to install
      alike, unless an install is delayed or in progress. */
  lemma QuitIsHeldIff(isDarwin: bool, start: int, run: seq<Event>, t: State, status: UpdateStatus, hasNewer: bool)
    requires Leads(Initial(isDarwin, start), run, t)
    ensures IsHeld(t, Quits(status, hasNewer)) <==>
            isDarwin && hasNewer && status == Downloading(100) && !Staged(run) && !Installing(run)
    ensures IsHeld(t, AsksToInstall(status, hasNewer)) <==>
            isDarwin && hasNewer && status == Downloading(100) && !Staged(run) && !t.delaySet && !t.inProgress
  {
    RunKeepsInv(Initial(isDarwin, start), run, t);
    FlagsFollowRun([], Initial(isDarwin, start), run, t);
    assert [] + run == run;
  }

  // ------------------------------------------------------------------- the module's flags

  class Guard {
    const isDarwin: bool
    var squirrelReady: bool
    var installRequestedAfterSquirrelReady: bool
    var quitAndInstallInFlight: bool
    var bypassMacInstallGuardOnce: bool
    var pendingInstallTimeout: Option<int>
    var quitAndInstallInProgress: bool           // this and the next belong to updater.ts
    var pendingQuitAndInstallTimer: bool
    var handoffs: nat
    var now: int
    ghost var log: seq<Entry>
    ghost const started: int
    ghost var run: seq<Event>

    ghost function View(): State
      reads this
    {
      State(isDarwin, squirrelReady, installRequestedAfterSquirrelReady, quitAndInstallInFlight,
            bypassMacInstallGuardOnce, pendingInstallTimeout, quitAndInstallInProgress, pendingQuitAndInstallTimer,
            handoffs, now, log)
    }

    /** The flags are what the events so far have made of them, so that what is said of runs holds of the object. */
    ghost predicate Valid()
      reads this
    {
      Leads(Initial(isDarwin, started), run, View()) && Inv(View())
    }

    constructor (isDarwin: bool, now: int)
      ensures Valid() && View() == Initial(isDarwin, now) && run == []
    {
      this.isDarwin, this.now, started := isDarwin, now, now;
      squirrelReady, installRequestedAfterSquirrelReady, quitAndInstallInFlight := false, false, false;
      bypassMacInstallGuardOnce, pendingInstallTimeout := false, None;
      quitAndInstallInProgress, pendingQuitAndInstallTimer, handoffs, log, run := false, false, 0, [], [];
    }

    lemma Happens(e: Event)
      requires Valid() && CanHappen(View(), e)
      ensures Inv(Next(View(), e)) && Leads(Initial(isDarwin, started), run + [e], Next(View(), e))
    {
      LeadsOn(Initial(isDarwin, started), run, View(), e);
      NextKeepsInv(View(), e);
    }

    /** Time passes without anything else happening; a timer may become due. */
    method TimePasses(ms: nat)
      requires Valid()
      modifies this`now, this`run
      ensures Valid() && now == old(now) + ms && run == old(run) + [Event.TimePasses(ms)]
    {
      Happens(Event.TimePasses(ms));
      now, run := now + ms, run + [Event.TimePasses(ms)];
    }

    /** Every quit still undecided is given up. */
    method ResetMacInstallState()
      requires Valid()
      modifies this
      ensures Valid() && View() == Next(old(View()), Resets) && run == old(run) + [Resets]
      ensures forall i :: old(Undecided(log, i)) ==> Abandoned(log, i)
      ensures pendingInstallTimeout.None? && !quitAndInstallInFlight && !exists i :: Pending(log, i)
    {
      Happens(Resets);
      forall i | Undecided(log, i) { OneEventDecides(View(), Resets, i); }
      installRequestedAfterSquirrelReady := false;
      quitAndInstallInFlight := false;
      bypassMacInstallGuardOnce := false;
      pendingInstallTimeout := None;
      log, run := log + [WasReset], run + [Resets];
    }

    /** The same, and from now on quits can be held back again. */
    method BeginMacUpdateDownload()
      requires Valid()
      modifies this
      ensures Valid() && View() == Next(old(View()), DownloadBegins) && run == old(run) + [DownloadBegins]
      ensures forall i :: old(Undecided(log, i)) ==> Abandoned(log, i)
      ensures isDarwin ==> IsHeld(View(), Quits(Downloading(100), true))
    {
      Happens(DownloadBegins);
      ResetMacInstallState();
      squirrelReady := false;
      run := old(run) + [DownloadBegins];
    }

    /** A failed install is a reset after which another one can start. */
    method ResetQuitForUpdateState()
      requires Valid() && quitAndInstallInProgress
      modifies this
      ensures Valid() && View() == Next(old(View()), InstallFails) && run == old(run) + [InstallFails]
      ensures forall i :: old(Undecided(log, i)) ==> Abandoned(log, i)
      ensures !quitAndInstallInProgress && !quitAndInstallInFlight && pendingInstallTimeout.None?
    {
      Happens(InstallFails);
      ResetMacInstallState();
      quitAndInstallInProgress := false;
      run := old(run) + [InstallFails];
    }

    /** Called from the queue or by the delay. Unless one is in progress already, the install takes over: every quit
        still undecided is answered, and none is held back any more. */
    method PerformQuitAndInstall(handedOff: bool)
      requires Valid() && if handedOff then handoffs > 0 else pendingQuitAndInstallTimer
      modifies this
      ensures Valid() && quitAndInstallInProgress
      ensures run == old(run) + [if old(quitAndInstallInProgress) then InstallIgnored else InstallStarts(handedOff)]
      ensures old(quitAndInstallInProgress) ==> View() == old(View()).(handoffs := old(handoffs) - 1)
      ensures !old(quitAndInstallInProgress) ==> forall i :: old(Undecided(log, i)) ==> Answered(log, i)
      ensures !old(quitAndInstallInProgress) ==>
                quitAndInstallInFlight && forall status, hasNewer :: !IsHeld(View(), Quits(status, hasNewer))
    {
      ghost var e := if quitAndInstallInProgress then InstallIgnored else InstallStarts(handedOff);
      Happens(e);
      if !quitAndInstallInProgress { InstallTakesOver(View(), handedOff); }
      run := run + [e];
      if handedOff { handoffs := handoffs - 1; }
      if quitAndInstallInProgress { return; }
      StartInstall();
    }

    // The part of `performQuitAndInstall` behind its guard, up to its first await.
    method StartInstall()
      modifies this`quitAndInstallInProgress, this`pendingQuitAndInstallTimer, this`log,
               this`installRequestedAfterSquirrelReady, this`quitAndInstallInFlight, this`bypassMacInstallGuardOnce,
               this`pendingInstallTimeout
      ensures View() == Cleared(old(View()), true, InstallStarted).(inProgress := true, delaySet := false)
    {
      quitAndInstallInProgress, pendingQuitAndInstallTimer := true, false;
      MarkMacQuitAndInstallInFlight();
      log := log + [InstallStarted];
    }

    method MarkMacQuitAndInstallInFlight()
      modifies this`installRequestedAfterSquirrelReady, this`quitAndInstallInFlight, this`bypassMacInstallGuardOnce,
               this`pendingInstallTimeout
      ensures View() == Cleared(old(View()), true, InstallStarted).(log := log)
    {
      installRequestedAfterSquirrelReady := false;
      quitAndInstallInFlight := true;
      bypassMacInstallGuardOnce := false;
      pendingInstallTimeout := None;
    }

    method ConsumeMacInstallGuardBypass() returns (bypassed: bool)
      modifies this`bypassMacInstallGuardOnce
      ensures bypassed == old(bypassMacInstallGuardOnce) && !bypassMacInstallGuardOnce
    {
      if !bypassMacInstallGuardOnce { return false; }
      bypassMacInstallGuardOnce := false;
      return true;
    }

    /** A request that is held back has a timer due within 15 seconds, whoever makes it; both callers have made sure
        that no install is under way. */
    method DeferMacQuitUntilInstallerReady(status: UpdateStatus, hasNewer: bool) returns (deferred: bool)
      requires Inv(View()) && !quitAndInstallInFlight
      modifies this`installRequestedAfterSquirrelReady, this`pendingInstallTimeout, this`log
      ensures Inv(View()) && deferred == IsWaiting(old(View()), status, hasNewer)
      ensures View() == if deferred then Hold(old(View())) else old(View())
      ensures deferred ==> log == old(log) + [Held(now)] && Waiting(View(), |old(log)|)
      ensures forall i :: old(Waiting(View(), i)) ==>
              Waiting(View(), i) && pendingInstallTimeout == old(pendingInstallTimeout)
    {
      if !isDarwin || squirrelReady || !hasNewer || status != Downloading(100) { return false; }
      HoldKeepsInv(View());
      forall i: int { OneMoreEntry(log, Held(now), i); }
      installRequestedAfterSquirrelReady := true;
      log := log + [Held(now)];
      if pendingInstallTimeout.Some? { return true; }
      pendingInstallTimeout := Some(now + MAC_INSTALL_READY_TIMEOUT_MS);
      return true;
    }

    /** Which requests to install are held back: like quits, those for a newer update that is downloaded in full but not
        staged since, unless an install is delayed or in progress. One that is held back has a timer due within 15
        seconds; after any other an install is on its way. */
    method QuitAndInstall(status: UpdateStatus, hasNewer: bool) returns (deferred: bool)
      requires Valid()
      modifies this
      ensures Valid() && run == old(run) + [AsksToInstall(status, hasNewer)]
      ensures deferred <==>
                && !old(pendingQuitAndInstallTimer) && !old(quitAndInstallInProgress)
                && isDarwin && hasNewer && status == Downloading(100) && !Staged(old(run))
      ensures deferred ==> View() == Hold(old(View())) && Waiting(View(), |old(log)|)
      ensures !deferred ==> pendingQuitAndInstallTimer || quitAndInstallInProgress
      ensures !deferred ==> View() == old(View()).(delaySet := pendingQuitAndInstallTimer)
    {
      Happens(AsksToInstall(status, hasNewer));
      QuitIsHeldIff(isDarwin, started, run, View(), status, hasNewer);
      run := run + [AsksToInstall(status, hasNewer)];
      if pendingQuitAndInstallTimer || quitAndInstallInProgress { return false; }
      deferred := DeferMacQuitUntilInstallerReady(status, hasNewer);
      if !deferred {
        pendingQuitAndInstallTimer := true;
      }
    }

    // The before-quit listener.
    method ListenBeforeQuit(status: UpdateStatus, hasNewer: bool) returns (prevented: bool)
      requires Inv(View().(bypassOnce := false))
      modifies this`bypassMacInstallGuardOnce, this`installRequestedAfterSquirrelReady, this`pendingInstallTimeout,
               this`log
      ensures prevented == IsHeld(old(View()), Quits(status, hasNewer))
      ensures View() == Next(old(View()), Quits(status, hasNewer))
    {
      var bypassed := ConsumeMacInstallGuardBypass();
      if bypassed { return false; }
      if quitAndInstallInFlight { return false; }
      prevented := DeferMacQuitUntilInstallerReady(status, hasNewer);
    }

    /** Which quits are prevented follows from what happened before; one that is has a timer due within 15 seconds, and
        one that is not leaves everything as it was. */
    method OnBeforeQuit(status: UpdateStatus, hasNewer: bool) returns (prevented: bool)
      requires Valid()
      modifies this
      ensures Valid() && run == old(run) + [Quits(status, hasNewer)]
      ensures prevented <==>
                isDarwin && hasNewer && status == Downloading(100) && !Staged(old(run)) && !Installing(old(run))
      ensures prevented ==> View() == Hold(old(View())) && Waiting(View(), |old(log)|)
      ensures !prevented ==> View() == old(View())
    {
      Happens(Quits(status, hasNewer));
      QuitIsHeldIff(isDarwin, started, run, View(), status, hasNewer);
      if IsHeld(View(), Quits(status, hasNewer)) { HoldKeepsInv(View()); }
      prevented := ListenBeforeQuit(status, hasNewer);
      run := run + [Quits(status, hasNewer)];
    }

    /** An armed timer quits the app, that quit is always let through, and every quit still held back is answered. */
    method OnTimeout(status: UpdateStatus, hasNewer: bool) returns (quit: bool, prevented: bool)
      requires Valid() && pendingInstallTimeout.Some? && pendingInstallTimeout.value <= now
      modifies this
      ensures Valid() && View() == Next(old(View()), TimerDue) && run == old(run) + [TimerDue]
      ensures quit && !prevented && !exists i :: Pending(log, i)
      ensures forall i :: old(Undecided(log, i)) ==> Answered(log, i)
    {
      Happens(TimerDue);
      forall i | Undecided(log, i) { OneEventDecides(View(), TimerDue, i); }
      pendingInstallTimeout := None;
      if !installRequestedAfterSquirrelReady || quitAndInstallInFlight { return false, false; }
      installRequestedAfterSquirrelReady := false;
      log, run := log + [TimedOut(now)], run + [TimerDue];
      bypassMacInstallGuardOnce := true;
      prevented := ListenBeforeQuit(status, hasNewer);
      quit := true;
    }

    /** Readiness disarms the timer, and hands an install over exactly on behalf of a pending quit and a newer update;
        an undecided quit is thereby answered, or left to a later readiness if the update is not newer. */
    method HandleMacInstallerReady(hasNewer: bool)
      requires Valid()
      modifies this
      ensures Valid() && View() == Next(old(View()), SquirrelReady(hasNewer)) &&
              run == old(run) + [SquirrelReady(hasNewer)]
      ensures handoffs == old(handoffs) + (if hasNewer && old(exists i :: Pending(log, i)) then 1 else 0)
      ensures forall i :: old(Undecided(log, i)) ==> if hasNewer then Answered(log, i) else Undecided(log, i)
      ensures pendingInstallTimeout.None?
      ensures forall status, newer :: !IsHeld(View(), Quits(status, newer))
    {
      Happens(SquirrelReady(hasNewer));
      forall i | Undecided(log, i) { OneEventDecides(View(), SquirrelReady(hasNewer), i); }
      squirrelReady := true;
      pendingInstallTimeout := None;
      if installRequestedAfterSquirrelReady && hasNewer {
        handoffs := handoffs + 1;
      }
      log, run := log + [BecameReady(hasNewer)], run + [SquirrelReady(hasNewer)];
    }
  }
}
