/** The keep-awake controller: src/main/agent-awake-service.ts with src/main/linux-lid-sleep-assertion.ts and
    src/main/macos-system-sleep-assertion.ts. A failure inside `start` calls back into `refresh`, which calls `start`
    again; the clock does not move within one event. */
module KeepAwake {
  import opened Basics
  import opened AwakeDecision

  const RETRY_MS := 30_000

  datatype Platform = Linux | Darwin | OtherPlatform

  // systemd-inhibit and caffeinate follow one protocol; only the former can be missing for good.
  datatype Kind = LinuxLidSleep | MacosSystemSleep

  datatype SpawnOutcome = Spawned | SpawnMissing | SpawnFailed

  datatype Timer = Timer(id: nat, due: int)

  // ------------------------------------------------------------------- pacing of retries

  /** What a helper's history consists of. */
  datatype Entry = Attempt(at: int) | Failure(at: int) | Stopped

  ghost predicate NoStop(log: seq<Entry>, i: int, j: int)
    requires 0 <= i && j <= |log|
  {
    forall k :: i < k < j ==> !log[k].Stopped?
  }

  /** A failure that is not followed by a stop is never followed by another spawn within 30 seconds. */
  ghost predicate Paced(log: seq<Entry>) {
    forall i, j :: 0 <= i < j < |log| && log[i].Failure? && log[j].Attempt? && NoStop(log, i, j) ==>
      log[j].at >= log[i].at + 30_000
  }

  /** Every such failure is 30 seconds old, or the retry gate stays shut until it is. */
  ghost predicate Gated(log: seq<Entry>, now: int, retryNotBefore: Option<int>, unavailable: bool) {
    forall i :: 0 <= i < |log| && log[i].Failure? && NoStop(log, i, |log|) ==>
      || unavailable
      || now >= log[i].at + RETRY_MS
      || (retryNotBefore.Some? && retryNotBefore.value >= log[i].at + RETRY_MS)
  }

  ghost predicate Past(log: seq<Entry>, now: int) {
    forall i :: 0 <= i < |log| && !log[i].Stopped? ==> log[i].at <= now
  }

  ghost predicate KeepsPace(log: seq<Entry>, now: int, retryNotBefore: Option<int>, unavailable: bool) {
    Paced(log) && Past(log, now) && Gated(log, now, retryNotBefore, unavailable)
  }

  lemma LogBefore(log: seq<Entry>, e: Entry, i: int, j: int)
    requires 0 <= i && j <= |log|
    ensures NoStop(log + [e], i, j) <==> NoStop(log, i, j)
    ensures !e.Stopped? ==> (NoStop(log + [e], i, |log| + 1) <==> NoStop(log, i, |log|))
    ensures e.Stopped? && i < |log| ==> !NoStop(log + [e], i, |log| + 1)
  {
    var log' := log + [e];
    assert forall k :: 0 <= k < |log| ==> log'[k] == log[k];
    assert log'[|log|] == e;
  }

  /** An attempt behind an open gate keeps the pace. */
  lemma AttemptKeepsPace(log: seq<Entry>, now: int, retryNotBefore: Option<int>)
    requires KeepsPace(log, now, retryNotBefore, false)
    requires retryNotBefore.Some? ==> retryNotBefore.value <= now
    ensures KeepsPace(log + [Attempt(now)], now, None, false)
    ensures KeepsPace(log + [Attempt(now)], now, retryNotBefore, false)
  {
    forall i, j | 0 <= i && j <= |log| ensures NoStop(log + [Attempt(now)], i, j) <==> NoStop(log, i, j) {
      LogBefore(log, Attempt(now), i, j);
    }
    forall i | 0 <= i ensures NoStop(log + [Attempt(now)], i, |log| + 1) <==> NoStop(log, i, |log|) {
      LogBefore(log, Attempt(now), i, |log|);
    }
  }

  /** Recording a failure is safe once the gate is shut for 30 seconds, or for good. */
  lemma FailureKeepsPace(log: seq<Entry>, now: int)
    requires Paced(log) && Past(log, now)
    ensures KeepsPace(log + [Failure(now)], now, Some(now + RETRY_MS), false)
    ensures forall retryNotBefore :: KeepsPace(log + [Failure(now)], now, retryNotBefore, true)
  {
    forall i, j | 0 <= i && j <= |log| ensures NoStop(log + [Failure(now)], i, j) <==> NoStop(log, i, j) {
      LogBefore(log, Failure(now), i, j);
    }
  }

  lemma StopKeepsPace(log: seq<Entry>, now: int, unavailable: bool)
    requires Paced(log) && Past(log, now)
    ensures KeepsPace(log + [Stopped], now, None, unavailable)
  {
    forall i, j | 0 <= i && j <= |log| ensures NoStop(log + [Stopped], i, j) <==> NoStop(log, i, j) {
      LogBefore(log, Stopped, i, j);
    }
    var (log', n) := (log + [Stopped], |log| + 1);
    forall i | 0 <= i < |log| ensures !NoStop(log', i, n) {
      LogBefore(log, Stopped, i, |log|);
    }
  }

  // Time only makes failures older.
  lemma PaceOverTime(log: seq<Entry>, now: int, later: int, retryNotBefore: Option<int>, unavailable: bool)
    requires KeepsPace(log, now, retryNotBefore, unavailable) && now <= later
    ensures KeepsPace(log, later, retryNotBefore, unavailable)
  {
  }

  // ------------------------------------------------------------- calls into Electron and the system

  /** A call, and how it came out: `start` may throw, or return a blocker that does not hold; `stop` may throw or fail;
      `isStarted` may throw. */
  datatype Call =
    | StartCalled(result: Option<nat>, holds: bool)
    | StopCalled(id: nat, worked: bool)
    | IsStartedCalled(id: nat, answer: Option<bool>)
    | SpawnCalled(kind: Kind, outcome: SpawnOutcome)

  predicate WentWrong(c: Call) {
    match c
    case StartCalled(result, holds) => result.None? || !holds
    case StopCalled(_, worked) => !worked
    case IsStartedCalled(_, answer) => answer.None?
    case SpawnCalled(_, _) => false
  }

  /** No call since those of `before` went wrong with Electron's blocker. */
  ghost predicate Smooth(before: seq<Call>, calls: seq<Call>) {
    forall i :: |before| <= i < |calls| ==> !WentWrong(calls[i])
  }

  ghost predicate StartedSince(before: seq<Call>, calls: seq<Call>) {
    exists i :: |before| <= i < |calls| && calls[i].StartCalled?
  }

  ghost predicate StoppedSince(before: seq<Call>, calls: seq<Call>, id: nat) {
    exists i :: |before| <= i < |calls| && calls[i].StopCalled? && calls[i].id == id
  }

  /** Asked whether it is started, Electron did not say no. */
  ghost predicate FoundStartedSince(before: seq<Call>, calls: seq<Call>, id: nat) {
    exists i ::
      |before| <= i < |calls| && calls[i].IsStartedCalled? && calls[i].id == id && calls[i].answer != Some(false)
  }

  ghost predicate SpawnSince(before: seq<Call>, calls: seq<Call>, kind: Kind) {
    exists i :: |before| <= i < |calls| && calls[i].SpawnCalled? && calls[i].kind == kind
  }

  ghost predicate SpawnedSince(before: seq<Call>, calls: seq<Call>, kind: Kind) {
    exists i :: |before| <= i < |calls| && calls[i] == SpawnCalled(kind, Spawned)
  }

  lemma NoneYet(before: seq<Call>)
    ensures Smooth(before, before) && !StartedSince(before, before)
    ensures forall kind :: !SpawnSince(before, before, kind)
  {
  }

  lemma OneMore(before: seq<Call>, calls: seq<Call>, c: Call)
    requires before <= calls
    ensures before <= calls + [c]
    ensures Smooth(before, calls + [c]) <==> Smooth(before, calls) && !WentWrong(c)
    ensures StartedSince(before, calls) || c.StartCalled? ==> StartedSince(before, calls + [c])
    ensures c.StopCalled? ==> StoppedSince(before, calls + [c], c.id)
    ensures forall id :: StoppedSince(before, calls, id) ==> StoppedSince(before, calls + [c], id)
    ensures c.IsStartedCalled? && c.answer != Some(false) ==> FoundStartedSince(before, calls + [c], c.id)
    ensures forall kind :: SpawnSince(before, calls + [c], kind) <==>
              SpawnSince(before, calls, kind) || (c.SpawnCalled? && c.kind == kind)
  {
    var calls' := calls + [c];
    assert calls'[|calls|] == c;
    assert forall i :: 0 <= i < |calls| ==> calls'[i] == calls[i];
  }

  /** One more call, to `isStarted`, and what is made of its answer. */
  ghost predicate Asked(calls: seq<Call>, calls': seq<Call>, id: nat, isStarted: bool, started: set<nat>) {
    exists answer: Option<bool> ::
      && calls' == calls + [IsStartedCalled(id, answer)]
      && (answer.Some? ==> answer.value == (id in started))
      && isStarted == (answer.Some? ==> answer.value)
  }

  lemma Answered(before: seq<Call>, calls: seq<Call>, calls': seq<Call>, id: nat, isStarted: bool, started: set<nat>)
    requires before <= calls && Asked(calls, calls', id, isStarted, started)
    ensures before <= calls'
    ensures Smooth(before, calls') ==> Smooth(before, calls) && isStarted == (id in started)
    ensures StartedSince(before, calls) ==> StartedSince(before, calls')
    ensures forall other :: StoppedSince(before, calls, other) ==> StoppedSince(before, calls', other)
    ensures isStarted ==> FoundStartedSince(before, calls', id)
    ensures forall kind :: SpawnSince(before, calls', kind) <==> SpawnSince(before, calls, kind)
  {
    var answer: Option<bool> :|
      && calls' == calls + [IsStartedCalled(id, answer)]
      && (answer.Some? ==> answer.value == (id in started))
      && isStarted == (answer.Some? ==> answer.value);
    OneMore(before, calls, IsStartedCalled(id, answer));
  }

  /** A helper as it is after some calls. */
  datatype Standing = Standing(calls: seq<Call>, child: Option<nat>, gateOpen: bool)

  /** While the machine is to stay awake: a child is kept; a helper is spawned only behind a gate that was open, which
      shuts no other way and never opens; and if the spawn came out, its child is there. */
  ghost predicate Follows(kind: Kind, s: Standing, t: Standing) {
    && s.calls <= t.calls
    && (s.child.Some? ==> t.child == s.child)
    && (SpawnedSince(s.calls, t.calls, kind) ==> t.child.Some?)
    && (SpawnSince(s.calls, t.calls, kind) ==> s.gateOpen)
    && (t.gateOpen ==> s.gateOpen)
    && (s.gateOpen && !t.gateOpen ==> SpawnSince(s.calls, t.calls, kind))
  }

  lemma FollowsOn(kind: Kind, s: Standing, t: Standing, u: Standing)
    requires Follows(kind, s, t) && Follows(kind, t, u)
    ensures Follows(kind, s, u)
    ensures SpawnSince(s.calls, t.calls, kind) || SpawnSince(t.calls, u.calls, kind) ==>
              SpawnSince(s.calls, u.calls, kind)
  {
    assert forall i :: 0 <= i < |t.calls| ==> u.calls[i] == t.calls[i];
  }

  lemma SpawnIsCalled(kind: Kind, outcome: SpawnOutcome, calls: seq<Call>)
    ensures var calls' := calls + [SpawnCalled(kind, outcome)];
            && SpawnSince(calls, calls', kind) && (SpawnedSince(calls, calls', kind) ==> outcome.Spawned?)
            && forall other :: other != kind ==> !SpawnSince(calls, calls', other)
  {
    var calls' := calls + [SpawnCalled(kind, outcome)];
    assert calls'[|calls|] == SpawnCalled(kind, outcome);
  }

  lemma StandsStill(kind: Kind, s: Standing, t: Standing)
    requires s.calls <= t.calls && !SpawnSince(s.calls, t.calls, kind) && t.child == s.child && t.gateOpen == s.gateOpen
    ensures Follows(kind, s, t)
  {
    assert !SpawnedSince(s.calls, t.calls, kind);
  }

  /** Electron's blocker as it is after some calls. */
  datatype Blocking = Blocking(calls: seq<Call>, remembered: Option<nat>, started: set<nat>)
  {
    ghost predicate Holds() { remembered.Some? && started == {remembered.value} }
  }

  ghost predicate StaysHeld(s: Blocking, t: Blocking) {
    s.calls <= t.calls && (Smooth(s.calls, t.calls) && s.Holds() ==> t.Holds())
  }

  /** Electron was asked to start a blocker, or did not deny that the one remembered is started; and if nothing went
      wrong, the one remembered is started. */
  ghost predicate Engaged(s: Blocking, t: Blocking) {
    && s.calls <= t.calls
    && (|| StartedSince(s.calls, t.calls)
        || (s.remembered.Some? && FoundStartedSince(s.calls, t.calls, s.remembered.value)))
    && (Smooth(s.calls, t.calls) ==> t.Holds())
  }

  /** Electron was asked to stop the blocker that was remembered; and if nothing went wrong, none is left. */
  ghost predicate Released(s: Blocking, t: Blocking) {
    && s.calls <= t.calls
    && (s.remembered.Some? ==> StoppedSince(s.calls, t.calls, s.remembered.value))
    && (Smooth(s.calls, t.calls) ==> t.remembered.None? && t.started == {})
  }

  lemma EngagedOn(s: Blocking, t: Blocking, u: Blocking)
    requires Engaged(s, t) && StaysHeld(t, u)
    ensures Engaged(s, u)
  {
    assert forall i :: 0 <= i < |t.calls| ==> u.calls[i] == t.calls[i];
  }

  lemma StaysHeldOn(s: Blocking, t: Blocking, u: Blocking)
    requires StaysHeld(s, t) && (StaysHeld(t, u) || Engaged(t, u))
    ensures StaysHeld(s, u)
  {
    assert forall i :: 0 <= i < |t.calls| ==> u.calls[i] == t.calls[i];
  }

  // ------------------------------------------------------------------------- the world

  /** The clock, the process table and Electron's power-save blockers; every call may come out either way. */
  class Host {
    const platform: Platform
    var now: int
    var nextId: nat
    var started: set<nat>
    ghost var calls: seq<Call>

    constructor (platform: Platform, now: int)
      ensures this.platform == platform && this.now == now && started == {} && calls == []
    {
      this.platform, this.now, nextId, started, calls := platform, now, 0, {}, [];
    }

    method NewId() returns (id: nat)
      modifies this`nextId
      ensures id == old(nextId) && nextId == id + 1
    {
      id := nextId;
      nextId := nextId + 1;
    }

    method Spawn(kind: Kind) returns (outcome: SpawnOutcome)
      modifies this`calls
      ensures calls == old(calls) + [SpawnCalled(kind, outcome)]
    {
      outcome := *;
      calls := calls + [SpawnCalled(kind, outcome)];
    }

    // powerSaveBlocker.start: throws, or returns a fresh id.
    method StartBlocker() returns (id: Option<nat>)
      modifies this`started, this`nextId, this`calls
      ensures nextId >= old(nextId)
      ensures exists holds :: calls == old(calls) + [StartCalled(id, holds)] &&
                started == old(started) + if id.Some? && holds then {id.value} else {}
    {
      var works, holds := *, *;
      if !works {
        calls := calls + [StartCalled(None, holds)];
        return None;
      }
      var id' := NewId();
      calls := calls + [StartCalled(Some(id'), holds)];
      if holds { started := started + {id'}; }
      return Some(id');
    }

    // powerSaveBlocker.stop: may throw, and may fail to stop.
    method StopBlocker(id: nat)
      modifies this`started, this`calls
      ensures exists worked :: calls == old(calls) + [StopCalled(id, worked)] &&
                started == old(started) - if worked then {id} else {}
    {
      var works := *;
      calls := calls + [StopCalled(id, works)];
      if works { started := started - {id}; }
    }

    // powerSaveBlocker.isStarted: throws, or tells the truth.
    method IsStarted(id: nat) returns (answer: Option<bool>)
      modifies this`calls
      ensures answer.Some? ==> answer.value == (id in started)
      ensures calls == old(calls) + [IsStartedCalled(id, answer)]
    {
      var works := *;
      answer := if works then Some(id in started) else None;
      calls := calls + [IsStartedCalled(id, answer)];
    }
  }

  // --------------------------------------------------------------------- one assertion

  class SleepAssertion {
    const kind: Kind
    const host: Host
    var owner: AgentAwakeService?        // whom onUnexpectedFailure calls
    var child: Option<nat>
    var retryNotBefore: Option<int>
    var retryTimer: Option<Timer>
    var unavailable: bool                // systemdInhibitUnavailable
    var intentionalStops: set<nat>
    var reportedFailures: set<nat>
    var childCleanups: set<nat>          // children whose listeners are attached
    var killed: set<nat>                 // children sent a kill
    ghost var spawned: set<nat>
    ghost var timers: set<nat>           // set, and neither fired nor cleared
    ghost var log: seq<Entry>

    predicate Matches() {
      (kind.LinuxLidSleep? && host.platform.Linux?) || (kind.MacosSystemSleep? && host.platform.Darwin?)
    }

    /** The helpers that were spawned, and neither killed nor reported failed. */
    ghost function Live(): set<nat>
      reads this
    {
      spawned - killed - reportedFailures
    }

    ghost predicate Idle()
      reads this
    {
      child.None? && retryNotBefore.None? && retryTimer.None?
    }

    /** Holding the machine awake, about to retry, or known not to be able to. */
    ghost predicate Covered()
      reads this
    {
      child.Some? || retryTimer.Some? || unavailable
    }

    ghost predicate GateOpen()
      reads this, host
    {
      && (host.platform.Linux? || host.platform.Darwin?)
      && (host.platform.Linux? <==> kind.LinuxLidSleep?)
      && child.None? && !unavailable && (retryNotBefore.Some? ==> retryNotBefore.value <= host.now)
    }

    ghost function Stands(): Standing
      reads this, host
    {
      Standing(host.calls, child, GateOpen())
    }

    ghost predicate Inv()
      reads this, host
    {
      Consistent() && KeepsPace(log, host.now, retryNotBefore, unavailable)
    }

    /** The state at this moment, without its history. */
    ghost predicate Consistent()
      reads this, host
    {
      && (!Matches() ==> Idle() && !unavailable)
      && (child.Some? ==> retryNotBefore.None? && retryTimer.None? && !unavailable)
      && (unavailable ==> kind.LinuxLidSleep? && Idle())
      && (retryTimer.Some? ==> retryNotBefore.Some? && retryTimer.value.due <= host.now + RETRY_MS)
      && (retryNotBefore.Some? ==> retryNotBefore.value <= host.now + RETRY_MS)
      && Live() == childCleanups == (if child.Some? then {child.value} else {})
      && Live() !! intentionalStops
      && (forall c :: c in spawned || c in killed || c in intentionalStops || c in reportedFailures ==> c < host.nextId)
      && timers == (if retryTimer.Some? then {retryTimer.value.id} else {})
    }

    constructor (kind: Kind, host: Host)
      ensures this.kind == kind && this.host == host && owner == null && Inv() && Idle() && !unavailable
    {
      this.kind, this.host, owner := kind, host, null;
      child, retryNotBefore, retryTimer, unavailable := None, None, None, false;
      intentionalStops, reportedFailures, childCleanups := {}, {}, {};
      killed, spawned, timers, log := {}, {}, {}, [];
    }

    method ResetRetrySuppression()
      modifies this`retryNotBefore, this`retryTimer, this`timers
      ensures retryNotBefore.None? && retryTimer.None?
      ensures timers == if old(retryTimer).Some? then old(timers) - {old(retryTimer).value.id} else old(timers)
    {
      retryNotBefore := None;
      if retryTimer.None? { return; }
      timers := timers - {retryTimer.value.id};
      retryTimer := None;
    }

    method ScheduleRetry()
      requires Inv() && child.None? && Matches()
      modifies this`retryTimer, this`timers, host`nextId
      ensures Inv() && host.nextId >= old(host.nextId)
      ensures retryNotBefore.None? || old(retryTimer).Some? ==> retryTimer == old(retryTimer)
      ensures retryNotBefore.Some? && old(retryTimer).None? ==>
                retryTimer.Some? && retryTimer.value.due == Max(host.now, retryNotBefore.value)
    {
      if retryNotBefore.None? || retryTimer.Some? { return; }
      var retryDelay := Max(0, retryNotBefore.value - host.now);
      var id := host.NewId();
      retryTimer := Some(Timer(id, host.now + retryDelay));
      timers := timers + {id};
    }

    method Stop()
      requires Inv()
      modifies this
      ensures Inv() && Idle() && unavailable == old(unavailable) && owner == old(owner)
      ensures reportedFailures == old(reportedFailures)
      ensures Live() == {} && timers == {} && log == old(log) + [Stopped]
    {
      StopKeepsPace(log, host.now, unavailable);
      log := log + [Stopped];
      ResetRetrySuppression();
      if child.None? { return; }
      var c := child.value;
      child := None;
      intentionalStops := intentionalStops + {c};
      childCleanups := childCleanups - {c};
      killed := killed + {c};
    }

    /** Whatever happens on the way, the owner stays valid, and this and every covered assertion end up covered. */
    method Start()
      requires owner != null && owner.Valid() && (this == owner.linux || this == owner.macos)
      requires owner.Decides() && owner.lastDecision == Some(true)
      modifies owner, owner.linux, owner.macos, host
      ensures owner == old(owner) && owner.Valid() && owner.SameInputs() && owner.SameReports()
      ensures owner.lastDecision == Some(true)
      ensures old(owner.TimerArmed()) ==> owner.TimerArmed()
      ensures Matches() ==> Covered()
      ensures forall a :: (a == owner.linux || a == owner.macos) && old(a.Covered()) ==> a.Covered()
      ensures owner.HelpersFollow() && StaysHeld(old(owner.Blocks()), owner.Blocks())
      ensures old(GateOpen()) ==> SpawnSince(old(host.calls), host.calls, kind)
      decreases owner.OpenGates(), 1
    {
      if !Matches() || child.Some? || unavailable { return; }
      if retryNotBefore.Some? && host.now < retryNotBefore.value {
        ScheduleRetry();
        return;
      }
      StartBehindGate();
    }

    method StartBehindGate()
      requires owner != null && owner.Valid() && (this == owner.linux || this == owner.macos)
      requires owner.Decides() && owner.lastDecision == Some(true) && GateOpen()
      modifies owner, owner.linux, owner.macos, host
      ensures owner == old(owner) && owner.Valid() && owner.SameInputs() && owner.SameReports()
      ensures owner.lastDecision == Some(true)
      ensures old(owner.TimerArmed()) ==> owner.TimerArmed()
      ensures Covered()
      ensures forall a :: (a == owner.linux || a == owner.macos) && old(a.Covered()) ==> a.Covered()
      ensures owner.HelpersFollow() && StaysHeld(old(owner.Blocks()), owner.Blocks())
      ensures SpawnSince(old(host.calls), host.calls, kind)
      decreases owner.OpenGates(), 0
    {
      ghost var other := if this == owner.linux then owner.macos else owner.linux;
      ghost var (s, o) := (Stands(), other.Stands());
      var outcome := TrySpawn();
      ghost var (t, p) := (Stands().(gateOpen := false), other.Stands());
      SpawnIsCalled(kind, outcome, s.calls);
      StandsStill(other.kind, o, p);
      AfterSpawn(outcome);
      FollowsOn(kind, s, t, Stands());
      FollowsOn(other.kind, o, p, other.Stands());
    }

    // The end of `start`.
    method AfterSpawn(outcome: SpawnOutcome)
      requires owner != null && owner.Valid() && (this == owner.linux || this == owner.macos)
      requires owner.Decides() && owner.lastDecision == Some(true)
      requires Matches() && !unavailable && (if outcome.Spawned? then child.Some? else child.None?)
      modifies owner, owner.linux, owner.macos, host
      ensures owner == old(owner) && owner.Valid() && owner.SameInputs() && owner.SameReports()
      ensures owner.lastDecision == Some(true)
      ensures old(owner.TimerArmed()) ==> owner.TimerArmed()
      ensures Covered()
      ensures forall a :: (a == owner.linux || a == owner.macos) && old(a.Covered()) ==> a.Covered()
      ensures Follows(kind, old(Stands()).(gateOpen := false), Stands()) && owner.OtherFollows(this)
      ensures StaysHeld(old(owner.Blocks()), owner.Blocks())
      decreases owner.GatesBesides(this), 7
    {
      if !outcome.Spawned? {
        HandleFailure(outcome.SpawnMissing?);
      }
    }

    // The part of `start` behind the gate, up to the handling of a failure.
    method TrySpawn() returns (outcome: SpawnOutcome)
      requires Inv() && GateOpen()
      modifies this, host`nextId, host`calls
      ensures Inv() && owner == old(owner) && host.nextId >= old(host.nextId) &&
              reportedFailures == old(reportedFailures)
      ensures host.calls == old(host.calls) + [SpawnCalled(kind, outcome)]
      ensures SpawnSince(old(host.calls), host.calls, kind)
      ensures Follows(kind, old(Stands()), Stands().(gateOpen := false))
      ensures outcome.Spawned? ==> child.Some?
      ensures !outcome.Spawned? ==>
                child.None? && retryNotBefore == old(retryNotBefore) && retryTimer == old(retryTimer) && !unavailable
      ensures log == old(log) + [Attempt(host.now)]
    {
      AttemptKeepsPace(log, host.now, retryNotBefore);
      log := log + [Attempt(host.now)];
      outcome := host.Spawn(kind);
      SpawnIsCalled(kind, outcome, old(host.calls));
      if outcome.Spawned? { Attach(); }
    }

    // A new child, and its listeners.
    method Attach()
      requires Inv() && Matches() && child.None? && !unavailable && KeepsPace(log, host.now, None, false)
      modifies this, host`nextId
      ensures Inv() && child.Some? && log == old(log) && owner == old(owner) && host.nextId >= old(host.nextId)
      ensures reportedFailures == old(reportedFailures)
    {
      var id := host.NewId();
      child := Some(id);
      spawned := spawned + {id};
      childCleanups := childCleanups + {id};
      ResetRetrySuppression();
    }

    /** Shuts the gate for 30 seconds, or for good, before it calls back. */
    method HandleFailure(missing: bool)
      requires owner != null && owner.Valid() && (this == owner.linux || this == owner.macos)
      requires Matches() && child.None? && !unavailable
      modifies owner, owner.linux, owner.macos, host
      ensures owner == old(owner) && owner.Valid() && owner.SameInputs() && owner.SameReports()
      ensures missing && kind.LinuxLidSleep? ==>
                && unavailable && owner.lastDecision == old(owner.lastDecision)
                && (old(owner.TimerArmed()) ==> owner.TimerArmed())
                && forall a :: (a == owner.linux || a == owner.macos) && old(a.Covered()) ==> a.Covered()
      ensures !(missing && kind.LinuxLidSleep?) ==> owner.Refreshed() && owner.BlockerActed()
      ensures owner.Decides() ==>
                && StaysHeld(old(owner.Blocks()), owner.Blocks())
                && owner.OtherFollows(this) && Follows(kind, old(Stands()).(gateOpen := false), Stands())
      decreases owner.GatesBesides(this), 6
    {
      if missing && kind.LinuxLidSleep? {
        GiveUp();
        return;
      }
      ShutGate();
      owner.Refresh();
    }

    // systemd-inhibit is missing: nothing is tried again.
    method GiveUp()
      requires Inv() && Matches() && kind.LinuxLidSleep? && child.None?
      modifies this`log, this`unavailable, this`retryNotBefore, this`retryTimer, this`timers
      ensures Inv() && unavailable && Idle() && log == old(log) + [Failure(host.now)]
    {
      FailureKeepsPace(log, host.now);
      log := log + [Failure(host.now)];
      unavailable := true;
      ResetRetrySuppression();
    }

    method ShutGate()
      requires Inv() && Matches() && child.None? && !unavailable
      modifies this`log, this`retryNotBefore, this`retryTimer, this`timers, host`nextId
      ensures Inv() && !GateOpen() && log == old(log) + [Failure(host.now)] && host.nextId >= old(host.nextId)
      ensures retryTimer.Some? && retryNotBefore == Some(host.now + 30_000)
    {
      FailureKeepsPace(log, host.now);
      log := log + [Failure(host.now)];
      retryNotBefore := Some(host.now + RETRY_MS);
      ScheduleRetry();
    }

    // The listeners of a child: called while they are attached, or late, for a child already stopped or reported.
    method HandleChildFailure(c: nat, missing: bool)
      requires owner != null && owner.Quiet() && (this == owner.linux || this == owner.macos)
      requires c in childCleanups || c in intentionalStops || c in reportedFailures
      modifies owner, owner.linux, owner.macos, host
      ensures owner == old(owner) && owner.Quiet() && owner.SameInputs()
      ensures c !in Live()
      ensures c in old(childCleanups) && missing && kind.LinuxLidSleep? ==> unavailable
      ensures c in old(childCleanups) && !(missing && kind.LinuxLidSleep?) ==> owner.Refreshed() && owner.BlockerActed()
    {
      var unexpected := ReportFailure(c);
      if unexpected {
        HandleFailure(missing);
      }
    }

    // Whether the failure is news: the child was neither stopped nor reported before.
    method ReportFailure(c: nat) returns (unexpected: bool)
      requires Inv() && (c in childCleanups || c in intentionalStops || c in reportedFailures)
      modifies this`childCleanups, this`intentionalStops, this`reportedFailures, this`child
      ensures Inv() && unexpected == (c in old(childCleanups))
      ensures unexpected ==> old(child) == Some(c) && child.None? && reportedFailures == old(reportedFailures) + {c}
      ensures !unexpected ==> child == old(child) && reportedFailures == old(reportedFailures)
      ensures c !in Live()
    {
      childCleanups := childCleanups - {c};
      if c in intentionalStops {
        intentionalStops := intentionalStops - {c};
        return false;
      }
      if c in reportedFailures { return false; }
      reportedFailures := reportedFailures + {c};
      if child == Some(c) { child := None; }
      return true;
    }

    method RetryTimerFires()
      requires owner != null && owner.Quiet() && (this == owner.linux || this == owner.macos)
      requires retryTimer.Some?
      modifies owner, owner.linux, owner.macos, host
      ensures owner == old(owner) && owner.Quiet() && owner.SameInputs() && owner.Refreshed()
      ensures owner.BlockerActed() && owner.HelpersActed()
    {
      timers := timers - {retryTimer.value.id};
      retryTimer := None;
      owner.Refresh();
    }
  }

  // ----------------------------------------------------------------------- the service

  class AgentAwakeService {
    const host: Host
    const linux: SleepAssertion
    const macos: SleepAssertion
    var enabled: bool
    var statuses: seq<AgentAwakeStatus>
    var blockerId: Option<nat>
    var staleTimer: Option<Timer>
    var subscribed: bool                   // to power-resume
    ghost var timers: set<nat>
    ghost var lastDecision: Option<bool>   // of the last refresh; none before the first and after disposal

    ghost predicate Wired()
      reads this, linux, macos
    {
      && linux != macos && linux.host == macos.host == host && linux.owner == macos.owner == this
      && linux.kind.LinuxLidSleep? && macos.kind.MacosSystemSleep?
    }

    /** Holds at every moment, also while callbacks are nested. */
    ghost predicate Valid()
      reads this, linux, macos, host
    {
      && Wired() && linux.Inv() && macos.Inv()
      && host.started <= (if blockerId.Some? then {blockerId.value} else {})
      && timers == (if staleTimer.Some? then {staleTimer.value.id} else {})
    }

    ghost predicate Decides()
      reads this, host
    {
      ShouldBlock(enabled, statuses, host.now)
    }

    ghost predicate TimerArmed()
      reads this, host
    {
      IsEarliestExpiry(statuses, host.now, if staleTimer.Some? then Some(staleTimer.value.due) else None)
    }

    /** The assertions agree with the last decision. */
    ghost predicate Settled()
      reads this, linux, macos
    {
      if lastDecision == Some(true)
      then (host.platform.Linux? ==> linux.Covered()) && (host.platform.Darwin? ==> macos.Covered())
      else linux.Idle() && macos.Idle()
    }

    /** Holds between events. */
    ghost predicate Quiet()
      reads this, linux, macos, host
    {
      Valid() && Settled()
    }

    /** What a refresh leaves behind. */
    ghost predicate Refreshed()
      reads this, linux, macos, host
    {
      Settled() && lastDecision == Some(Decides()) && TimerArmed()
    }

    twostate predicate SameInputs()
      reads this, host
    {
      enabled == old(enabled) && statuses == old(statuses) && host.now == old(host.now) && subscribed == old(subscribed)
    }

    twostate predicate SameReports()
      reads linux, macos
    {
      linux.reportedFailures == old(linux.reportedFailures) && macos.reportedFailures == old(macos.reportedFailures)
    }

    ghost function Blocks(): Blocking
      reads this, host
    {
      Blocking(host.calls, blockerId, host.started)
    }

    /** What a refresh asks of Electron. */
    twostate predicate BlockerActed()
      reads this, host
    {
      if Decides() then Engaged(old(Blocks()), Blocks()) else Released(old(Blocks()), Blocks())
    }

    twostate predicate HelpersFollow()
      reads linux, macos, linux.host, macos.host
    {
      && Follows(linux.kind, old(linux.Stands()), linux.Stands())
      && Follows(macos.kind, old(macos.Stands()), macos.Stands())
    }

    twostate predicate OtherFollows(a: SleepAssertion)
      reads linux, macos, linux.host, macos.host
    {
      && (a != linux ==> Follows(linux.kind, old(linux.Stands()), linux.Stands()))
      && (a != macos ==> Follows(macos.kind, old(macos.Stands()), macos.Stands()))
    }

    /** A refresh spawns exactly the helpers it decides for, if no child is there and their gates are open. */
    twostate predicate HelpersActed()
      reads this, linux, macos, host, linux.host, macos.host
    {
      && (Decides() ==> HelpersFollow())
      && (SpawnSince(old(host.calls), host.calls, LinuxLidSleep) <==> Decides() && old(linux.GateOpen()))
      && (SpawnSince(old(host.calls), host.calls, MacosSystemSleep) <==> Decides() && old(macos.GateOpen()))
    }

    ghost function OpenGates(): nat
      reads linux, macos, linux.host, macos.host
    {
      (if linux.GateOpen() then 1 else 0) + if macos.GateOpen() then 1 else 0
    }

    ghost function GatesBesides(a: SleepAssertion): nat
      reads linux, macos, linux.host, macos.host
    {
      (if a != linux && linux.GateOpen() then 1 else 0) + if a != macos && macos.GateOpen() then 1 else 0
    }

    constructor (host: Host)
      requires host.started == {}
      ensures Quiet() && lastDecision.None? && this.host == host && subscribed
      ensures fresh(linux) && fresh(macos)
    {
      this.host := host;
      enabled, statuses, blockerId, staleTimer, subscribed := false, [], None, None, true;
      timers, lastDecision := {}, None;
      linux := new SleepAssertion(LinuxLidSleep, host);
      macos := new SleepAssertion(MacosSystemSleep, host);
      new;
      linux.owner := this;
      macos.owner := this;
    }

    // ---- the events

    method SetEnabled(enabled: bool)
      requires Quiet()
      modifies this, linux, macos, host
      ensures Quiet() && this.enabled == enabled && statuses == old(statuses) && host.now == old(host.now)
      ensures old(this.enabled) != enabled ==> Refreshed() && BlockerActed() && HelpersActed()
    {
      if this.enabled == enabled { return; }
      this.enabled := enabled;
      Refresh();
    }

    method SetStatuses(statuses: seq<AgentAwakeStatus>)
      requires Quiet()
      modifies this, linux, macos, host
      ensures Quiet() && Refreshed() && this.statuses == statuses && enabled == old(enabled) &&
              host.now == old(host.now)
      ensures BlockerActed() && HelpersActed()
    {
      this.statuses := statuses;
      Refresh();
    }

    method OnPowerResume()
      requires Quiet() && subscribed
      modifies this, linux, macos, host
      ensures Quiet() && Refreshed() && SameInputs() && BlockerActed() && HelpersActed()
    {
      Refresh();
    }

    method StaleTimerFires()
      requires Quiet() && staleTimer.Some?
      modifies this, linux, macos, host
      ensures Quiet() && Refreshed() && SameInputs() && BlockerActed() && HelpersActed()
    {
      timers := timers - {staleTimer.value.id};
      staleTimer := None;
      Refresh();
    }

    method TimePasses(now: int)
      requires Quiet() && now >= host.now
      modifies host`now
      ensures Quiet() && host.now == now
    {
      PaceOverTime(linux.log, host.now, now, linux.retryNotBefore, linux.unavailable);
      PaceOverTime(macos.log, host.now, now, macos.retryNotBefore, macos.unavailable);
      host.now := now;
    }

    method Dispose()
      requires Quiet()
      modifies this, linux, macos, host
      ensures Quiet() && lastDecision.None? && !subscribed && host.now == old(host.now)
      ensures staleTimer.None? && timers == linux.timers == macos.timers == {} && linux.Live() == macos.Live() == {}
      ensures Released(old(Blocks()), Blocks())
    {
      ClearStaleTimer();
      subscribed := false;
      StopAll();
      lastDecision := None;
    }

    // ---- the refresh

    method Refresh()
      requires Valid()
      modifies this, linux, macos, host
      ensures Valid() && Refreshed() && SameInputs() && SameReports() && BlockerActed() && HelpersActed()
      decreases OpenGates(), 5
    {
      var shouldBlock := Decide();
      Act(shouldBlock);
    }

    // The branches of `refresh`.
    method Act(shouldBlock: bool)
      requires Valid() && TimerArmed() && shouldBlock == Decides() && lastDecision == Some(shouldBlock)
      modifies this, linux, macos, host
      ensures Valid() && Refreshed() && SameInputs() && SameReports() && BlockerActed() && HelpersActed()
      decreases OpenGates(), 4
    {
      if shouldBlock {
        StartAll();
      } else {
        StopAll();
      }
    }

    // The part of `refresh` before its branches.
    method Decide() returns (shouldBlock: bool)
      requires Valid()
      modifies this`staleTimer, this`timers, this`lastDecision, host`nextId
      ensures Valid() && TimerArmed() && shouldBlock == Decides() && lastDecision == Some(shouldBlock)
      ensures linux.Stands() == old(linux.Stands()) && macos.Stands() == old(macos.Stands())
    {
      ScheduleStaleTimer();
      var runningStatusCount := EligibleCount(statuses, host.now);
      shouldBlock := enabled && runningStatusCount > 0;
      lastDecision := Some(shouldBlock);
    }

    // The two branches of `refresh`; the second is also what disposal does.
    method StartAll()
      requires Valid() && Decides() && lastDecision == Some(true) && TimerArmed()
      modifies this, linux, macos, host
      ensures Valid() && Refreshed() && SameInputs() && SameReports()
      ensures Engaged(old(Blocks()), Blocks()) && HelpersActed()
      decreases OpenGates(), 3
    {
      ghost var (b, l, m) := (Blocks(), linux.Stands(), macos.Stands());
      StartBlocker();
      ghost var (b', l', m') := (Blocks(), linux.Stands(), macos.Stands());
      StandsStill(LinuxLidSleep, l, l');
      StandsStill(MacosSystemSleep, m, m');
      StartHelpers();
      EngagedOn(b, b', Blocks());
      FollowsOn(LinuxLidSleep, l, l', linux.Stands());
      FollowsOn(MacosSystemSleep, m, m', macos.Stands());
    }

    method StartHelpers()
      requires Valid() && Decides() && lastDecision == Some(true) && TimerArmed()
      modifies this, linux, macos, host
      ensures Valid() && Refreshed() && SameInputs() && SameReports()
      ensures StaysHeld(old(Blocks()), Blocks()) && HelpersFollow()
      ensures old(linux.GateOpen()) ==> SpawnSince(old(host.calls), host.calls, LinuxLidSleep)
      ensures old(macos.GateOpen()) ==> SpawnSince(old(host.calls), host.calls, MacosSystemSleep)
      decreases OpenGates(), 2
    {
      ghost var (b, l, m) := (Blocks(), linux.Stands(), macos.Stands());
      macos.Start();
      ghost var (b', l', m') := (Blocks(), linux.Stands(), macos.Stands());
      linux.Start();
      StaysHeldOn(b, b', Blocks());
      FollowsOn(LinuxLidSleep, l, l', linux.Stands());
      FollowsOn(MacosSystemSleep, m, m', macos.Stands());
    }

    method StopAll()
      requires Valid()
      modifies this`blockerId, host`started, host`calls, linux, macos
      ensures Valid() && linux.Idle() && macos.Idle() && SameReports()
      ensures linux.timers == macos.timers == linux.Live() == macos.Live() == {}
      ensures Released(old(Blocks()), Blocks())
      ensures forall kind :: !SpawnSince(old(host.calls), host.calls, kind)
    {
      StopBlocker();
      macos.Stop();
      linux.Stop();
    }

    method ClearStaleTimer()
      modifies this`staleTimer, this`timers
      ensures staleTimer.None?
      ensures timers == if old(staleTimer).Some? then old(timers) - {old(staleTimer).value.id} else old(timers)
    {
      if staleTimer.None? { return; }
      timers := timers - {staleTimer.value.id};
      staleTimer := None;
    }

    method ScheduleStaleTimer()
      requires timers == (if staleTimer.Some? then {staleTimer.value.id} else {})
      modifies this`staleTimer, this`timers, host`nextId
      ensures TimerArmed() && timers == (if staleTimer.Some? then {staleTimer.value.id} else {})
      ensures host.nextId >= old(host.nextId)
    {
      ClearStaleTimer();
      var earliestExpiry := EarliestExpiry(statuses, host.now);
      if earliestExpiry.None? { return; }
      var id := host.NewId();
      staleTimer := Some(Timer(id, host.now + (earliestExpiry.value - host.now)));
      timers := timers + {id};
    }

    ghost predicate BlockerKnown()
      reads this, host
    {
      host.started <= (if blockerId.Some? then {blockerId.value} else {})
    }

    method StartBlocker()
      requires BlockerKnown()
      modifies this`blockerId, host`started, host`nextId, host`calls
      ensures BlockerKnown() && host.nextId >= old(host.nextId) && Engaged(old(Blocks()), Blocks())
      ensures forall kind :: !SpawnSince(old(host.calls), host.calls, kind)
    {
      NoneYet(host.calls);
      if blockerId.Some? {
        var isStarted := ReconcileBlocker();
        Answered(old(host.calls), old(host.calls), host.calls, old(blockerId).value, isStarted, host.started);
        if isStarted { return; }
      }
      ghost var before := host.calls;
      var id := host.StartBlocker();
      ghost var holds :|
        host.calls == before + [StartCalled(id, holds)] && (id.Some? && holds ==> id.value in host.started);
      OneMore(old(host.calls), before, StartCalled(id, holds));
      if id.None? { return; }
      blockerId := id;
      before := host.calls;
      var isStarted := ReconcileBlocker();
      Answered(old(host.calls), before, host.calls, id.value, isStarted, host.started);
    }

    method StopBlocker()
      requires BlockerKnown()
      modifies this`blockerId, host`started, host`calls
      ensures BlockerKnown() && Released(old(Blocks()), Blocks())
      ensures forall kind :: !SpawnSince(old(host.calls), host.calls, kind)
    {
      NoneYet(host.calls);
      if blockerId.None? { return; }
      var id := blockerId.value;
      host.StopBlocker(id);
      ghost var worked :| host.calls == old(host.calls) + [StopCalled(id, worked)] && (worked ==> id !in host.started);
      ghost var before := host.calls;
      OneMore(old(host.calls), old(host.calls), StopCalled(id, worked));
      var isStarted := ReconcileBlocker();
      Answered(old(host.calls), before, host.calls, id, isStarted, host.started);
    }

    /** The remembered blocker is forgotten if Electron denies that it is started. */
    method ReconcileBlocker() returns (isStarted: bool)
      requires BlockerKnown()
      modifies this`blockerId, host`calls
      ensures BlockerKnown()
      ensures isStarted ==> blockerId.Some? && blockerId == old(blockerId)
      ensures !isStarted ==> blockerId.None? && host.started == {}
      ensures old(blockerId).None? ==> host.calls == old(host.calls)
      ensures old(blockerId).Some? ==> Asked(old(host.calls), host.calls, old(blockerId).value, isStarted, host.started)
    {
      if blockerId.None? { return false; }
      var answer := host.IsStarted(blockerId.value);
      if answer.None? { return true; }
      if !answer.value { blockerId := None; }
      return answer.value;
    }
  }
}
