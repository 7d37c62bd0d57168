/** When src/main/agent-awake-service.ts keeps the machine awake, and until when that decision stands by itself. */
module AwakeDecision {
  import opened Basics

  const AGENT_AWAKE_STATUS_STALE_AFTER_MS := 2 * 60 * 60 * 1000

  datatype AgentState = Working | NotWorking

  // A JavaScript number; only finite ones pass Number.isFinite.
  datatype Instant = At(ms: int) | NotFinite

  datatype AgentAwakeStatus = AgentAwakeStatus(state: AgentState, receivedAt: Instant, observedInCurrentRuntime: bool)

  predicate IsTracked(s: AgentAwakeStatus) { s.observedInCurrentRuntime && s.state.Working? && s.receivedAt.At? }

  predicate IsWakeEligible(s: AgentAwakeStatus, now: int) {
    IsTracked(s) && now - s.receivedAt.ms <= AGENT_AWAKE_STATUS_STALE_AFTER_MS
  }

  function Expiry(s: AgentAwakeStatus): int
    requires IsTracked(s)
  {
    s.receivedAt.ms + AGENT_AWAKE_STATUS_STALE_AFTER_MS
  }

  function EligibleCount(statuses: seq<AgentAwakeStatus>, now: int): nat {
    |Filter(statuses, (s: AgentAwakeStatus) => IsWakeEligible(s, now))|
  }

  predicate ShouldBlock(enabled: bool, statuses: seq<AgentAwakeStatus>, now: int) {
    enabled && EligibleCount(statuses, now) > 0
  }

  /** Blocking takes an agent seen working in this runtime within the last two hours. */
  lemma ShouldBlockIff(enabled: bool, statuses: seq<AgentAwakeStatus>, now: int)
    ensures ShouldBlock(enabled, statuses, now) <==> enabled && exists s :: s in statuses && IsWakeEligible(s, now)
    ensures ShouldBlock(enabled, statuses, now) <==>
            enabled && exists s ::
              && s in statuses && s.observedInCurrentRuntime && s.state.Working? && s.receivedAt.At?
              && now - s.receivedAt.ms <= 7_200_000
  {
    var eligible := Filter(statuses, (s: AgentAwakeStatus) => IsWakeEligible(s, now));
    if eligible != [] {
      assert eligible[0] in eligible;
    }
    assert forall s :: IsWakeEligible(s, now) <==>
             s.observedInCurrentRuntime && s.state.Working? && s.receivedAt.At? && now - s.receivedAt.ms <= 7_200_000;
  }

  /** `earliest` is the least expiry that lies strictly after `now`, if there is one. */
  ghost predicate IsEarliestExpiry(statuses: seq<AgentAwakeStatus>, now: int, earliest: Option<int>) {
    && (forall s :: s in statuses && IsTracked(s) && Expiry(s) > now ==> earliest.Some? && earliest.value <= Expiry(s))
    && (earliest.Some? ==> earliest.value > now && exists s ::
        s in statuses && IsTracked(s) && Expiry(s) == earliest.value)
  }

  method EarliestExpiry(statuses: seq<AgentAwakeStatus>, now: int) returns (earliest: Option<int>)
    ensures IsEarliestExpiry(statuses, now, earliest)
  {
    earliest := None;
    for i := 0 to |statuses|
      invariant IsEarliestExpiry(statuses[..i], now, earliest)
    {
      var s := statuses[i];
      assert forall x :: x in statuses[..i + 1] <==> x in statuses[..i] || x == s;
      if !s.observedInCurrentRuntime || !s.state.Working? || !s.receivedAt.At? { continue; }
      var expiry := s.receivedAt.ms + AGENT_AWAKE_STATUS_STALE_AFTER_MS;
      if expiry <= now { continue; }
      earliest := if earliest.None? then Some(expiry) else Some(Min(earliest.value, expiry));
      assert s in statuses[..i + 1] && Expiry(s) == expiry;
    }
    assert statuses[..|statuses|] == statuses;
  }

  /** The decision taken at `now` is also the fresh decision at every moment until the timer is due. */
  ghost predicate StandsUntilTimer(enabled: bool, statuses: seq<AgentAwakeStatus>, now: int, timer: Option<int>) {
    forall t :: now <= t && (timer.Some? ==> t <= timer.value) ==>
      ShouldBlock(enabled, statuses, t) == ShouldBlock(enabled, statuses, now)
  }

  /** It stands exactly unless blocking was decided without a timer, which takes a status expiring at this very moment:
      at equality a status is still eligible, but no timer is armed for it. */
  lemma DecisionStandsIff(enabled: bool, statuses: seq<AgentAwakeStatus>, now: int, timer: Option<int>)
    requires IsEarliestExpiry(statuses, now, timer)
    ensures StandsUntilTimer(enabled, statuses, now, timer) <==>
            !(enabled && timer.None? && exists s :: s in statuses && IsTracked(s) && Expiry(s) == now)
  {
    ShouldBlockIff(enabled, statuses, now);
    if enabled && timer.None? && exists s :: s in statuses && IsTracked(s) && Expiry(s) == now {
      var s :| s in statuses && IsTracked(s) && Expiry(s) == now;
      assert IsWakeEligible(s, now);
      ShouldBlockIff(enabled, statuses, now + 1);
    } else {
      forall t | now <= t && (timer.Some? ==> t <= timer.value)
        ensures ShouldBlock(enabled, statuses, t) == ShouldBlock(enabled, statuses, now)
      {
        ShouldBlockIff(enabled, statuses, t);
        if timer.Some? {
          var s :| s in statuses && IsTracked(s) && Expiry(s) == timer.value;
          assert IsWakeEligible(s, t) && IsWakeEligible(s, now);
        }
      }
    }
  }

  /** A timer that fires on the exact millisecond finds its status still eligible, keeps blocking, and arms nothing;
      one millisecond later the same refresh releases the machine. */
  lemma TimerFiringOnTimeIsTooEarly(statuses: seq<AgentAwakeStatus>, armedAt: int, due: int)
    requires IsEarliestExpiry(statuses, armedAt, Some(due))
    requires forall s :: s in statuses && IsTracked(s) ==> Expiry(s) <= due
    ensures ShouldBlock(true, statuses, due) && IsEarliestExpiry(statuses, due, None)
    ensures !ShouldBlock(true, statuses, due + 1)
  {
    ShouldBlockIff(true, statuses, due);
    ShouldBlockIff(true, statuses, due + 1);
    var s :| s in statuses && IsTracked(s) && Expiry(s) == due;
    assert IsWakeEligible(s, due);
  }
}
