/** Which agent statuses keep the machine awake, until when, and what the stale timer must be set to. */
module AwakeStatuses {
  import opened Options

  const STALE_AFTER_MS := 2 * 60 * 60 * 1000

  datatype AgentState = Working | Blocked | Waiting | Done

  /** A time stamp as the status carries it: JavaScript numbers include infinities and NaN. */
  datatype Instant = Finite(ms: int) | NotFinite

  datatype AgentAwakeStatus = AgentAwakeStatus(state: AgentState, receivedAt: Instant, observedInCurrentRuntime: bool)

  predicate IsObservedWork(s: AgentAwakeStatus) {
    s.observedInCurrentRuntime && s.state.Working? && s.receivedAt.Finite?
  }

  function Expiry(s: AgentAwakeStatus): int
    requires IsObservedWork(s)
  {
    s.receivedAt.ms + STALE_AFTER_MS
  }

  predicate IsWakeEligible(s: AgentAwakeStatus, now: int) {
    s.observedInCurrentRuntime && s.state.Working? && s.receivedAt.Finite?
    && now - s.receivedAt.ms <= STALE_AFTER_MS
  }

  function EligibleRunningStatuses(statuses: seq<AgentAwakeStatus>, now: int): (r: seq<AgentAwakeStatus>)
    ensures forall s :: s in r <==> s in statuses && IsWakeEligible(s, now)
  {
    if statuses == [] then []
    else
      (if IsWakeEligible(statuses[0], now) then [statuses[0]] else []) + EligibleRunningStatuses(statuses[1..], now)
  }

  predicate WantsBlocking(enabled: bool, statuses: seq<AgentAwakeStatus>, now: int) {
    enabled && |EligibleRunningStatuses(statuses, now)| > 0
  }

  ghost predicate ExpiresAt(statuses: seq<AgentAwakeStatus>, t: int) {
    exists s :: s in statuses && IsObservedWork(s) && Expiry(s) == t
  }

  /** `due` is the earliest moment strictly after `now` at which an observed working status expires. */
  ghost predicate IsNextExpiry(statuses: seq<AgentAwakeStatus>, now: int, due: Option<int>) {
    && (due.Some? ==> due.value > now && ExpiresAt(statuses, due.value))
    && (forall s :: s in statuses && IsObservedWork(s) && Expiry(s) > now ==> due.Some? && due.value <= Expiry(s))
  }

  /** The scan that chooses when to wake up next. */
  method NextExpiry(statuses: seq<AgentAwakeStatus>, now: int) returns (earliestExpiry: Option<int>)
    ensures IsNextExpiry(statuses, now, earliestExpiry)
  {
    earliestExpiry := None;
    for i := 0 to |statuses|
      invariant IsNextExpiry(statuses[..i], now, earliestExpiry)
    {
      assert statuses[..i + 1] == statuses[..i] + [statuses[i]];
      assert forall t :: ExpiresAt(statuses[..i], t) ==> ExpiresAt(statuses[..i + 1], t);
      var status := statuses[i];
      if !status.observedInCurrentRuntime || !status.state.Working? || !status.receivedAt.Finite? {
        continue;
      }
      var expiry := status.receivedAt.ms + STALE_AFTER_MS;
      assert status in statuses[..i + 1] && Expiry(status) == expiry;
      if expiry <= now {
        continue;
      }
      earliestExpiry :=
        if earliestExpiry.None? then Some(expiry)
        else if earliestExpiry.value <= expiry then earliestExpiry else Some(expiry);
    }
    assert statuses[..|statuses|] == statuses;
  }

  lemma WantedBy(statuses: seq<AgentAwakeStatus>, now: int) returns (s: AgentAwakeStatus)
    requires |EligibleRunningStatuses(statuses, now)| > 0
    ensures s in statuses && IsWakeEligible(s, now)
  {
    s := EligibleRunningStatuses(statuses, now)[0];
  }

  lemma WantsBlockingIff(enabled: bool, statuses: seq<AgentAwakeStatus>, now: int)
    ensures WantsBlocking(enabled, statuses, now)
       <==> enabled && exists s :: s in statuses && IsWakeEligible(s, now)
    // that is, an agent seen working in this run whose last sign of life is at most two hours old
    ensures forall s :: IsWakeEligible(s, now) <==>
              s.observedInCurrentRuntime && s.state == Working && s.receivedAt.Finite?
              && now <= s.receivedAt.ms + 7_200_000
  {
    if exists s :: s in statuses && IsWakeEligible(s, now) {
      var s :| s in statuses && IsWakeEligible(s, now);
      assert s in EligibleRunningStatuses(statuses, now);
    } else if |EligibleRunningStatuses(statuses, now)| > 0 {
      var s := WantedBy(statuses, now);
      assert false;
    }
  }

  /** Blocking without a timer happens at one kind of instant only: the one at which every status that
      asks for it expires. */
  lemma NoTimerOnlyAtExpiry(enabled: bool, statuses: seq<AgentAwakeStatus>, now: int)
    requires IsNextExpiry(statuses, now, None) && WantsBlocking(enabled, statuses, now)
    ensures ExpiresAt(statuses, now)
    ensures forall s :: s in statuses && IsWakeEligible(s, now) ==> Expiry(s) == now
  {
    var s := WantedBy(statuses, now);
    assert Expiry(s) == now;
  }

  /** A refresh after the last expiry asks for release, and only then if the service is enabled. */
  lemma ReleasedAfterLastExpiry(enabled: bool, statuses: seq<AgentAwakeStatus>, now: int)
    ensures enabled ==>
      (!WantsBlocking(enabled, statuses, now) <==>
       forall s :: s in statuses && IsObservedWork(s) ==> Expiry(s) < now)
  {
    WantsBlockingIff(enabled, statuses, now);
    if enabled && !WantsBlocking(enabled, statuses, now) {
      forall s | s in statuses && IsObservedWork(s) ensures Expiry(s) < now {
        assert !IsWakeEligible(s, now);
      }
    }
  }

  /** Until the timer is due nothing can change: the answer is the same at all instants after the scan,
      up to and including the due one. */
  lemma TimerMissesNothing(enabled: bool, statuses: seq<AgentAwakeStatus>, now: int, due: Option<int>, x: int)
    requires IsNextExpiry(statuses, now, due)
    requires now < x && (due.Some? ==> x <= due.value)
    ensures WantsBlocking(enabled, statuses, x) <==> enabled && due.Some?
  {
    WantsBlockingIff(enabled, statuses, x);
    if enabled && due.Some? {
      var s :| s in statuses && IsObservedWork(s) && Expiry(s) == due.value;
      assert IsWakeEligible(s, x);
    }
  }
}
