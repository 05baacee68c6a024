/**
  The keep-awake service and the Linux lid-sleep assertion that it owns. The two call each other: a
  failing assertion asks its owner to refresh, and a refresh starts or stops the assertion. The clock
  stands still during one turn; it may move either way between turns.
 */
module AgentAwake {
  import opened Options
  import opened AwakeStatuses
  import opened AwakeHost
  import opened LidHistory

  class LinuxLidSleepAssertion {
    const host: Host
    const isLinux: bool
    var owner: AgentAwakeService?          // receives onUnexpectedFailure
    var child: Option<nat>
    var retryNotBefore: Option<int>
    var retryTimer: Option<int>            // the instant at which the armed timer is due
    var systemdInhibitUnavailable: bool
    var intentionalStops: set<nat>
    var reportedFailures: set<nat>
    var childCleanups: set<nat>
    ghost var history: History

    constructor (host: Host, isLinux: bool)
      requires host.nextChild == 0 && host.listening == {} && host.kills == []
      ensures this.host == host && this.isLinux == isLinux && owner == null
      ensures history == [] && Sound() && TimerMatchesGate()
    {
      this.host, this.isLinux, owner := host, isLinux, null;
      child, retryNotBefore, retryTimer, systemdInhibitUnavailable := None, None, None, false;
      intentionalStops, reportedFailures, childCleanups := {}, {}, {};
      history := [];
    }

    ghost function State(): LidState
      reads this
    {
      LidState(child, retryNotBefore, systemdInhibitUnavailable, intentionalStops, reportedFailures)
    }

    /** Only the current child is listened to, and the retry timer never outlives the gate. */
    ghost predicate Wired()
      reads this, host
    {
      && host.listening == childCleanups == (if child.Some? then {child.value} else {})
      && (child.Some? || retryNotBefore.Some? ==> isLinux)
      && (child.Some? || systemdInhibitUnavailable ==> retryNotBefore.None?)
      && (retryTimer.Some? ==> retryNotBefore.Some? && retryTimer.value <= retryNotBefore.value)
    }

    ghost predicate Sound()
      reads this, host
    {
      Wired() && Laws(history, State(), host.nextChild, host.kills) && Remembered(history, State())
    }

    ghost predicate TimerMatchesGate()
      reads this
    {
      retryTimer.Some? <==> retryNotBefore.Some?
    }

    ghost function Point(): LidPoint
      reads this
    {
      LidPoint(history, child, retryNotBefore)
    }

    ghost predicate SameSets(stops: set<nat>, reported: set<nat>)
      reads this
    {
      intentionalStops == stops && reportedFailures == reported
    }

    /** start would ask for a child. */
    ghost predicate CanSpawn()
      reads this, host
    {
      isLinux && GateOpen(State(), host.now)
    }

    /** The retry timer is not armed, or is due when the closed gate opens. */
    ghost predicate TimerIsCurrent()
      reads this, host
    {
      retryTimer.None? || (retryTimer == retryNotBefore && !CanSpawn())
    }

    /** Starts the child process if none runs and the gate is open. What comes of a failed attempt depends on
        whether the owner, when told, still wants the assertion. */
    method Start()
      requires owner != null && owner.linux == this && owner.Sound()
      modifies this, owner, host
      ensures owner == old(owner) && owner.Sound() && TimerMatchesGate()
      ensures owner.Inputs() == old(owner.Inputs())
      ensures owner.staleTimer == old(owner.staleTimer) || owner.TimerIsNextExpiry()
      ensures owner.asked == old(owner.asked) || owner.asked == Some(Ask(host.now, owner.Wants()))
      ensures SameSets(old(intentionalStops), old(reportedFailures))
      ensures old(TimerIsCurrent()) ==> retryTimer == retryNotBefore
      ensures owner.Wants() ==>
        owner.RefreshedIf(FailsAgain(old(history), history), old(owner.blockerCalls), old(owner.blockerId))
      ensures if old(CanSpawn())
        then SpawnOutcome(old(history), old(host.nextChild), owner.Wants(), host.now, history, child, retryNotBefore)
        else history == old(history) && child == old(child) && retryNotBefore == old(retryNotBefore)
      decreases if CanSpawn() then 1 else 0, 2
    {
      hide Laws, Remembered, FailureOutcome;
      if !isLinux || child.Some? || systemdInhibitUnavailable {
        return;
      }
      if retryNotBefore.Some? && host.now < retryNotBefore.value {
        ScheduleRetry();
        return;
      }
      AttemptKeepsLaws(history, State(), host.nextChild, host.kills, host.now);
      history := history + [SpawnAttempted(host.now)];
      var result := host.Spawn();
      if !result.Child? {
        HandleFailure(result.ThrewMissing?);
        if owner.Wants() {
          WantedFailure(old(history), old(history) + [SpawnAttempted(host.now)], result.ThrewMissing?, host.now,
                        history, retryNotBefore);
        }
        return;
      }
      SpawnKeepsLaws(history, State(), result.id, host.kills);
      child := Some(result.id);
      childCleanups := childCleanups + {result.id};
      host.listening := host.listening + {result.id};
      ResetRetrySuppression();
    }

    method Stop()
      requires Wired() && Laws(history, State(), host.nextChild, host.kills)
      modifies this`child, this`retryNotBefore, this`retryTimer, this`intentionalStops, this`childCleanups
      modifies this`history, host`listening, host`kills
      ensures Sound() && TimerMatchesGate()
      ensures State() == AfterStop(old(State()))
      ensures history == old(history) + [Stopped] && host.kills == KillsAfterStop(old(State()), old(host.kills))
    {
      hide Laws, Remembered;
      StopKeepsLaws(history, State(), host.nextChild, host.kills);
      ResetRetrySuppression();
      history := history + [Stopped];
      if child.None? {
        return;
      }
      var stopped := child.value;
      child := None;
      intentionalStops := intentionalStops + {stopped};
      DetachChildListeners(stopped);
      host.Kill(stopped);
    }

    /** The error and exit listeners. Only a child that is listened to can report; a child that was
        stopped, or has reported before, changes nothing but the bookkeeping of intentional stops. */
    method HandleChildFailure(failed: nat, missing: bool)
      requires owner != null && owner.linux == this && owner.Sound() && TimerMatchesGate()
      requires failed in host.listening || failed in intentionalStops || failed in reportedFailures
      modifies this, owner, host
      ensures owner == old(owner) && owner.Sound() && TimerMatchesGate()
      ensures owner.Inputs() == old(owner.Inputs()) && failed !in host.listening
      ensures if failed in old(host.listening) && !missing
        then owner.TimerIsNextExpiry() && owner.asked == Some(Ask(host.now, owner.Wants()))
             && owner.RefreshedBlocker(old(owner.blockerCalls), old(owner.blockerId))
        else owner.Unasked(old(owner.staleTimer), old(owner.asked), old(owner.blockerCalls), old(owner.blockerId))
      ensures intentionalStops == old(intentionalStops) - {failed}
      ensures reportedFailures ==
        old(reportedFailures) + (if failed in old(host.listening) then {failed} else {})
      ensures ExtendsAt(old(history), history, host.now)
      ensures LidTurn(old(Point()), Point(), isLinux, host.now)
      ensures if failed in old(host.listening)
        then child.None? && FailureOutcome(old(history) + [Reported(failed)], missing, owner.Wants(), host.now,
                                           history, retryNotBefore)
        else history == old(history) && child == old(child) && retryNotBefore == old(retryNotBefore)
    {
      hide Laws, Remembered, FailureOutcome;
      ForgettingStopKeepsLaws(history, State(), host.nextChild, host.kills, failed);
      if child == Some(failed) {
        ReportKeepsLaws(history, State(), host.nextChild, host.kills, failed);
      }
      DetachChildListeners(failed);
      if failed in intentionalStops {
        intentionalStops := intentionalStops - {failed};
        return;
      }
      if failed in reportedFailures {
        return;
      }
      reportedFailures := reportedFailures + {failed};
      history := history + [Reported(failed)];
      if child == Some(failed) {
        child := None;
      }
      HandleFailure(missing);
      FailureExtends(old(history) + [Reported(failed)], missing, owner.Wants(), host.now, history, retryNotBefore);
    }

    method DetachChildListeners(c: nat)
      requires host.listening == childCleanups
      modifies this`childCleanups, host`listening
      ensures host.listening == childCleanups == old(childCleanups) - {c}
    {
      if c !in childCleanups {
        return;
      }
      host.listening := host.listening - {c};
      childCleanups := childCleanups - {c};
    }

    /** A failure: ENOENT is final; any other closes the gate, arms the timer and tells the owner. */
    method HandleFailure(missing: bool)
      requires owner != null && owner.linux == this && owner.Linked() && owner.BlockersTracked() && owner.AsAsked()
      requires Wired() && Laws(history, State(), host.nextChild, host.kills) && CanSpawn()
      modifies this, owner, host
      ensures owner == old(owner) && owner.Sound() && TimerMatchesGate()
      ensures owner.Inputs() == old(owner.Inputs())
      ensures if missing
        then owner.Unasked(old(owner.staleTimer), old(owner.asked), old(owner.blockerCalls), old(owner.blockerId))
        else owner.TimerIsNextExpiry() && owner.asked == Some(Ask(host.now, owner.Wants()))
             && owner.RefreshedBlocker(old(owner.blockerCalls), old(owner.blockerId))
      ensures SameSets(old(intentionalStops), old(reportedFailures)) && child.None?
      ensures old(retryTimer).None? ==> retryTimer == retryNotBefore
      ensures FailureOutcome(old(history), missing, owner.Wants(), host.now, history, retryNotBefore)
      decreases if CanSpawn() then 1 else 0, 1
    {
      hide Laws, Remembered;
      FailureKeepsLaws(history, State(), host.nextChild, host.kills, host.now, missing);
      history := history + [Failed(host.now, missing)];
      if missing {
        systemdInhibitUnavailable := true;
        ResetRetrySuppression();
        return;
      }
      retryNotBefore := Some(host.now + RETRY_MS);
      ScheduleRetry();
      owner.Refresh();
      NothingFailsAgain(history);
    }

    method ScheduleRetry()
      requires retryNotBefore.Some? ==> host.now < retryNotBefore.value
      modifies this`retryTimer
      ensures retryTimer == if retryNotBefore.None? || old(retryTimer).Some? then old(retryTimer) else retryNotBefore
    {
      if retryNotBefore.None? || retryTimer.Some? {
        return;
      }
      var retryDelay := if retryNotBefore.value - host.now > 0 then retryNotBefore.value - host.now else 0;
      retryTimer := Some(host.now + retryDelay);
    }

    method ResetRetrySuppression()
      modifies this`retryNotBefore, this`retryTimer
      ensures retryNotBefore.None? && retryTimer.None?
    {
      retryNotBefore := None;
      if retryTimer.None? {
        return;
      }
      retryTimer := None;
    }

    method RetryTimerFires()
      requires owner != null && owner.linux == this && owner.Sound() && TimerMatchesGate()
      requires retryTimer.Some?
      modifies this, owner, host
      // the timer that fired is gone: if one is armed, it was set anew for the gate
      ensures owner == old(owner) && owner.Sound() && TimerMatchesGate() && retryTimer == retryNotBefore
      ensures owner.Inputs() == old(owner.Inputs()) && owner.TimerIsNextExpiry()
      ensures owner.asked == Some(Ask(host.now, owner.Wants()))
      ensures owner.RefreshedTwiceIf(FailsAgain(old(history), history), old(owner.blockerCalls), old(owner.blockerId))
      ensures RefreshedLid(old(history), old(child), old(retryNotBefore), old(CanSpawn()),
                           old(host.nextChild), owner.Wants(), host.now,
                           history, child, retryNotBefore)
      ensures ExtendsAt(old(history), history, host.now)
      ensures LidTurn(old(Point()), Point(), isLinux, host.now)
    {
      hide Laws, Remembered, RefreshedLid, IsNextExpiry;
      retryTimer := None;
      ghost var was, spawned, killed := State(), host.nextChild, host.kills;
      owner.Refresh();
      RefreshIsTurn(old(history), was, isLinux, spawned, killed, spawned, owner.Wants(), host.now, Point());
      RefreshExtends(old(history), old(child), old(retryNotBefore), old(CanSpawn()),
                     old(host.nextChild), owner.Wants(), host.now, history, child, retryNotBefore);
    }
  }

  datatype BlockerCall = StartCalled(result: Option<nat>) | StopCalled(id: nat) | Asked(id: nat, answer: Answer)

  /** The blocker that a record of calls says is still started. */
  ghost function Tracked(calls: seq<BlockerCall>): Option<nat> {
    if calls == [] then None
    else match calls[|calls| - 1]
      case StartCalled(Some(id)) => Some(id)
      case Asked(_, No) => None
      case _ => Tracked(calls[..|calls| - 1])
  }

  type BlockerCalls = seq<BlockerCall>

  /** A start: it throws, or its blocker is asked about at once and forgotten only if it is off. */
  ghost predicate Begun(calls: BlockerCalls, calls': BlockerCalls, id': Option<nat>) {
    || (calls' == calls + [StartCalled(None)] && id' == None)
    || exists n: nat, answer :: calls' == calls + [StartCalled(Some(n))] + [Asked(n, answer)]
                        && id' == (if answer.No? then None else Some(n))
  }

  lemma BegunBy(calls: BlockerCalls, result: Option<nat>, answer: Answer)
    ensures var started := calls + [StartCalled(result)];
            if result.None? then Begun(calls, started, None)
            else Begun(calls, started + [Asked(result.value, answer)], if answer.No? then None else result)
  {
  }

  /** All that is asked of Electron when blocking is wanted: a tracked blocker is asked about and kept unless
      it is off; without one, or if it is off, a new one is started. */
  ghost predicate StartRound(calls: BlockerCalls, id: Option<nat>, calls': BlockerCalls, id': Option<nat>) {
    if id.None? then Begun(calls, calls', id')
    else
      || Begun(calls + [Asked(id.value, No)], calls', id')
      || exists answer: Answer :: !answer.No? && calls' == calls + [Asked(id.value, answer)] && id' == id
  }

  /** All that is asked of Electron when blocking is not wanted. */
  ghost predicate StopRound(calls: BlockerCalls, id: Option<nat>, calls': BlockerCalls, id': Option<nat>) {
    if id.None? then calls' == calls && id' == None
    else exists answer :: calls' == calls + [StopCalled(id.value)] + [Asked(id.value, answer)]
                       && id' == (if answer.No? then None else id)
  }

  /** While blocking is wanted nothing is ever stopped. */
  lemma StartingNeverStops(calls: BlockerCalls, id: Option<nat>, calls': BlockerCalls, id': Option<nat>)
    requires StartRound(calls, id, calls', id')
    ensures calls < calls' && forall k :: |calls| <= k < |calls'| ==> !calls'[k].StopCalled?
  {
  }

  datatype Ask = Ask(at: int, wanted: bool)

  class AgentAwakeService {
    const host: Host
    const linux: LinuxLidSleepAssertion
    var enabled: bool
    var statuses: seq<AgentAwakeStatus>
    var blockerId: Option<nat>
    var staleTimer: Option<int>            // the instant at which the armed timer is due
    var resumeSubscribed: bool
    ghost var blockerCalls: BlockerCalls
    ghost var asked: Option<Ask>           // what the last refresh since dispose wanted, and when

    constructor (host: Host, isLinux: bool, hasPowerMonitor: bool)
      requires host.nextChild == 0 && host.listening == {} && host.kills == [] && host.blockers == {}
      ensures this.host == host && Valid() && fresh(linux)
      ensures !enabled && statuses == [] && blockerId.None? && staleTimer.None?
      ensures resumeSubscribed == hasPowerMonitor && blockerCalls == [] && asked.None? && linux.history == []
    {
      this.host := host;
      linux := new LinuxLidSleepAssertion(host, isLinux);
      enabled, statuses, blockerId, staleTimer, resumeSubscribed := false, [], None, None, hasPowerMonitor;
      blockerCalls, asked := [], None;
      new;
      linux.owner := this;
    }

    ghost predicate Linked()
      reads this, linux
    {
      linux.host == host && linux.owner == this
    }

    ghost function Held(): set<nat>
      reads this
    {
      if blockerId.Some? then {blockerId.value} else {}
    }

    /** Every power-save blocker still started is the tracked one. */
    ghost predicate NoneUntracked()
      reads this, host
    {
      && host.blockers <= Held() && blockerId == Tracked(blockerCalls)
      && forall b :: b in host.blockers ==> b < host.nextBlocker
    }

    /** And if Electron cooperates, the tracked one is started. */
    ghost predicate BlockersTracked()
      reads this, host
    {
      NoneUntracked() && (host.cooperates ==> host.blockers == Held())
    }

    /** If Electron cooperates, a blocker is held iff blocking was wanted when last asked. */
    ghost predicate AsAsked()
      reads this, host
    {
      host.cooperates ==> (blockerId.Some? <==> asked.Some? && asked.value.wanted)
    }

    ghost predicate Sound()
      reads this, linux, host, linux.host
    {
      Linked() && BlockersTracked() && AsAsked() && linux.Sound()
    }

    /** What holds whenever no call is in progress. */
    ghost predicate Valid()
      reads this, linux, host, linux.host
    {
      && Sound() && linux.TimerMatchesGate()
      && (asked.Some? ==> asked.value.wanted == WantsBlocking(enabled, statuses, asked.value.at))
    }

    ghost function Inputs(): (bool, seq<AgentAwakeStatus>, bool, int)
      reads this, host
    {
      (enabled, statuses, resumeSubscribed, host.now)
    }

    ghost predicate Wants()
      reads this, host
    {
      WantsBlocking(enabled, statuses, host.now)
    }

    ghost predicate TimerIsNextExpiry()
      reads this, host
    {
      IsNextExpiry(statuses, host.now, staleTimer)
    }

    /** What one refresh asks of Electron. */
    ghost predicate RefreshedBlocker(calls: BlockerCalls, id: Option<nat>)
      reads this, host
    {
      if Wants() then StartRound(calls, id, blockerCalls, blockerId) else StopRound(calls, id, blockerCalls, blockerId)
    }

    ghost predicate RefreshedIf(refreshed: bool, calls: BlockerCalls, id: Option<nat>)
      reads this, host
    {
      if refreshed then RefreshedBlocker(calls, id) else blockerCalls == calls && blockerId == id
    }

    /** The same with a second refresh that a failure of the assertion calls for while blocking is wanted. */
    ghost predicate RefreshedTwiceIf(again: bool, calls: BlockerCalls, id: Option<nat>)
      reads this, host
    {
      if Wants() && again then
        exists mid, midId :: StartRound(calls, id, mid, midId) && StartRound(mid, midId, blockerCalls, blockerId)
      else RefreshedBlocker(calls, id)
    }

    /** A turn in which the service refreshed. */
    twostate predicate Refreshed()
      reads this, host, linux
    {
      && TimerIsNextExpiry() && asked == Some(Ask(host.now, Wants()))
      && RefreshedTwiceIf(FailsAgain(old(linux.history), linux.history), old(blockerCalls), old(blockerId))
    }

    ghost predicate Unasked(timer: Option<int>, ask: Option<Ask>, calls: BlockerCalls, id: Option<nat>)
      reads this
    {
      staleTimer == timer && asked == ask && blockerCalls == calls && blockerId == id
    }

    /** Sets the stale timer, then asks for blocking or for release. A failing start calls refresh again;
        that inner refresh finds the gate closed, so it cannot start anything and the chain ends. The macOS
        assertion, which does nothing on Linux, is started and stopped here too; it has no part in this state. */
    method Refresh()
      requires Sound()
      modifies this, linux, host
      ensures Valid() && Inputs() == old(Inputs())
      ensures TimerIsNextExpiry()
      ensures asked == Some(Ask(host.now, Wants()))
      ensures linux.SameSets(old(linux.intentionalStops)
                               + (if !Wants() && old(linux.child).Some? then {old(linux.child).value} else {}),
                             old(linux.reportedFailures))
      ensures old(linux.TimerIsCurrent()) ==> linux.retryTimer == linux.retryNotBefore
      ensures RefreshedTwiceIf(FailsAgain(old(linux.history), linux.history), old(blockerCalls), old(blockerId))
      ensures RefreshedLid(old(linux.history), old(linux.child), old(linux.retryNotBefore), old(linux.CanSpawn()),
                           old(host.nextChild), Wants(), host.now,
                           linux.history, linux.child, linux.retryNotBefore)
      decreases if linux.CanSpawn() then 1 else 0, 3
    {
      hide Laws, Remembered, FailureOutcome, IsNextExpiry;
      ScheduleStaleTimer();
      var shouldBlock := enabled && |EligibleRunningStatuses(statuses, host.now)| > 0;
      if shouldBlock {
        StartBlocker();
        ghost var mid, midId := blockerCalls, blockerId;
        linux.Start();
      } else {
        StopBlocker();
        linux.Stop();
      }
    }

    method ScheduleStaleTimer()
      modifies this`staleTimer
      ensures TimerIsNextExpiry()
      // it is armed iff an expiry lies ahead
      ensures staleTimer.Some? <==> exists s :: s in statuses && IsObservedWork(s) && Expiry(s) > host.now
      ensures staleTimer.Some? ==> staleTimer.value > host.now
    {
      ClearStaleTimer();
      var earliestExpiry := NextExpiry(statuses, host.now);
      if earliestExpiry.None? {
        return;
      }
      var delay := earliestExpiry.value - host.now;
      staleTimer := Some(host.now + delay);
    }

    method ClearStaleTimer()
      modifies this`staleTimer
      ensures staleTimer.None?
    {
      if staleTimer.None? {
        return;
      }
      staleTimer := None;
    }

    method StartBlocker()
      requires BlockersTracked()
      modifies this`blockerId, this`blockerCalls, this`asked, host`blockers, host`nextBlocker
      ensures BlockersTracked() && AsAsked() && asked == Some(Ask(host.now, true))
      ensures StartRound(old(blockerCalls), old(blockerId), blockerCalls, blockerId)
    {
      hide Tracked, Begun;
      asked := Some(Ask(host.now, true));
      if blockerId.Some? {
        var stillStarted, _ := ReconcileBlocker();
        if stillStarted {
          return;
        }
      }
      BeginBlocker();
    }

    /** A new blocker is started and, if that did not throw, asked about at once. */
    method BeginBlocker()
      requires BlockersTracked() && blockerId.None?
      modifies this`blockerId, this`blockerCalls, host`blockers, host`nextBlocker
      ensures BlockersTracked() && (host.cooperates ==> blockerId.Some?)
      ensures Begun(old(blockerCalls), blockerCalls, blockerId)
    {
      hide Tracked, Begun;
      var result := host.StartBlocker();
      NoteBlocker(StartCalled(result));
      ghost var answer := NoAnswer;
      if result.Some? {
        blockerId := result;
        var _, reply := ReconcileBlocker();
        answer := reply;
      }
      BegunBy(old(blockerCalls), result, answer);
    }

    method StopBlocker()
      requires BlockersTracked()
      modifies this`blockerId, this`blockerCalls, this`asked, host`blockers
      ensures BlockersTracked() && AsAsked() && asked == Some(Ask(host.now, false))
      ensures StopRound(old(blockerCalls), old(blockerId), blockerCalls, blockerId)
    {
      hide Tracked;
      asked := Some(Ask(host.now, false));
      if blockerId.None? {
        return;
      }
      host.StopBlocker(blockerId.value);
      NoteBlocker(StopCalled(blockerId.value));
      var _, _ := ReconcileBlocker();
    }

    /** Forgets the tracked blocker if Electron says that it is off; if Electron cannot tell, it counts as on. */
    method ReconcileBlocker() returns (isStarted: bool, ghost answer: Answer)
      requires NoneUntracked()
      modifies this`blockerId, this`blockerCalls
      ensures NoneUntracked()
      ensures old(blockerId).None? ==> !isStarted && blockerId.None? && blockerCalls == old(blockerCalls)
      ensures old(blockerId).Some? ==>
        && blockerCalls == old(blockerCalls) + [Asked(old(blockerId).value, answer)]
        && isStarted == !answer.No? && blockerId == (if answer.No? then None else old(blockerId))
        && (host.cooperates ==> isStarted == (old(blockerId).value in host.blockers))
    {
      if blockerId.None? {
        return false, NoAnswer;
      }
      var id := blockerId.value;
      var reply := host.AskBlocker(id);
      NoteBlocker(Asked(id, reply));
      if reply.No? {
        blockerId := None;
      }
      return !reply.No?, reply;
    }

    // ---------- The calls and callbacks that begin a turn ----------

    method SetEnabled(on: bool)
      requires Valid()
      modifies this, linux, host
      ensures Valid() && Inputs() == (on, old(statuses), old(resumeSubscribed), old(host.now))
      ensures ExtendsAt(old(linux.history), linux.history, host.now)
      ensures LidTurn(old(linux.Point()), linux.Point(), linux.isLinux, host.now)
      ensures on != old(enabled) ==> Refreshed()
      ensures on == old(enabled) ==> linux.history == old(linux.history) && linux.retryTimer == old(linux.retryTimer)
      ensures on == old(enabled) ==> Unasked(old(staleTimer), old(asked), old(blockerCalls), old(blockerId))
    {
      if enabled == on {
        return;
      }
      enabled := on;
      RefreshTurn();
    }

    method SetStatuses(latest: seq<AgentAwakeStatus>)
      requires Valid()
      modifies this, linux, host
      ensures Valid() && Inputs() == (old(enabled), latest, old(resumeSubscribed), old(host.now))
      ensures ExtendsAt(old(linux.history), linux.history, host.now)
      ensures LidTurn(old(linux.Point()), linux.Point(), linux.isLinux, host.now)
      ensures Refreshed()
    {
      statuses := latest;
      RefreshTurn();
    }

    method PowerResumes()
      requires Valid() && resumeSubscribed
      modifies this, linux, host
      ensures Valid() && Inputs() == old(Inputs())
      ensures ExtendsAt(old(linux.history), linux.history, host.now)
      ensures LidTurn(old(linux.Point()), linux.Point(), linux.isLinux, host.now)
      ensures Refreshed()
    {
      RefreshTurn();
    }

    method StaleTimerFires()
      requires Valid() && staleTimer.Some?
      modifies this, linux, host
      ensures Valid() && Inputs() == old(Inputs())
      ensures ExtendsAt(old(linux.history), linux.history, host.now)
      ensures LidTurn(old(linux.Point()), linux.Point(), linux.isLinux, host.now)
      ensures Refreshed()
    {
      staleTimer := None;
      RefreshTurn();
    }

    /** Releases everything. If disposing of the macOS assertion throws, the exception leaves dispose
        before the Linux assertion is stopped. */
    method Dispose() returns (threw: bool)
      requires Valid()
      modifies this, linux, host
      ensures Valid() && Inputs() == (old(enabled), old(statuses), false, old(host.now))
      ensures staleTimer.None? && ExtendsAt(old(linux.history), linux.history, host.now)
      ensures LidTurn(old(linux.Point()), linux.Point(), linux.isLinux, host.now)
      ensures asked.None? && StopRound(old(blockerCalls), old(blockerId), blockerCalls, blockerId)
      ensures linux.history == if threw then old(linux.history) else old(linux.history) + [Stopped]
      ensures !threw ==> linux.child.None? && linux.retryTimer.None?
    {
      hide Laws, Remembered, RefreshedLid, StopRound, LidTurn;
      ClearStaleTimer();
      resumeSubscribed := false;
      StopBlocker();
      asked := None;
      var macosThrows: bool := *;
      if macosThrows {
        NothingIsTurn(linux.Point(), linux.isLinux, host.now);
        return true;
      }
      linux.Stop();
      StopIsTurn(old(linux.Point()), linux.isLinux, host.now);
      return false;
    }

    method RefreshTurn()
      requires Sound()
      modifies this, linux, host
      ensures Valid() && Inputs() == old(Inputs())
      ensures ExtendsAt(old(linux.history), linux.history, host.now)
      ensures LidTurn(old(linux.Point()), linux.Point(), linux.isLinux, host.now)
      ensures Refreshed()
    {
      hide Laws, Remembered, RefreshedLid, IsNextExpiry, StartRound, StopRound, FailsAgain;
      ghost var was, spawned, killed := linux.State(), host.nextChild, host.kills;
      Refresh();
      RefreshIsTurn(old(linux.history), was, linux.isLinux, spawned, killed, spawned, Wants(), host.now, linux.Point());
      RefreshExtends(old(linux.history), old(linux.child), old(linux.retryNotBefore), old(linux.CanSpawn()),
                     old(host.nextChild), Wants(), host.now, linux.history, linux.child, linux.retryNotBefore);
    }

    /** Records a call. */
    ghost method NoteBlocker(call: BlockerCall)
      modifies this`blockerCalls
      ensures blockerCalls == old(blockerCalls) + [call]
      ensures Tracked(blockerCalls) == (match call
                                        case StartCalled(Some(id)) => Some(id)
                                        case Asked(_, No) => None
                                        case _ => Tracked(old(blockerCalls)))
    {
      blockerCalls := blockerCalls + [call];
      assert blockerCalls[..|blockerCalls| - 1] == old(blockerCalls);
    }
  }

  // ---------- Whole runs ----------

  datatype Input =
    | ClockReads(at: int)
    | BlockerLost                          // Electron drops a blocker by itself
    | EnabledSet(on: bool)
    | StatusesSet(statuses: seq<AgentAwakeStatus>)
    | PowerResumed
    | StaleTimerFired
    | RetryTimerFired
    | ChildErrored(child: nat, missing: bool)
    | ChildExited(child: nat)
    | Disposed

  /** The clock inputs never go back. */
  ghost predicate Forward(inputs: seq<Input>, now: int) {
    inputs == [] || (if inputs[0].ClockReads? then now <= inputs[0].at && Forward(inputs[1..], inputs[0].at)
                     else Forward(inputs[1..], now))
  }

  /** The input makes the service refresh. */
  ghost predicate AsksForRefresh(service: AgentAwakeService, input: Input)
    reads service, service.linux, service.host
  {
    match input
    case EnabledSet(on) => on != service.enabled
    case StatusesSet(_) => true
    case PowerResumed => service.resumeSubscribed
    case StaleTimerFired => service.staleTimer.Some?
    case RetryTimerFired => service.linux.retryTimer.Some?
    case ChildErrored(child, missing) => child in service.host.listening && !missing
    case ChildExited(child) => child in service.host.listening
    case _ => false
  }

  /** What the failure of the current child adds: an exit is never ENOENT. */
  ghost predicate AddsFailure(input: Input, h: History, listening: set<nat>, wanted: bool, now: int, h': History,
                              gate: Option<int>) {
    match input
    case ChildErrored(child, missing) =>
      child in listening ==> FailureOutcome(h + [Reported(child)], missing, wanted, now, h', gate)
    case ChildExited(child) =>
      child in listening ==> FailureOutcome(h + [Reported(child)], false, wanted, now, h', gate)
    case _ => true
  }

  /** The clock reads something else, or Electron, if it does not cooperate, drops a blocker. */
  method EnvironmentMoves(service: AgentAwakeService, at: int, drops: bool)
    requires service.Valid()
    modifies service.host`now, service.host`blockers
    ensures service.Valid() && service.host.now == at
    ensures service.host.blockers == if drops && !service.host.cooperates then {} else old(service.host.blockers)
  {
    hide Laws, Remembered;
    service.host.now := at;
    if drops && !service.host.cooperates {
      service.host.blockers := {};
    }
  }

  /** One turn. Callbacks that the state does not allow - a timer that is not armed, a child that is not
      listened to, a resume after dispose - do not happen. */
  method Turn(service: AgentAwakeService, input: Input)
    requires service.Valid()
    modifies service, service.linux, service.host
    ensures service.Valid()
    ensures service.host.now == if input.ClockReads? then input.at else old(service.host.now)
    ensures ExtendsAt(old(service.linux.history), service.linux.history, service.host.now)
    ensures LidTurn(old(service.linux.Point()), service.linux.Point(), service.linux.isLinux, service.host.now)
    ensures input.ClockReads? || (input.BlockerLost? && service.host.cooperates) ==>
              service.host.blockers == old(service.host.blockers)
    ensures input.BlockerLost? && !service.host.cooperates ==> service.host.blockers == {}
    // what the input sets, and nothing else
    ensures service.enabled == if input.EnabledSet? then input.on else old(service.enabled)
    ensures service.statuses == if input.StatusesSet? then input.statuses else old(service.statuses)
    ensures service.resumeSubscribed == (old(service.resumeSubscribed) && !input.Disposed?)
    // it refreshes iff it asks for that; otherwise timer and blocker are left alone, or released by dispose
    ensures if old(AsksForRefresh(service, input)) then
              service.TimerIsNextExpiry() && service.asked == Some(Ask(service.host.now, service.Wants()))
            else if input.Disposed? then service.staleTimer.None? && service.asked.None?
            else service.Unasked(old(service.staleTimer), old(service.asked), old(service.blockerCalls),
                                 old(service.blockerId))
    // while blocking is wanted nothing is stopped
    ensures old(AsksForRefresh(service, input)) && service.Wants() ==>
              old(service.blockerCalls) < service.blockerCalls
              && forall k :: |old(service.blockerCalls)| <= k < |service.blockerCalls| ==>
                   !service.blockerCalls[k].StopCalled?
    ensures AddsFailure(input, old(service.linux.history), old(service.host.listening), service.Wants(),
                        service.host.now, service.linux.history, service.linux.retryNotBefore)
  {
    hide Laws, Remembered, RefreshedLid, FailureOutcome, IsNextExpiry, StartRound, StopRound, FailsAgain, LidTurn;
    hide ExtendsAt, WantsBlocking, LinuxLidSleepAssertion.Wired, AgentAwakeService.NoneUntracked;
    hide AgentAwakeService.RefreshedTwiceIf, AgentAwakeService.RefreshedBlocker, AgentAwakeService.AsAsked;
    NothingIsTurn(service.linux.Point(), service.linux.isLinux, service.host.now);
    match input {
    case ClockReads(at) =>
      EnvironmentMoves(service, at, false);
      NothingIsTurn(service.linux.Point(), service.linux.isLinux, at);
    case BlockerLost =>
      EnvironmentMoves(service, service.host.now, true);
    case EnabledSet(on) =>
      service.SetEnabled(on);
    case StatusesSet(statuses) =>
      service.SetStatuses(statuses);
    case PowerResumed =>
      if service.resumeSubscribed {
        service.PowerResumes();
      }
    case StaleTimerFired =>
      if service.staleTimer.Some? {
        service.StaleTimerFires();
      }
    case RetryTimerFired =>
      if service.linux.retryTimer.Some? {
        service.linux.RetryTimerFires();
      }
    case ChildErrored(child, missing) =>
      if child in service.host.listening {
        service.linux.HandleChildFailure(child, missing);
      }
    case ChildExited(child) =>
      if child in service.host.listening {
        service.linux.HandleChildFailure(child, false);
      }
    case Disposed =>
      var _ := service.Dispose();
    }
    if old(AsksForRefresh(service, input)) && service.Wants() {
      RefreshNeverStops(service, old(service.blockerCalls), old(service.blockerId),
                        FailsAgain(old(service.linux.history), service.linux.history));
    }
  }

  lemma RefreshNeverStops(service: AgentAwakeService, calls: BlockerCalls, id: Option<nat>, again: bool)
    requires service.Wants()
    requires service.RefreshedTwiceIf(again, calls, id) || service.RefreshedBlocker(calls, id)
    ensures calls < service.blockerCalls
    ensures forall k :: |calls| <= k < |service.blockerCalls| ==> !service.blockerCalls[k].StopCalled?
  {
    hide StartRound;
    if !service.RefreshedBlocker(calls, id) {
      var mid, midId :| StartRound(calls, id, mid, midId)
                        && StartRound(mid, midId, service.blockerCalls, service.blockerId);
      StartingNeverStops(calls, id, mid, midId);
      StartingNeverStops(mid, midId, service.blockerCalls, service.blockerId);
    } else {
      StartingNeverStops(calls, id, service.blockerCalls, service.blockerId);
    }
  }

  lemma ValidKeeps(service: AgentAwakeService)
    requires service.Valid()
    ensures service.host.blockers <= (if service.blockerId.Some? then {service.blockerId.value} else {})
    ensures service.host.cooperates ==>
      if service.asked.Some? && service.asked.value.wanted
      then service.blockerId.Some? && service.host.blockers == {service.blockerId.value}
      else service.blockerId.None? && service.host.blockers == {}
    ensures service.asked.Some? ==>
      service.asked.value.wanted == WantsBlocking(service.enabled, service.statuses, service.asked.value.at)
    ensures Conserved(service.linux.history, service.linux.child, service.host.nextChild, service.host.kills)
    ensures service.host.listening == (if service.linux.child.Some? then {service.linux.child.value} else {})
    ensures service.linux.retryTimer.Some? <==> service.linux.retryNotBefore.Some?
    ensures var h := service.linux.history;
            forall i, j :: 0 <= i < j < |h| && h[i].Failed? && h[j].SpawnAttempted? ==>
              !h[i].missing
              && (FailuresForward(h) && NoStopBetween(h, i, j) ==> h[j].at >= h[i].at + 30_000)
  {
    hide WantsBlocking, FailuresForward, NoStopBetween, Conserved;
    ghost var h := service.linux.history;
    forall i, j | 0 <= i < j < |h| && h[i].Failed? && h[j].SpawnAttempted?
      ensures !h[i].missing
      ensures FailuresForward(h) && NoStopBetween(h, i, j) ==> h[j].at >= h[i].at + 30_000
    {
      RetryWindow(h, i, j);
    }
  }

  /** Any run from the start. At its end, and so after every prefix of it: no blocker is started but the
      tracked one; every child ever spawned is exactly one of current, killed and reported, and only the
      current one is listened to; the retry timer is armed iff the gate is closed; nothing is spawned
      after ENOENT, nor within the retry window of a failure unless stop ran in between or the clock went
      back so far that a later failure bears an earlier time. */
  method Run(start: int, isLinux: bool, hasPowerMonitor: bool, cooperates: bool, inputs: seq<Input>)
    returns (service: AgentAwakeService)
    ensures service.Valid() && service.host.cooperates == cooperates
    ensures service.host.blockers <= (if service.blockerId.Some? then {service.blockerId.value} else {})
    ensures cooperates ==>
      if service.asked.Some? && service.asked.value.wanted
      then service.blockerId.Some? && service.host.blockers == {service.blockerId.value}
      else service.blockerId.None? && service.host.blockers == {}
    ensures service.asked.Some? ==>
      service.asked.value.wanted == WantsBlocking(service.enabled, service.statuses, service.asked.value.at)
    ensures Conserved(service.linux.history, service.linux.child, service.host.nextChild, service.host.kills)
    ensures service.host.listening == (if service.linux.child.Some? then {service.linux.child.value} else {})
    ensures service.linux.retryTimer.Some? <==> service.linux.retryNotBefore.Some?
    ensures var h := service.linux.history;
            forall i, j :: 0 <= i < j < |h| && h[i].Failed? && h[j].SpawnAttempted? ==>
              !h[i].missing
              && (FailuresForward(h) && NoStopBetween(h, i, j) ==> h[j].at >= h[i].at + 30_000)
    ensures Forward(inputs, start) ==> FailuresForward(service.linux.history)
  {
    hide AgentAwakeService.Valid, Conserved, FailuresForward, NoStopBetween, WantsBlocking;
    var host := new Host(start, cooperates);
    service := new AgentAwakeService(host, isLinux, hasPowerMonitor);
    ghost var forward := Forward(inputs, start);
    for n := 0 to |inputs|
      invariant fresh(service) && fresh(service.linux) && fresh(service.host)
      invariant service.Valid() && service.host.cooperates == cooperates
      invariant forward ==> Forward(inputs[n..], service.host.now)
      invariant forward ==> ClockForward(service.linux.history) && UpTo(service.linux.history, service.host.now)
    {
      hide Laws, Remembered, ClockForward, UpTo, ExtendsAt, LidTurn, AddsFailure, AsksForRefresh;
      ghost var before := service.linux.history;
      ghost var was := service.host.now;
      assert inputs[n..][0] == inputs[n] && inputs[n..][1..] == inputs[n + 1..];
      Turn(service, inputs[n]);
      if forward {
        UpToLater(before, was, service.host.now);
        ExtendKeepsForward(before, service.linux.history, service.host.now);
      }
    }
    ValidKeeps(service);
    if forward {
      ForwardClockOrdersFailures(service.linux.history);
    }
  }
}
