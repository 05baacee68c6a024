/** What the Linux lid assertion has done so far, and the laws that its history obeys. */
module LidHistory {
  import opened Options

  const RETRY_MS := 30_000

  datatype LidEvent =
    | SpawnAttempted(at: int)                // systemd-inhibit was asked for
    | Failed(at: int, missing: bool)         // handleFailure ran; `missing` is ENOENT
    | Reported(child: nat)                   // a child was reported as failed
    | Stopped                                // stop ran

  type History = seq<LidEvent>

  // ---------- Conservation of children ----------

  ghost function Times(h: History, e: LidEvent): nat {
    multiset(h)[e]
  }

  lemma TimesAppend(h: History, e: LidEvent)
    ensures forall f :: Times(h + [e], f) == Times(h, f) + (if e == f then 1 else 0)
  {
  }

  /** Every child spawned so far - they are those below `nextChild` - is exactly one of: current, killed
      once, reported once as failed. No other child ever was any of these. */
  ghost predicate Conserved(h: History, current: Option<nat>, nextChild: nat, kills: seq<nat>) {
    forall c: nat ::
      (if current == Some(c) then 1 else 0) + multiset(kills)[c] + Times(h, Reported(c))
      == (if c < nextChild then 1 else 0)
  }

  // ---------- Pacing of spawns ----------

  /** The time of the last failure, unless stop ran since. */
  ghost function PendingFailure(h: History): Option<int> {
    if h == [] then None
    else match h[|h| - 1]
      case Failed(at, _) => Some(at)
      case Stopped => None
      case _ => PendingFailure(h[..|h| - 1])
  }

  ghost predicate MissingSeen(h: History) {
    exists i :: 0 <= i < |h| && h[i].Failed? && h[i].missing
  }

  ghost predicate MaySpawn(h: History, at: int) {
    && !MissingSeen(h)
    && (PendingFailure(h).Some? ==> at >= PendingFailure(h).value + RETRY_MS)
  }

  /** Every spawn attempt was allowed when it was made. */
  ghost predicate Paced(h: History) {
    forall j :: 0 <= j < |h| && h[j].SpawnAttempted? ==> MaySpawn(h[..j], h[j].at)
  }

  lemma PacedAppend(h: History, e: LidEvent)
    requires Paced(h) && (e.SpawnAttempted? ==> MaySpawn(h, e.at))
    ensures Paced(h + [e])
  {
    var h' := h + [e];
    forall j | 0 <= j < |h'| && h'[j].SpawnAttempted?
      ensures MaySpawn(h'[..j], h'[j].at)
    {
      assert h'[..j] == h[..j];
      assert h[..|h|] == h;
    }
  }

  lemma PendingAppend(h: History, e: LidEvent)
    ensures PendingFailure(h + [e]) == (match e
                                        case Failed(at, _) => Some(at)
                                        case Stopped => None
                                        case _ => PendingFailure(h))
    ensures MissingSeen(h + [e]) <==> MissingSeen(h) || (e.Failed? && e.missing)
  {
    var h' := h + [e];
    assert h'[..|h'| - 1] == h;
    assert h'[|h|] == e;
    if MissingSeen(h) {
      var i :| 0 <= i < |h| && h[i].Failed? && h[i].missing;
      assert h'[i].Failed? && h'[i].missing;
    }
  }

  predicate IsTimed(e: LidEvent) {
    e.SpawnAttempted? || e.Failed?
  }

  /** The clock did not run backwards between events. */
  ghost predicate ClockForward(h: History) {
    forall i, j :: 0 <= i < j < |h| && IsTimed(h[i]) && IsTimed(h[j]) ==> h[i].at <= h[j].at
  }

  ghost predicate NoStopBetween(h: History, i: nat, n: nat)
    requires n <= |h|
  {
    forall k :: i < k < n ==> !h[k].Stopped?
  }

  /** The failure is pending at some moment: it is not made up for by a stop at once, and no failure up to it
      is an ENOENT. */
  ghost predicate Pends(h: History, j: nat)
    requires j < |h|
  {
    h[j].Failed? && !MissingSeen(h[..j + 1]) && (j + 1 < |h| ==> !h[j + 1].Stopped?)
  }

  /** Of the failures between two stops none that comes to be pending is recorded at an earlier time than one
      before it. */
  ghost predicate FailuresForward(h: History) {
    forall i, j :: 0 <= i < j < |h| && h[i].Failed? && Pends(h, j) && NoStopBetween(h, i, j) ==> h[i].at <= h[j].at
  }

  /** The pending failure is the last one, if no stop has followed it. */
  lemma {:induction false} PendingIsLast(h: History, i: nat) returns (j: nat)
    requires i < |h| && h[i].Failed? && NoStopBetween(h, i, |h|)
    ensures i <= j < |h| && h[j].Failed? && PendingFailure(h) == Some(h[j].at)
  {
    var last := |h| - 1;
    if h[last].Failed? {
      j := last;
    } else {
      j := PendingIsLast(h[..last], i);
    }
  }

  /** The retry window over a whole run: nothing is ever spawned after ENOENT, and if failures are recorded
      in the order of their times, a failure at t is followed by a spawn before t + 30000 only if stop ran
      in between. */
  lemma RetryWindow(h: History, i: nat, j: nat)
    requires Paced(h)
    requires i < j < |h| && h[i].Failed? && h[j].SpawnAttempted?
    ensures !h[i].missing
    ensures FailuresForward(h) && NoStopBetween(h, i, j) ==> h[j].at >= h[i].at + RETRY_MS
  {
    var before := h[..j];
    assert before[i] == h[i];
    if FailuresForward(h) && NoStopBetween(h, i, j) {
      assert NoStopBetween(before, i, |before|);
      var last := PendingIsLast(before, i);
      assert before[last] == h[last] && (i < last ==> NoStopBetween(h, i, last));
      assert Pends(h, last) by {
        MissingLater(h, last + 1, j);
      }
    }
  }

  lemma ForwardClockOrdersFailures(h: History)
    requires ClockForward(h)
    ensures FailuresForward(h)
  {
  }

  /** After a failure that no stop has followed, the gate keeps its window exactly if the failure is not
      later than the pending one. */
  lemma WindowKeptIff(h: History, i: nat)
    requires i < |h| && h[i].Failed? && NoStopBetween(h, i, |h|) && !MissingSeen(h)
    ensures PendingFailure(h).Some?
    ensures (forall t :: MaySpawn(h, t) ==> t >= h[i].at + RETRY_MS) <==> PendingFailure(h).value >= h[i].at
  {
    var j := PendingIsLast(h, i);
    assert MaySpawn(h, h[j].at + RETRY_MS);
  }

  lemma MissingLater(h: History, m: nat, n: nat)
    requires m <= n <= |h|
    ensures MissingSeen(h[..m]) ==> MissingSeen(h[..n])
  {
    if MissingSeen(h[..m]) {
      var i :| 0 <= i < |h[..m]| && h[..m][i].Failed? && h[..m][i].missing;
      assert h[..n][i] == h[..m][i];
    }
  }

  /** At every moment at which the run did not go on with a stop, a spawn that the gate would let through keeps
      the window of every failure that no stop has followed. A failure whose refresh stops the assertion in
      the same turn is no such moment. */
  ghost predicate WindowAlwaysKept(h: History) {
    forall n, i, t :: 0 <= i < n <= |h| && (n < |h| ==> !h[n].Stopped?)
                      && h[i].Failed? && NoStopBetween(h, i, n) && MaySpawn(h[..n], t) ==>
      t >= h[i].at + RETRY_MS
  }

  /** Exactly when the window is kept whatever the clock does: no failure comes to be pending with an earlier
      time than one before it that no stop has followed. */
  lemma WindowAlwaysKeptIff(h: History)
    ensures WindowAlwaysKept(h) <==> FailuresForward(h)
  {
    hide MaySpawn, PendingFailure, MissingSeen;
    if WindowAlwaysKept(h) {
      forall i, j | 0 <= i < j < |h| && h[i].Failed? && Pends(h, j) && NoStopBetween(h, i, j)
        ensures h[i].at <= h[j].at
      {
        GateAfterFailure(h, j);
        assert NoStopBetween(h, i, j + 1);
        assert MaySpawn(h[..j + 1], h[j].at + RETRY_MS);
      }
    }
    if FailuresForward(h) {
      forall n, i, t | 0 <= i < n <= |h| && (n < |h| ==> !h[n].Stopped?)
                       && h[i].Failed? && NoStopBetween(h, i, n) && MaySpawn(h[..n], t)
        ensures t >= h[i].at + RETRY_MS
      {
        assert h[..n][i] == h[i] && NoStopBetween(h[..n], i, n);
        var j := PendingIsLast(h[..n], i);
        assert h[..n][j] == h[j] && (i < j ==> NoStopBetween(h, i, j));
        SpawnsAfterPending(h[..n], t);
        MissingLater(h, j + 1, n);
        assert Pends(h, j);
      }
    }
  }

  lemma GateAfterFailure(h: History, j: nat)
    requires j < |h| && Pends(h, j)
    ensures MaySpawn(h[..j + 1], h[j].at + RETRY_MS)
  {
    assert PendingFailure(h[..j + 1]) == Some(h[j].at);
  }

  lemma SpawnsAfterPending(h: History, t: int)
    requires MaySpawn(h, t) && PendingFailure(h).Some?
    ensures !MissingSeen(h) && t >= PendingFailure(h).value + RETRY_MS
  {
  }

  /** Even if the clock jumps back, the failure that a spawn follows directly is respected. */
  lemma RetryWindowAnyClock(h: History, i: nat, j: nat)
    requires Paced(h)
    requires i < j < |h| && h[i].Failed? && h[j].SpawnAttempted?
    requires forall k :: i < k < j ==> !h[k].Stopped? && !h[k].Failed?
    ensures h[j].at >= h[i].at + RETRY_MS
  {
    PendingIsHere(h[..j], i);
  }

  lemma {:induction false} PendingIsHere(h: History, i: nat)
    requires i < |h| && h[i].Failed?
    requires forall k :: i < k < |h| ==> !h[k].Stopped? && !h[k].Failed?
    ensures PendingFailure(h) == Some(h[i].at)
  {
    if i < |h| - 1 {
      PendingIsHere(h[..|h| - 1], i);
    }
  }

  // ---------- What one call adds ----------

  /** A failure is final if the program is missing; otherwise it closes the gate for the retry window,
      unless the owner no longer wants the assertion and stops it, which opens the gate again. */
  ghost predicate FailureOutcome(h: History, missing: bool, wanted: bool, now: int, h': History, gate: Option<int>) {
    if missing then h' == h + [Failed(now, true)] && gate == None
    else if wanted then h' == h + [Failed(now, false)] && gate == Some(now + RETRY_MS)
    else h' == h + [Failed(now, false)] + [Stopped] && gate == None
  }

  ghost predicate SpawnOutcome(h: History, next: nat, wanted: bool, now: int,
                               h': History, current: Option<nat>, gate: Option<int>) {
    var attempted := h + [SpawnAttempted(now)];
    || (current == Some(next) && h' == attempted && gate == None)
    || (current == None && FailureOutcome(attempted, true, wanted, now, h', gate))
    || (current == None && FailureOutcome(attempted, false, wanted, now, h', gate))
  }

  /** A failure other than ENOENT was the last thing to be added: the owner refreshed because of it. */
  ghost predicate FailsAgain(h: History, h': History) {
    |h'| > |h| && h'[|h'| - 1].Failed? && !h'[|h'| - 1].missing
  }

  /** What a refresh does to the assertion. */
  ghost predicate RefreshedLid(h: History, current: Option<nat>, gate: Option<int>, canSpawn: bool,
                               next: nat, wanted: bool, now: int,
                               h': History, current': Option<nat>, gate': Option<int>) {
    if !wanted then h' == h + [Stopped] && current' == None && gate' == None
    else if canSpawn then SpawnOutcome(h, next, wanted, now, h', current', gate')
    else h' == h && current' == current && gate' == gate
  }

  // ---------- Turns ----------

  /** Where the assertion stands between two turns, as far as its next steps depend on it. */
  datatype LidPoint = LidPoint(history: History, child: Option<nat>, gate: Option<int>)

  ghost predicate MayAttempt(p: LidPoint, isLinux: bool, now: int) {
    isLinux && p.child.None? && !MissingSeen(p.history) && (p.gate.Some? ==> now >= p.gate.value)
  }

  /** One turn at the given time: nothing happens, the owner refreshes, or the child fails. */
  ghost predicate LidTurn(p: LidPoint, q: LidPoint, isLinux: bool, now: int) {
    p == q || Refreshes(p, q, isLinux, now) || ChildFails(p, q, now)
  }

  ghost predicate Refreshes(p: LidPoint, q: LidPoint, isLinux: bool, now: int) {
    exists wanted, next :: RefreshedLid(p.history, p.child, p.gate, MayAttempt(p, isLinux, now), next, wanted, now,
                                        q.history, q.child, q.gate)
  }

  ghost predicate ChildFails(p: LidPoint, q: LidPoint, now: int) {
    p.child.Some? && q.child.None?
    && exists missing, wanted ::
         FailureOutcome(p.history + [Reported(p.child.value)], missing, wanted, now, q.history, q.gate)
  }

  /** Turns one after the other, each at its own time. */
  ghost predicate LidRun(points: seq<LidPoint>, isLinux: bool, clock: seq<int>) {
    && |points| == |clock| + 1 && points[0] == LidPoint([], None, None)
    && forall k :: 0 <= k < |clock| ==> LidTurn(points[k], points[k + 1], isLinux, clock[k])
  }

  /** The clock of a run on which an attempt fails at 100000, its retry spawns a child at 130000, the clock goes
      back, the child fails at 50000, and the gate opens at 80000, inside the first window. */
  const CLOCK_BACK := [100_000, 130_000, 50_000, 80_000]

  /** So the window is not kept in general. */
  lemma ClockBackBreaksWindow() returns (points: seq<LidPoint>)
    ensures LidRun(points, true, CLOCK_BACK)
    ensures var h := points[|CLOCK_BACK|].history;
            && h == [SpawnAttempted(100_000), Failed(100_000, false), SpawnAttempted(130_000),
                     Reported(0), Failed(50_000, false), SpawnAttempted(80_000)]
            && NoStopBetween(h, 1, 5) && h[5].at < h[1].at + RETRY_MS && !FailuresForward(h)
  {
    var h1: History := [SpawnAttempted(100_000), Failed(100_000, false)];
    var h2 := h1 + [SpawnAttempted(130_000)];
    var h3 := h2 + [Reported(0), Failed(50_000, false)];
    var h4 := h3 + [SpawnAttempted(80_000)];
    points := [LidPoint([], None, None), LidPoint(h1, None, Some(130_000)), LidPoint(h2, Some(0), None),
               LidPoint(h3, None, Some(80_000)), LidPoint(h4, Some(1), None)];
    FailingAttempt(points[0], 100_000);
    assert points[0].history + h1 == h1;
    SpawningAttempt(points[1], 130_000, 0);
    FailingChild(points[2], 50_000);
    SpawningAttempt(points[3], 80_000, 1);
    assert forall k :: 0 <= k < |CLOCK_BACK| ==> LidTurn(points[k], points[k + 1], true, CLOCK_BACK[k]) by {
      hide LidTurn;
      assert LidTurn(points[0], points[1], true, CLOCK_BACK[0]) && LidTurn(points[1], points[2], true, CLOCK_BACK[1]);
      assert LidTurn(points[2], points[3], true, CLOCK_BACK[2]) && LidTurn(points[3], points[4], true, CLOCK_BACK[3]);
    }
    assert Pends(h4, 4) && NoStopBetween(h4, 1, 4);
  }

  lemma FailingAttempt(p: LidPoint, now: int)
    requires MayAttempt(p, true, now)
    ensures LidTurn(p, LidPoint(p.history + [SpawnAttempted(now), Failed(now, false)], None, Some(now + RETRY_MS)),
                    true, now)
  {
    var q := LidPoint(p.history + [SpawnAttempted(now), Failed(now, false)], None, Some(now + RETRY_MS));
    assert p.history + [SpawnAttempted(now)] + [Failed(now, false)] == q.history;
    assert RefreshedLid(p.history, p.child, p.gate, true, 0, true, now, q.history, q.child, q.gate);
  }

  lemma SpawningAttempt(p: LidPoint, now: int, next: nat)
    requires MayAttempt(p, true, now)
    ensures LidTurn(p, LidPoint(p.history + [SpawnAttempted(now)], Some(next), None), true, now)
  {
    var q := LidPoint(p.history + [SpawnAttempted(now)], Some(next), None);
    assert RefreshedLid(p.history, p.child, p.gate, true, next, true, now, q.history, q.child, q.gate);
  }

  lemma FailingChild(p: LidPoint, now: int)
    requires p.child.Some?
    ensures LidTurn(p, LidPoint(p.history + [Reported(p.child.value), Failed(now, false)], None, Some(now + RETRY_MS)),
                    true, now)
  {
    var q := LidPoint(p.history + [Reported(p.child.value), Failed(now, false)], None, Some(now + RETRY_MS));
    assert p.history + [Reported(p.child.value)] + [Failed(now, false)] == q.history;
    assert FailureOutcome(p.history + [Reported(p.child.value)], false, true, now, q.history, q.gate);
  }

  // ---------- The laws that the assertion keeps ----------

  /** The fields of the assertion that its history determines or constrains. */
  datatype LidState = LidState(child: Option<nat>, gate: Option<int>, unavailable: bool,
                               stops: set<nat>, reported: set<nat>)

  /** What holds at every step, even while a failure is being handled. */
  ghost predicate Laws(h: History, s: LidState, nextChild: nat, kills: seq<nat>) {
    && Conserved(h, s.child, nextChild, kills)
    && (forall c :: c in s.stops ==> c in multiset(kills))
    && (forall c :: c in s.reported ==> Times(h, Reported(c)) > 0)
    && Paced(h)
    && (s.unavailable <==> MissingSeen(h))
    && !(s.child.Some? && s.unavailable)
    && (s.gate.Some? ==> PendingFailure(h) == Some(s.gate.value - RETRY_MS))
  }

  /** A failure that no stop has followed closes the gate, unless a child or ENOENT came after it. */
  ghost predicate Remembered(h: History, s: LidState) {
    PendingFailure(h).Some? && s.gate.None? ==> s.child.Some? || s.unavailable
  }

  ghost predicate GateOpen(s: LidState, now: int) {
    s.child.None? && !s.unavailable && (s.gate.Some? ==> now >= s.gate.value)
  }

  lemma AttemptKeepsLaws(h: History, s: LidState, nextChild: nat, kills: seq<nat>, now: int)
    requires Laws(h, s, nextChild, kills) && Remembered(h, s) && GateOpen(s, now)
    ensures Laws(h + [SpawnAttempted(now)], s, nextChild, kills)
  {
    Append(h, SpawnAttempted(now));
  }

  lemma SpawnKeepsLaws(h: History, s: LidState, nextChild: nat, kills: seq<nat>)
    requires Laws(h, s, nextChild, kills) && s.child.None? && !s.unavailable
    ensures var s' := s.(child := Some(nextChild), gate := None);
            Laws(h, s', nextChild + 1, kills) && Remembered(h, s')
  {
  }

  function AfterStop(s: LidState): LidState {
    s.(child := None, gate := None, stops := if s.child.Some? then s.stops + {s.child.value} else s.stops)
  }

  function KillsAfterStop(s: LidState, kills: seq<nat>): seq<nat> {
    if s.child.Some? then kills + [s.child.value] else kills
  }

  lemma StopKeepsLaws(h: History, s: LidState, nextChild: nat, kills: seq<nat>)
    requires Laws(h, s, nextChild, kills)
    ensures Laws(h + [Stopped], AfterStop(s), nextChild, KillsAfterStop(s, kills))
    ensures Remembered(h + [Stopped], AfterStop(s))
  {
    hide Paced, MissingSeen, PendingFailure, Times, MaySpawn;
    Append(h, Stopped);
  }

  lemma ReportKeepsLaws(h: History, s: LidState, nextChild: nat, kills: seq<nat>, c: nat)
    requires Laws(h, s, nextChild, kills) && s.child == Some(c)
    ensures c !in s.stops && c !in s.reported
    ensures Laws(h + [Reported(c)], s.(child := None, reported := s.reported + {c}), nextChild, kills)
  {
    hide Paced, MissingSeen, PendingFailure, Times, MaySpawn;
    assert multiset(kills)[c] == 0 && Times(h, Reported(c)) == 0;
    Append(h, Reported(c));
  }

  lemma ForgettingStopKeepsLaws(h: History, s: LidState, nextChild: nat, kills: seq<nat>, c: nat)
    requires Laws(h, s, nextChild, kills) && Remembered(h, s)
    ensures Laws(h, s.(stops := s.stops - {c}), nextChild, kills) && Remembered(h, s.(stops := s.stops - {c}))
  {
  }

  lemma FailureKeepsLaws(h: History, s: LidState, nextChild: nat, kills: seq<nat>, now: int, missing: bool)
    requires Laws(h, s, nextChild, kills) && s.child.None? && !s.unavailable
    ensures var s' := s.(unavailable := missing, gate := if missing then None else Some(now + RETRY_MS));
            Laws(h + [Failed(now, missing)], s', nextChild, kills) && Remembered(h + [Failed(now, missing)], s')
  {
    hide Paced, MissingSeen, PendingFailure, Times, MaySpawn;
    Append(h, Failed(now, missing));
  }

  lemma Append(h: History, e: LidEvent)
    requires Paced(h) && (e.SpawnAttempted? ==> MaySpawn(h, e.at))
    ensures Paced(h + [e])
    ensures forall f :: Times(h + [e], f) == Times(h, f) + (if e == f then 1 else 0)
    ensures MissingSeen(h + [e]) <==> MissingSeen(h) || (e.Failed? && e.missing)
    ensures PendingFailure(h + [e]) == (match e
                                        case Failed(at, _) => Some(at)
                                        case Stopped => None
                                        case _ => PendingFailure(h))
  {
    PacedAppend(h, e);
    PendingAppend(h, e);
    TimesAppend(h, e);
  }

  // ---------- Extending a history within one turn ----------

  /** `h'` adds to `h` events that all happened at `now`. */
  ghost predicate ExtendsAt(h: History, h': History, now: int) {
    && h <= h'
    && forall k :: |h| <= k < |h'| && IsTimed(h'[k]) ==> h'[k].at == now
  }

  /** No event is later than `now`. */
  ghost predicate UpTo(h: History, now: int) {
    forall k :: 0 <= k < |h| && IsTimed(h[k]) ==> h[k].at <= now
  }

  lemma NothingIsTurn(p: LidPoint, isLinux: bool, now: int)
    ensures LidTurn(p, p, isLinux, now) && ExtendsAt(p.history, p.history, now)
  {
  }

  lemma StopIsTurn(p: LidPoint, isLinux: bool, now: int)
    ensures LidTurn(p, LidPoint(p.history + [Stopped], None, None), isLinux, now)
  {
    var q := LidPoint(p.history + [Stopped], None, None);
    assert RefreshedLid(p.history, p.child, p.gate, MayAttempt(p, isLinux, now), 0, false, now,
                        q.history, q.child, q.gate);
  }

  lemma WantedFailure(h0: History, h: History, missing: bool, now: int, h': History, gate: Option<int>)
    requires FailureOutcome(h, missing, true, now, h', gate) && |h0| <= |h|
    ensures FailsAgain(h0, h') <==> !missing
  {
  }

  lemma NothingFailsAgain(h: History)
    ensures !FailsAgain(h, h)
  {
  }

  lemma FailureExtends(h: History, missing: bool, wanted: bool, now: int, h': History, gate: Option<int>)
    requires FailureOutcome(h, missing, wanted, now, h', gate)
    ensures ExtendsAt(h, h', now)
  {
  }

  /** A refresh of a lawful assertion is a turn. */
  lemma RefreshIsTurn(h: History, s: LidState, isLinux: bool, next: nat, kills: seq<nat>, nextChild: nat, wanted: bool,
                      now: int, q: LidPoint)
    requires Laws(h, s, nextChild, kills)
    requires RefreshedLid(h, s.child, s.gate, isLinux && GateOpen(s, now), next, wanted, now,
                          q.history, q.child, q.gate)
    ensures LidTurn(LidPoint(h, s.child, s.gate), q, isLinux, now)
  {
    hide RefreshedLid, MissingSeen;
    assert MayAttempt(LidPoint(h, s.child, s.gate), isLinux, now) == (isLinux && GateOpen(s, now));
  }

  lemma RefreshExtends(h: History, current: Option<nat>, gate: Option<int>, canSpawn: bool,
                       next: nat, wanted: bool, now: int,
                       h': History, current': Option<nat>, gate': Option<int>)
    requires RefreshedLid(h, current, gate, canSpawn, next, wanted, now, h', current', gate')
    ensures ExtendsAt(h, h', now)
  {
  }

  lemma UpToLater(h: History, now: int, later: int)
    requires UpTo(h, now) && now <= later
    ensures UpTo(h, later)
  {
  }

  lemma ExtendKeepsForward(h: History, h': History, now: int)
    requires ClockForward(h) && UpTo(h, now) && ExtendsAt(h, h', now)
    ensures ClockForward(h') && UpTo(h', now)
  {
    assert forall k :: 0 <= k < |h| ==> h[k] == h'[k];
  }
}
