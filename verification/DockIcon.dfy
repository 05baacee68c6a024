/**
  Persisting the macOS Dock icon: commands bounded by timers, and a queue of works of which only the
  latest request matters. Every callback is a step of its own, so steps of different commands interleave
  in any order.
 */
module DockIcon {
  import opened Options

  datatype IconId = Classic | Watercolor | Blue

  datatype Command = SetIcon(icon: IconId) | ClearIcon | ClearFinderInfo | ClearResourceFork

  /** What execFile does when it is called: it may call back at once, may throw, and may return a child. */
  datatype Exec = Exec(callsBack: bool, throws: bool, returnsChild: bool)

  // ---------- One bounded command ----------

  class BoundedCommand {
    const command: Command
    var settled: bool
    var fallback: bool           // the first timer is armed
    var forceFallback: bool      // the second timer is armed
    var hasChild: bool
    var exitHooks: bool          // the fallback listens for the child's exit
    var killed: bool             // the child was sent a kill
    ghost var resolved: nat      // how often the promise was resolved

    /** Exactly one timer is armed until the command settles, and none after; it settles once. */
    ghost predicate Valid()
      reads this
    {
      && (settled <==> !fallback && !forceFallback)
      && !(fallback && forceFallback)
      && (exitHooks ==> !fallback) && (killed <==> exitHooks)
      && resolved == (if settled then 1 else 0)
    }

    /** Starting it. A child that is returned is remembered. */
    constructor (command: Command, exec: Exec)
      ensures Valid() && this.command == command && !exitHooks && !forceFallback
      ensures settled <==> exec.callsBack || exec.throws
      ensures hasChild <==> exec.returnsChild && !exec.throws
    {
      this.command := command;
      settled, fallback, forceFallback, hasChild, exitHooks, resolved := false, true, false, false, false, 0;
      killed := false;
      new;
      if exec.callsBack {
        Finish();
      }
      if exec.throws {
        Finish();
      } else if exec.returnsChild {
        hasChild := true;
      }
    }

    /** The callback of execFile, with or without an error. */
    method Finish()
      requires Valid()
      modifies this
      ensures Valid() && settled
      ensures hasChild == old(hasChild) && exitHooks == old(exitHooks)
      ensures old(!forceFallback) ==> !forceFallback
    {
      if settled {
        return;
      }
      settled := true;
      fallback := false;
      if forceFallback {
        forceFallback := false;
      }
      resolved := resolved + 1;
    }

    /** The child's exit or close after the fallback, or the second timer. */
    method FinishAfterFallback()
      requires Valid() && !fallback
      modifies this
      ensures Valid() && settled
      ensures hasChild == old(hasChild) && exitHooks == old(exitHooks)
    {
      if settled {
        return;
      }
      settled := true;
      if forceFallback {
        forceFallback := false;
      }
      resolved := resolved + 1;
    }

    /** The first timer: without a child the command is given up; with one it is killed and given more time. */
    method FallbackFires()
      requires Valid() && (fallback || settled)
      modifies this
      ensures Valid() && !fallback && hasChild == old(hasChild)
      ensures settled <==> old(settled) || !old(hasChild)
      ensures exitHooks <==> old(exitHooks) || (!old(settled) && old(hasChild))
    {
      if settled {
        return;
      }
      if !hasChild {
        settled, fallback := true, false;
        resolved := resolved + 1;
        return;
      }
      fallback := false;
      exitHooks := true;
      forceFallback := true;
      killed := true;
    }

    /** What the timers can still do: two more callbacks, one, or none. */
    ghost function Patience(): nat
      reads this
    {
      if fallback then 2 else if forceFallback then 1 else 0
    }
  }

  datatype CommandCallback = CalledBack | ChildGone | TimerFired

  // ---------- The promise chain ----------

  /** A request that was accepted: its place among all of them, and the icon. */
  datatype Work = Work(generation: nat, icon: IconId)

  /** How far the work of a link is: it may wait for one command, or for two at once. */
  datatype Phase =
    | Waiting
    | Setting(first: nat)                            // a custom icon is set
    | Clearing(first: nat)                           // the classic icon: its first command
    | ClearingAttributes(first: nat, second: nat)    // then two more, side by side
    | Settled

  /** A link of the chain: a work to be done once the promise that the link was chained on has settled. The
      first link was chained on a promise that is settled from the start. */
  datatype Link = Link(work: Work, after: Option<nat>, phase: Phase)

  function Awaited(phase: Phase): set<nat> {
    match phase
    case Setting(k) => {k}
    case Clearing(k) => {k}
    case ClearingAttributes(k, l) => {k, l}
    case _ => {}
  }

  /** A command that was issued, for which work, and which request was the latest then. */
  datatype Issued = Issued(work: Work, command: Command, latest: nat)

  predicate IsAttributeClear(c: Command) {
    c.ClearFinderInfo? || c.ClearResourceFork?
  }

  /** The command was issued for a request that had been superseded. */
  predicate IsStale(x: Issued) {
    x.work.generation < x.latest
  }

  ghost predicate AnyStale(issued: seq<Issued>) {
    exists x :: x in issued && IsStale(x)
  }

  lemma NoneStale(issued: seq<Issued>)
    ensures issued == [] ==> !AnyStale(issued)
  {
  }

  function FirstCommand(icon: IconId): Command {
    if icon.Classic? then ClearIcon else SetIcon(icon)
  }

  // ---------- The laws of a run ----------

  /** Each link is chained on the one before it, and the next one will be chained on the last. */
  ghost predicate Chained(links: seq<Link>, tail: Option<nat>) {
    && (forall i :: 0 <= i < |links| ==> links[i].work.generation == i + 1)
    && (forall i :: 0 <= i < |links| ==> links[i].after == if i == 0 then None else Some(i - 1))
    && tail == if links == [] then None else Some(|links| - 1)
  }

  /** The first `started` works have had their turn, and all of these but the last one are done. */
  ghost predicate OneAtATime(links: seq<Link>, started: nat) {
    && started <= |links|
    && (forall i :: 0 <= i < |links| ==> (links[i].phase.Waiting? <==> i >= started))
    && (forall i :: 0 <= i < started - 1 ==> links[i].phase.Settled?)
    && (forall i :: 0 <= i < |links| && (links[i].phase.Clearing? || links[i].phase.ClearingAttributes?) ==>
          links[i].work.icon.Classic?)
  }

  /** Works issue their commands in the order of the requests, and the latest request, once started, is the
      last to have issued one. */
  ghost predicate InOrder(links: seq<Link>, started: nat, issued: seq<Issued>) {
    && started <= |links|
    && (forall k :: 0 <= k < |issued| ==>
          && 1 <= issued[k].work.generation <= started
          && issued[k].work == links[issued[k].work.generation - 1].work
          && (issued[k].command == FirstCommand(issued[k].work.icon)
              || (issued[k].work.icon.Classic? && IsAttributeClear(issued[k].command))))
    && (forall k, l :: 0 <= k < l < |issued| ==> issued[k].work.generation <= issued[l].work.generation)
    && (started == |links| > 0 ==> issued != [] && issued[|issued| - 1].work == links[|links| - 1].work)
  }

  ghost predicate ClearedAttributes(issued: seq<Issued>, generation: nat) {
    exists k :: 0 <= k < |issued| && issued[k].work.generation == generation && IsAttributeClear(issued[k].command)
  }

  /** A work is overtaken if a request was accepted while its `ClearIcon` was in flight. The commands that are
      stale are exactly the attribute clears of overtaken works. */
  ghost predicate StaleIffOvertaken(links: seq<Link>, issued: seq<Issued>, overtaken: set<nat>) {
    && (forall k :: 0 <= k < |issued| ==>
          (IsStale(issued[k]) <==> IsAttributeClear(issued[k].command) && issued[k].work.generation in overtaken))
    && (forall g :: g in overtaken ==> 1 <= g <= |links| && !links[g - 1].phase.Waiting?)
    && (forall i :: 0 <= i < |links| ==> OvertakenClears(links, issued, overtaken, i))
  }

  /** Of work i: while its `ClearIcon` is in flight it is overtaken iff it is not the latest one, and it has
      cleared no attribute yet; later it has, if it was overtaken. */
  ghost predicate OvertakenClears(links: seq<Link>, issued: seq<Issued>, overtaken: set<nat>, i: nat)
    requires i < |links|
  {
    if links[i].phase.Clearing? then (i + 1 in overtaken <==> |links| > i + 1) && !ClearedAttributes(issued, i + 1)
    else i + 1 in overtaken ==> ClearedAttributes(issued, i + 1)
  }

  ghost predicate Laws(links: seq<Link>, tail: Option<nat>, started: nat, issued: seq<Issued>, overtaken: set<nat>) {
    && Chained(links, tail) && OneAtATime(links, started)
    && InOrder(links, started, issued) && StaleIffOvertaken(links, issued, overtaken)
  }

  /** The works that a request accepted now overtakes. */
  function Overtakes(links: seq<Link>): set<nat> {
    set i: nat | i < |links| && links[i].phase.Clearing? :: i + 1
  }

  lemma AcceptKeepsLaws(links: seq<Link>, tail: Option<nat>, started: nat, issued: seq<Issued>, overtaken: set<nat>,
                        icon: IconId)
    requires Laws(links, tail, started, issued, overtaken)
    ensures Laws(links + [Link(Work(|links| + 1, icon), tail, Waiting)], Some(|links|), started, issued,
                 overtaken + Overtakes(links))
  {
    var links', overtaken' := links + [Link(Work(|links| + 1, icon), tail, Waiting)], overtaken + Overtakes(links);
    assert forall i :: 0 <= i < |links| ==> links'[i] == links[i];
    forall k | 0 <= k < |issued|
      ensures IsStale(issued[k]) <==> IsAttributeClear(issued[k].command) && issued[k].work.generation in overtaken'
    {
      var g := issued[k].work.generation;
      if IsAttributeClear(issued[k].command) {
        assert ClearedAttributes(issued, g) && OvertakenClears(links, issued, overtaken, g - 1);
      }
    }
    forall i | 0 <= i < |links'| ensures OvertakenClears(links', issued, overtaken', i) {
      assert i < |links| ==> OvertakenClears(links, issued, overtaken, i);
    }
  }

  /** A link whose promise may settle next is the first that waits, and all before it are done. */
  lemma NextInLine(links: seq<Link>, tail: Option<nat>, started: nat, n: nat)
    requires Chained(links, tail) && OneAtATime(links, started)
    requires n < |links| && links[n].phase.Waiting? && (n > 0 ==> links[n - 1].phase.Settled?)
    ensures n == started && forall i :: 0 <= i < n ==> links[i].phase.Settled?
  {
  }

  lemma SkipKeepsLaws(links: seq<Link>, tail: Option<nat>, started: nat, issued: seq<Issued>, overtaken: set<nat>)
    requires Laws(links, tail, started, issued, overtaken)
    requires started < |links| - 1 && (started > 0 ==> links[started - 1].phase.Settled?)
    ensures Laws(links[started := links[started].(phase := Settled)], tail, started + 1, issued, overtaken)
  {
    var links' := links[started := links[started].(phase := Settled)];
    forall i | 0 <= i < |links'| ensures OvertakenClears(links', issued, overtaken, i) {
      assert OvertakenClears(links, issued, overtaken, i);
    }
  }

  lemma StartKeepsLaws(links: seq<Link>, tail: Option<nat>, started: nat, issued: seq<Issued>, overtaken: set<nat>,
                       phase: Phase)
    requires Laws(links, tail, started, issued, overtaken)
    requires started == |links| - 1 && (started > 0 ==> links[started - 1].phase.Settled?)
    requires if links[started].work.icon.Classic? then phase.Clearing? else phase.Setting?
    ensures var work := links[started].work;
            Laws(links[started := links[started].(phase := phase)], tail, started + 1,
                 issued + [Issued(work, FirstCommand(work.icon), |links|)], overtaken)
  {
    var work := links[started].work;
    var links', issued' := links[started := links[started].(phase := phase)],
                           issued + [Issued(work, FirstCommand(work.icon), |links|)];
    assert forall k :: 0 <= k < |issued| ==> issued'[k] == issued[k];
    forall i | 0 <= i < |links'| ensures OvertakenClears(links', issued', overtaken, i) {
      assert OvertakenClears(links, issued, overtaken, i);
      ClearedAppend(issued, Issued(work, FirstCommand(work.icon), |links|), i + 1);
    }
  }

  lemma ClearedAppend(issued: seq<Issued>, x: Issued, generation: nat)
    ensures ClearedAttributes(issued + [x], generation) <==>
      ClearedAttributes(issued, generation) || (x.work.generation == generation && IsAttributeClear(x.command))
  {
    var issued' := issued + [x];
    assert issued'[|issued|] == x && forall k :: 0 <= k < |issued| ==> issued'[k] == issued[k];
  }

  lemma SettleKeepsLaws(links: seq<Link>, tail: Option<nat>, started: nat, issued: seq<Issued>, overtaken: set<nat>,
                        n: nat)
    requires Laws(links, tail, started, issued, overtaken)
    requires n < |links| && (links[n].phase.Setting? || links[n].phase.ClearingAttributes?)
    ensures n == started - 1
    ensures Laws(links[n := links[n].(phase := Settled)], tail, started, issued, overtaken)
  {
    var links' := links[n := links[n].(phase := Settled)];
    forall i | 0 <= i < |links'| ensures OvertakenClears(links', issued, overtaken, i) {
      assert OvertakenClears(links, issued, overtaken, i);
    }
  }

  lemma ClearKeepsLaws(links: seq<Link>, tail: Option<nat>, started: nat, issued: seq<Issued>, overtaken: set<nat>,
                       n: nat, k: nat, l: nat)
    requires Laws(links, tail, started, issued, overtaken)
    requires n < |links| && links[n].phase.Clearing?
    ensures n == started - 1
    ensures Laws(links[n := links[n].(phase := ClearingAttributes(k, l))], tail, started,
                 issued + AttributeClears(links[n].work, |links|), overtaken)
  {
    hide StaleIffOvertaken;
    ClearKeepsStale(links, issued, overtaken, n, k, l);
    var issued' := issued + AttributeClears(links[n].work, |links|);
    assert forall j :: 0 <= j < |issued'| ==>
      issued'[j] == if j < |issued| then issued[j] else AttributeClears(links[n].work, |links|)[j - |issued|];
  }

  lemma ClearKeepsStale(links: seq<Link>, issued: seq<Issued>, overtaken: set<nat>, n: nat, k: nat, l: nat)
    requires StaleIffOvertaken(links, issued, overtaken)
    requires n < |links| && links[n].phase.Clearing? && links[n].work.generation == n + 1
    ensures StaleIffOvertaken(links[n := links[n].(phase := ClearingAttributes(k, l))],
                              issued + AttributeClears(links[n].work, |links|), overtaken)
  {
    var links' := links[n := links[n].(phase := ClearingAttributes(k, l))];
    var x, y := Issued(links[n].work, ClearFinderInfo, |links|), Issued(links[n].work, ClearResourceFork, |links|);
    var issued' := issued + AttributeClears(links[n].work, |links|);
    assert issued' == issued + [x] + [y];
    assert OvertakenClears(links, issued, overtaken, n);
    assert forall j :: 0 <= j < |issued'| ==>
      issued'[j] == if j < |issued| then issued[j] else if j == |issued| then x else y;
    forall i | 0 <= i < |links'| ensures OvertakenClears(links', issued', overtaken, i) {
      hide ClearedAttributes;
      assert OvertakenClears(links, issued, overtaken, i);
      ClearedAppend(issued, x, i + 1);
      ClearedAppend(issued + [x], y, i + 1);
    }
  }

  function AttributeClears(work: Work, latest: nat): (r: seq<Issued>)
    ensures AnyStale(r) <==> work.generation < latest
    ensures |r| == 2 && r[0].command == ClearFinderInfo && r[1].command == ClearResourceFork
    ensures forall x :: x in r ==> x.work == work
  {
    var r := [Issued(work, ClearFinderInfo, latest), Issued(work, ClearResourceFork, latest)];
    assert IsStale(r[0]) <==> work.generation < latest;
    r
  }

  /** The commands issued for a work, in order. */
  ghost function CommandsOf(issued: seq<Issued>, generation: nat): seq<Command> {
    if issued == [] then []
    else
      CommandsOf(issued[..|issued| - 1], generation)
      + (if issued[|issued| - 1].work.generation == generation then [issued[|issued| - 1].command] else [])
  }

  /** How far a work has come tells the commands that it has issued: to set a custom icon takes one, the classic
      icon is cleared and then its two attributes, and a work that was superseded before its turn issues none. */
  ghost predicate IsCourse(phase: Phase, icon: IconId, issued: seq<Command>) {
    match phase
    case Waiting => issued == []
    case Setting(_) => icon != Classic && issued == [SetIcon(icon)]
    case Clearing(_) => icon == Classic && issued == [ClearIcon]
    case ClearingAttributes(_, _) => icon == Classic && issued == [ClearIcon, ClearFinderInfo, ClearResourceFork]
    case Settled =>
      || issued == []
      || issued == if icon == Classic then [ClearIcon, ClearFinderInfo, ClearResourceFork] else [SetIcon(icon)]
  }

  lemma {:induction false} CommandsJoined(a: seq<Issued>, b: seq<Issued>, generation: nat)
    ensures CommandsOf(a + b, generation) == CommandsOf(a, generation) + CommandsOf(b, generation)
    decreases |b|
  {
    if b == [] {
      assert a + b == a;
    } else {
      assert (a + b)[|a + b| - 1] == b[|b| - 1] && (a + b)[..|a + b| - 1] == a + b[..|b| - 1];
      CommandsJoined(a, b[..|b| - 1], generation);
    }
  }

  lemma {:induction false} NoCommandsOf(issued: seq<Issued>, generation: nat)
    requires forall x :: x in issued ==> x.work.generation != generation
    ensures CommandsOf(issued, generation) == []
  {
    if issued != [] {
      NoCommandsOf(issued[..|issued| - 1], generation);
    }
  }

  lemma SettledCourse(phase: Phase, icon: IconId, issued: seq<Command>, generation: nat)
    requires IsCourse(phase, icon, issued) && !phase.Clearing?
    ensures IsCourse(Settled, icon, issued + CommandsOf([], generation))
  {
    assert issued + [] == issued;
  }

  lemma FirstCourse(phase: Phase, work: Work, issued: seq<Command>, latest: nat, command: nat)
    requires IsCourse(phase, work.icon, issued) && phase.Waiting?
    ensures IsCourse(FirstPhase(work.icon, command), work.icon,
                     issued + CommandsOf([Issued(work, FirstCommand(work.icon), latest)], work.generation))
  {
    assert [Issued(work, FirstCommand(work.icon), latest)][..0] == [];
  }

  lemma ClearsCourse(phase: Phase, work: Work, issued: seq<Command>, latest: nat, k: nat, l: nat)
    requires IsCourse(phase, work.icon, issued) && phase.Clearing?
    ensures IsCourse(ClearingAttributes(k, l), work.icon,
                     issued + CommandsOf(AttributeClears(work, latest), work.generation))
  {
    var r := AttributeClears(work, latest);
    assert r[..1][..0] == [] && r[..1][0] == r[0];
    assert CommandsOf(r[..1], work.generation) == [ClearFinderInfo];
  }

  /** The commands that a link waits for were issued for its own work, which has issued what its phase tells. */
  ghost predicate AwaitsOwn(link: Link, issued: seq<Issued>) {
    && (forall k :: k in Awaited(link.phase) ==> k < |issued| && issued[k].work == link.work)
    && IsCourse(link.phase, link.work.icon, CommandsOf(issued, link.work.generation))
  }

  lemma AwaitedThen(k: nat, l: nat)
    ensures Awaited(Settled) == {} && Awaited(ClearingAttributes(k, l)) == {k, l}
  {
  }

  lemma WaitingAwaitsNone()
    ensures Awaited(Waiting) == {}
  {
  }

  /** A link goes on to wait for commands that are issued for it now, or for none. */
  lemma StillOwn(links: seq<Link>, issued: seq<Issued>, n: nat, phase: Phase, more: seq<Issued>)
    requires n < |links| && forall i :: 0 <= i < |links| ==> AwaitsOwn(links[i], issued)
    requires forall k :: k in Awaited(phase) ==> |issued| <= k < |issued + more|
    requires forall x :: x in more ==> x.work == links[n].work
    requires forall i :: 0 <= i < |links| ==> links[i].work.generation == i + 1
    requires IsCourse(phase, links[n].work.icon, CommandsOf(issued, n + 1) + CommandsOf(more, n + 1))
    ensures var links' := links[n := links[n].(phase := phase)];
            forall i :: 0 <= i < |links'| ==> AwaitsOwn(links'[i], issued + more)
  {
    hide Awaited, IsCourse, CommandsOf;
    var links' := links[n := links[n].(phase := phase)];
    forall i | 0 <= i < |links'| ensures AwaitsOwn(links'[i], issued + more) {
      CommandsJoined(issued, more, i + 1);
      assert AwaitsOwn(links[i], issued);
      if i != n {
        NoCommandsOf(more, i + 1);
        assert CommandsOf(issued, i + 1) + [] == CommandsOf(issued, i + 1);
      } else {
        forall k | k in Awaited(phase) ensures (issued + more)[k].work == links[n].work {
          assert (issued + more)[k] == more[k - |issued|];
        }
      }
    }
  }

  // ---------- The module's state ----------

  class DockIconPersistence {
    var generation: nat
    var tail: Option<nat>                  // the promise that the next work is chained on
    var links: seq<Link>
    var commands: seq<BoundedCommand>      // all commands so far
    ghost var issued: seq<Issued>          // what each of them was issued for
    ghost var started: nat                 // how many works have had their turn
    ghost var overtaken: set<nat>          // the works whose ClearIcon was in flight when a request was accepted

    constructor ()
      ensures Valid() && links == [] && commands == [] && issued == [] && overtaken == {}
    {
      generation, tail, links, commands := 0, None, [], [];
      issued, started, overtaken := [], 0, {};
    }

    ghost function Owned(): set<BoundedCommand>
      reads this
    {
      set c | c in commands
    }

    ghost predicate Valid()
      reads this, commands
    {
      && generation == |links|
      && Laws(links, tail, started, issued, overtaken)
      && CommandsMatch()
    }

    /** Only the work that runs waits for commands, and only its commands may not have settled. */
    ghost predicate CommandsMatch()
      reads this, commands
    {
      && |commands| == |issued|
      && (forall k :: 0 <= k < |commands| ==> commands[k].Valid() && commands[k].command == issued[k].command)
      && (forall k, l :: 0 <= k < l < |commands| ==> commands[k] != commands[l])
      && (forall n :: 0 <= n < |links| ==> AwaitsOwn(links[n], issued))
      && started <= |links|
      && (forall k :: 0 <= k < |commands| && !commands[k].settled ==>
            started > 0 && k in Awaited(links[started - 1].phase))
    }

    /** The promise that link n was chained on has settled, so that its work may be called. */
    predicate CanReact(n: nat)
      reads this
    {
      && n < |links| && links[n].phase.Waiting?
      && (links[n].after.Some? ==> links[n].after.value < |links| && links[links[n].after.value].phase.Settled?)
    }

    /** The work of link n runs, and all commands that it waits for have settled. */
    predicate CanContinue(n: nat)
      reads this, commands
    {
      && n < |links| && !links[n].phase.Waiting? && !links[n].phase.Settled?
      && forall k :: k in Awaited(links[n].phase) ==> k < |commands| && commands[k].settled
    }

    /** A request: it is accepted only on macOS, in a packaged app inside a bundle. */
    method Persist(isMac: bool, isDevApp: bool, inBundle: bool, icon: IconId)
      requires Valid()
      modifies this`generation, this`tail, this`links, this`overtaken
      ensures Valid()
      ensures var accepted := isMac && !isDevApp && inBundle;
              && links == old(links)
                 + (if accepted then [Link(Work(|old(links)| + 1, icon), old(tail), Waiting)] else [])
              && overtaken == old(overtaken) + (if accepted then Overtakes(old(links)) else {})
    {
      hide Laws, AwaitsOwn;
      if !isMac || isDevApp || !inBundle {
        return;
      }
      AcceptKeepsLaws(links, tail, started, issued, overtaken, icon);
      NewAwaitsOwn(icon);
      generation := generation + 1;
      overtaken := overtaken + Overtakes(links);
      links := links + [Link(Work(generation, icon), tail, Waiting)];
      tail := Some(|links| - 1);
    }

    lemma NewAwaitsOwn(icon: IconId)
      requires Valid()
      ensures AwaitsOwn(Link(Work(|links| + 1, icon), tail, Waiting), issued)
    {
      hide Chained, OneAtATime, StaleIffOvertaken, CommandsOf;
      NoCommandsOf(issued, |links| + 1);
      WaitingAwaitsNone();
    }

    /** The work of a link is called: a stale one does nothing, the latest one issues its first command. */
    method React(n: nat, exec: Exec)
      requires Valid() && CanReact(n)
      modifies this`links, this`commands, this`issued, this`started
      ensures Valid()
      // it is the next work in the order of the requests, and nothing of an earlier one is in flight
      ensures n == old(started) && started == n + 1 && links[n].phase != old(links)[n].phase
      ensures forall c :: c in old(commands) ==> c.settled
      ensures var work := links[n].work;
              if work.generation != generation then
                && commands == old(commands) && issued == old(issued)
                && links == old(links)[n := old(links[n]).(phase := Settled)]
              else
                && issued == old(issued) + [Issued(work, FirstCommand(work.icon), generation)]
                && |commands| == |old(commands)| + 1 && old(commands) <= commands && fresh(commands[|old(commands)|])
                && IsStarted(commands[|old(commands)|], exec)
                && links == old(links)[n := old(links[n]).(phase := FirstPhase(work.icon, |old(commands)|))]
    {
      hide Laws, AwaitsOwn, Chained, OneAtATime, Awaited, FirstPhase, IsStarted, IsCourse, CommandsOf;
      if links[n].work.generation == generation {
        StartWork(n, exec);
        return;
      }
      NextCanStart(n);
      StillOwnSettled(n);
      SkipKeepsLaws(links, tail, started, issued, overtaken);
      links := links[n := links[n].(phase := Settled)];
      started := started + 1;
    }

    /** The latest work issues its first command. */
    method StartWork(n: nat, exec: Exec)
      requires Valid() && CanReact(n) && links[n].work.generation == generation
      modifies this`links, this`commands, this`issued, this`started
      ensures Valid() && n == old(started) && started == n + 1 && links[n].phase != old(links)[n].phase
      ensures forall c :: c in old(commands) ==> c.settled
      ensures issued == old(issued) + [Issued(links[n].work, FirstCommand(links[n].work.icon), generation)]
      ensures |commands| == |old(commands)| + 1 && old(commands) <= commands && fresh(commands[|old(commands)|])
      ensures IsStarted(commands[|old(commands)|], exec)
      ensures links == old(links)[n := old(links[n]).(phase := FirstPhase(links[n].work.icon, |old(commands)|))]
    {
      hide Laws, AwaitsOwn, Chained, OneAtATime, Awaited, FirstPhase, DockIconPersistence.CanReact;
      NextCanStart(n);
      var work := links[n].work;
      ghost var issues := [Issued(work, FirstCommand(work.icon), generation)];
      StartKeepsLaws(links, tail, started, issued, overtaken, FirstPhase(work.icon, |commands|));
      StillOwnFirst(n);
      var c := new BoundedCommand(if work.icon == Classic then ClearIcon else SetIcon(work.icon), exec);
      links := links[n := links[n].(phase := FirstPhase(work.icon, |commands|))];
      commands := commands + [c];
      issued := issued + issues;
      started := started + 1;
    }

    lemma StillOwnSettled(n: nat)
      requires Valid() && n < |links| && !links[n].phase.Clearing?
      ensures issued + [] == issued
      ensures var links' := links[n := links[n].(phase := Settled)];
              forall i :: 0 <= i < |links'| ==> AwaitsOwn(links'[i], issued)
      ensures Awaited(Settled) == {}
    {
      hide AwaitsOwn, Laws, IsCourse, CommandsOf, Awaited;
      AwaitedThen(0, 0);
      assert issued + [] == issued;
      OwnCourse(n);
      SettledCourse(links[n].phase, links[n].work.icon, CommandsOf(issued, n + 1), n + 1);
      StillOwn(links, issued, n, Settled, []);
    }

    lemma StillOwnFirst(n: nat)
      requires Valid() && n < |links| && links[n].phase.Waiting?
      ensures var work := links[n].work;
              var links' := links[n := links[n].(phase := FirstPhase(work.icon, |commands|))];
              forall i :: 0 <= i < |links'| ==>
                AwaitsOwn(links'[i], issued + [Issued(work, FirstCommand(work.icon), generation)])
    {
      hide AwaitsOwn, Laws, IsCourse, CommandsOf, Awaited, FirstPhase;
      var work := links[n].work;
      OwnCourse(n);
      FirstCourse(links[n].phase, work, CommandsOf(issued, n + 1), generation, |commands|);
      StillOwn(links, issued, n, FirstPhase(work.icon, |commands|),
               [Issued(work, FirstCommand(work.icon), generation)]);
    }

    lemma OwnCourse(n: nat)
      requires Valid() && n < |links|
      ensures forall i :: 0 <= i < |links| ==> links[i].work.generation == i + 1
      ensures IsCourse(links[n].phase, links[n].work.icon, CommandsOf(issued, n + 1))
    {
      hide IsCourse, CommandsOf;
      assert AwaitsOwn(links[n], issued);
    }

    /** When a work is called, all before it are done, so that no command is in flight. */
    lemma NextCanStart(n: nat)
      requires Valid() && CanReact(n)
      ensures n == started && links[n].work.generation == n + 1 && links[n].phase.Waiting?
      ensures n > 0 ==> links[n - 1].phase.Settled?
      ensures forall i :: 0 <= i < |links| ==> Awaited(links[i].phase) == {}
      ensures forall c :: c in commands ==> c.settled
    {
      hide InOrder, StaleIffOvertaken;
      NextInLine(links, tail, started, n);
      forall c | c in commands ensures c.settled {
        var k :| 0 <= k < |commands| && commands[k] == c;
      }
    }

    /** All commands that the work of a link waits for have settled. */
    method Continue(n: nat, first: Exec, second: Exec)
      requires Valid() && CanContinue(n)
      modifies this`links, this`commands, this`issued
      ensures Valid() && n == started - 1 && links[n].phase != old(links)[n].phase
      ensures forall c :: c in old(commands) ==> c.settled
      ensures |links| == |old(links)| && forall i :: 0 <= i < |links| && i != n ==> links[i] == old(links)[i]
      ensures links[n].work == old(links)[n].work && links[n].after == old(links)[n].after
      ensures if old(links)[n].phase.Clearing?
        then && issued == old(issued) + AttributeClears(links[n].work, generation)
             && |commands| == |old(commands)| + 2 && old(commands) <= commands
             && fresh(commands[|old(commands)|]) && fresh(commands[|old(commands)| + 1])
             && IsStarted(commands[|old(commands)|], first) && IsStarted(commands[|old(commands)| + 1], second)
             && links[n].phase == ClearingAttributes(|old(commands)|, |old(commands)| + 1)
        else links[n].phase.Settled? && issued == old(issued) && commands == old(commands)
      // it issues stale commands exactly if it is a classic icon that was superseded while it was cleared
      ensures AnyStale(issued[|old(issued)|..]) <==>
        old(links)[n].phase.Clearing? && links[n].work.generation < generation
    {
      hide Laws, AwaitsOwn, Awaited, IsStale, AnyStale, AttributeClears, IsCourse, CommandsOf;
      if links[n].phase.Clearing? {
        ClearAttributes(n, first, second);
        assert issued[|old(issued)|..] == AttributeClears(links[n].work, generation);
      } else {
        RunsAlone(n);
        SettleKeepsLaws(links, tail, started, issued, overtaken, n);
        StillOwnSettled(n);
        links := links[n := links[n].(phase := Settled)];
        NoneStale(issued[|old(issued)|..]);
      }
    }

    /** The two attributes are cleared side by side once the classic icon's first command has settled. */
    method ClearAttributes(n: nat, first: Exec, second: Exec)
      requires Valid() && CanContinue(n) && links[n].phase.Clearing?
      modifies this`links, this`commands, this`issued
      ensures Valid() && n == started - 1
      ensures forall c :: c in old(commands) ==> c.settled
      ensures issued == old(issued) + AttributeClears(links[n].work, generation)
      ensures |commands| == |old(commands)| + 2 && old(commands) <= commands
      ensures fresh(commands[|old(commands)|]) && fresh(commands[|old(commands)| + 1])
      ensures IsStarted(commands[|old(commands)|], first) && IsStarted(commands[|old(commands)| + 1], second)
      ensures links ==
        old(links)[n := old(links[n]).(phase := ClearingAttributes(|old(commands)|, |old(commands)| + 1))]
    {
      hide Laws, AwaitsOwn, Awaited, IsStale, AnyStale, AttributeClears, IsCourse, CommandsOf;
      RunsAlone(n);
      ClearKeepsLaws(links, tail, started, issued, overtaken, n, |commands|, |commands| + 1);
      OwnCourse(n);
      ClearsCourse(links[n].phase, links[n].work, CommandsOf(issued, n + 1), generation, |commands|, |commands| + 1);
      AwaitedThen(|commands|, |commands| + 1);
      StillOwn(links, issued, n, ClearingAttributes(|commands|, |commands| + 1),
               AttributeClears(links[n].work, generation));
      var c := new BoundedCommand(ClearFinderInfo, first);
      var d := new BoundedCommand(ClearResourceFork, second);
      issued := issued + AttributeClears(links[n].work, generation);
      links := links[n := links[n].(phase := ClearingAttributes(|commands|, |commands| + 1))];
      commands := commands + [c, d];
    }

    /** Only one work waits for commands, so if its commands have settled then all have. */
    lemma RunsAlone(n: nat)
      requires Valid() && n < |links| && !links[n].phase.Waiting? && !links[n].phase.Settled?
      ensures n == started - 1
      ensures forall i :: 0 <= i < |links| && i != n ==> Awaited(links[i].phase) == {}
      ensures forall k :: 0 <= k < |commands| && !commands[k].settled ==> k in Awaited(links[n].phase)
      ensures CanContinue(n) ==> forall c :: c in commands ==> c.settled
    {
      hide InOrder, StaleIffOvertaken, Chained;
      forall i | 0 <= i < |links| && i != n ensures Awaited(links[i].phase) == {} {
      }
      if CanContinue(n) {
        forall c | c in commands ensures c.settled {
          var k :| 0 <= k < |commands| && commands[k] == c;
        }
      }
    }

    /** Something happens to a command; nothing else changes. */
    method CommandHappens(k: nat, event: CommandCallback)
      requires Valid() && k < |commands|
      modifies commands[k]
      ensures Valid()
      ensures Happened(commands[k], event)
      ensures forall j :: 0 <= j < |commands| && j != k ==> commands[j] != commands[k]
      ensures event.TimerFired? && !old(commands[k].settled) ==> commands[k].Patience() < old(commands[k].Patience())
    {
      hide Laws, AwaitsOwn, Awaited;
      var c := commands[k];
      match event
      case CalledBack =>
        c.Finish();
      case ChildGone =>
        if c.exitHooks {
          c.FinishAfterFallback();
        }
      case TimerFired =>
        if c.fallback {
          c.FallbackFires();
        } else if c.forceFallback {
          c.FinishAfterFallback();
        }
    }
  }

  /** A command that was just started, as execFile had it. */
  ghost predicate IsStarted(c: BoundedCommand, exec: Exec)
    reads c
  {
    && (c.settled <==> exec.callsBack || exec.throws)
    && (c.hasChild <==> exec.returnsChild && !exec.throws)
    && !c.exitHooks && !c.forceFallback
  }

  /** What an event does to a command: its callback settles it; so does its child's end, but only after the first
      timer; the first timer gives up a command without a child and leaves one with a child unsettled, with the
      exit hooks set; the second timer settles it. */
  twostate predicate Happened(c: BoundedCommand, event: CommandCallback)
    reads c
  {
    && c.hasChild == old(c.hasChild)
    && (c.settled <==>
          || old(c.settled) || event.CalledBack?
          || (event.ChildGone? && old(c.exitHooks))
          || (event.TimerFired? && (old(c.forceFallback) || (old(c.fallback) && !old(c.hasChild)))))
    && (c.exitHooks <==>
          old(c.exitHooks) || (event.TimerFired? && old(c.fallback) && old(c.hasChild)))
  }

  function FirstPhase(icon: IconId, command: nat): (phase: Phase)
    ensures Awaited(phase) == {command}
    ensures if icon.Classic? then phase.Clearing? else phase.Setting?
  {
    if icon.Classic? then Clearing(command) else Setting(command)
  }

  // ---------- Whole runs ----------

  datatype Input =
    | Requested(isMac: bool, isDevApp: bool, inBundle: bool, icon: IconId)
    | Reacts(link: nat, exec: Exec)
    | Happens(command: nat, event: CommandCallback)
    | Continues(link: nat, first: Exec, second: Exec)

  function AcceptedIcons(inputs: seq<Input>): seq<IconId> {
    if inputs == [] then []
    else AcceptedIcons(inputs[..|inputs| - 1]) + AcceptedBy(inputs[|inputs| - 1])
  }

  function AcceptedBy(input: Input): seq<IconId> {
    if input.Requested? && input.isMac && !input.isDevApp && input.inBundle then [input.icon] else []
  }

  function IconsOf(links: seq<Link>): (r: seq<IconId>)
    ensures |r| == |links| && forall i :: 0 <= i < |r| ==> r[i] == links[i].work.icon
  {
    seq(|links|, i requires 0 <= i < |links| => links[i].work.icon)
  }

  twostate predicate IsUnchanged(c: BoundedCommand)
    reads c
  {
    && c.settled == old(c.settled) && c.hasChild == old(c.hasChild) && c.exitHooks == old(c.exitHooks)
    && c.fallback == old(c.fallback) && c.forceFallback == old(c.forceFallback)
  }

  /** One step of the event loop. What the state does not allow - a callback of a promise that has not settled,
      a command that was not issued - does not happen. */
  method Step(q: DockIconPersistence, input: Input)
    requires q.Valid()
    modifies q, q.Owned()
    ensures q.Valid()
    ensures forall c :: c in q.Owned() ==> c in old(q.Owned()) || fresh(c)
    ensures IconsOf(q.links) == IconsOf(old(q.links)) + AcceptedBy(input)
    // a command changes by its own events only: one with a child settles by its callback, by the child's end
    // after the first timer, or by the second timer
    ensures old(q.commands) <= q.commands
    ensures forall k :: 0 <= k < |old(q.commands)| ==>
              if input.Happens? && input.command == k then Happened(old(q.commands)[k], input.event)
              else IsUnchanged(old(q.commands)[k])
    // and no later work is called before it has settled
    ensures q.started > old(q.started) ==> forall c :: c in old(q.commands) ==> c.settled
    // a work goes on exactly if it is called, or continued, and may be
    ensures forall i :: 0 <= i < |old(q.links)| ==>
              (q.links[i].phase != old(q.links)[i].phase <==>
                 || (input.Reacts? && input.link == i && old(q.CanReact(i)))
                 || (input.Continues? && input.link == i && old(q.CanContinue(i))))
  {
    hide Laws, Awaited, IconsOf, DockIconPersistence.CommandsMatch, FirstPhase, AnyStale, AttributeClears, IsStarted;
    hide DockIconPersistence.CanReact, DockIconPersistence.CanContinue;
    match input
    case Requested(isMac, isDevApp, inBundle, icon) =>
      q.Persist(isMac, isDevApp, inBundle, icon);
    case Reacts(n, exec) =>
      if q.CanReact(n) {
        q.React(n, exec);
      }
    case Happens(k, event) =>
      if k < |q.commands| {
        q.CommandHappens(k, event);
        assert IconsOf(q.links) == IconsOf(old(q.links));
      }
    case Continues(n, first, second) =>
      if q.CanContinue(n) {
        q.Continue(n, first, second);
      }
  }

  /** Any run from the start: any requests, calls of works, callbacks of commands and continuations in any
      order. What is stated of its end holds after every prefix of it. */
  method Run(inputs: seq<Input>) returns (q: DockIconPersistence)
    ensures q.Valid()
    // the works are the accepted requests, in order, and their commands are issued in that order
    ensures IconsOf(q.links) == AcceptedIcons(inputs)
    ensures forall i :: 0 <= i < |q.links| ==> q.links[i].work.generation == i + 1
    ensures forall k, l :: 0 <= k < l < |q.issued| ==> q.issued[k].work.generation <= q.issued[l].work.generation
    // how far a work has come tells the commands that it has issued, and these are the ones that are run
    ensures forall i :: 0 <= i < |q.links| ==>
              IsCourse(q.links[i].phase, q.links[i].work.icon, CommandsOf(q.issued, i + 1))
    ensures |q.commands| == |q.issued|
            && forall k :: 0 <= k < |q.commands| ==> q.commands[k].command == q.issued[k].command
    // works run one at a time: commands in flight are of the same work
    ensures forall k, l :: 0 <= k < l < |q.commands| && !q.commands[k].settled && !q.commands[l].settled ==>
              k < |q.issued| && l < |q.issued| && q.issued[k].work == q.issued[l].work
    // a stale command was issued iff a request was accepted while a ClearIcon was in flight that has since settled
    ensures AnyStale(q.issued) <==>
      exists g :: g in q.overtaken && 1 <= g <= |q.links| && !q.links[g - 1].phase.Clearing?
    // every command has settled at most once, and has no timer left if it has settled
    ensures forall c :: c in q.commands ==>
              c.resolved == (if c.settled then 1 else 0) && (c.settled ==> !c.fallback && !c.forceFallback)
    // once the chain has settled, so have all commands, and the last of them was for the last request
    ensures q.links != [] && (forall l :: l in q.links ==> l.phase.Settled?) ==>
              && (forall c :: c in q.commands ==> c.settled)
              && q.issued != [] && q.issued[|q.issued| - 1].work == q.links[|q.links| - 1].work
  {
    hide Laws, DockIconPersistence.CommandsMatch, IconsOf, AnyStale, IsCourse, CommandsOf;
    q := new DockIconPersistence();
    assert IconsOf(q.links) == [];
    for n := 0 to |inputs|
      invariant fresh(q) && forall c :: c in q.Owned() ==> fresh(c)
      invariant q.Valid() && IconsOf(q.links) == AcceptedIcons(inputs[..n])
    {
      assert inputs[..n + 1][..n] == inputs[..n];
      Step(q, inputs[n]);
    }
    assert inputs[..|inputs|] == inputs;
    OrderOfRun(q);
    CoursesOfRun(q);
    StaleIff(q);
    OneWorkInFlight(q);
    SettledOnce(q);
    if q.links != [] && forall l :: l in q.links ==> l.phase.Settled? {
      LatestRequestWins(q);
    }
  }

  lemma CoursesOfRun(q: DockIconPersistence)
    requires q.Valid()
    ensures forall i :: 0 <= i < |q.links| ==>
              IsCourse(q.links[i].phase, q.links[i].work.icon, CommandsOf(q.issued, i + 1))
    ensures |q.commands| == |q.issued|
            && forall k :: 0 <= k < |q.commands| ==> q.commands[k].command == q.issued[k].command
  {
    hide IsCourse, CommandsOf, Laws;
    forall i | 0 <= i < |q.links|
      ensures IsCourse(q.links[i].phase, q.links[i].work.icon, CommandsOf(q.issued, i + 1))
    {
      q.OwnCourse(i);
    }
  }

  lemma OrderOfRun(q: DockIconPersistence)
    requires q.Valid()
    ensures forall i :: 0 <= i < |q.links| ==> q.links[i].work.generation == i + 1
    ensures forall k, l :: 0 <= k < l < |q.issued| ==> q.issued[k].work.generation <= q.issued[l].work.generation
  {
  }

  lemma SettledOnce(q: DockIconPersistence)
    requires q.Valid()
    ensures forall c :: c in q.commands ==>
              c.resolved == (if c.settled then 1 else 0) && (c.settled ==> !c.fallback && !c.forceFallback)
  {
    hide Laws;
    forall c | c in q.commands ensures c.Valid() {
      var k :| 0 <= k < |q.commands| && q.commands[k] == c;
    }
  }

  lemma StaleIff(q: DockIconPersistence)
    requires q.Valid()
    ensures AnyStale(q.issued) <==>
      exists g :: g in q.overtaken && 1 <= g <= |q.links| && !q.links[g - 1].phase.Clearing?
  {
    hide IsStale, DockIconPersistence.CommandsMatch, Chained, OneAtATime;
    var links, issued, overtaken := q.links, q.issued, q.overtaken;
    if AnyStale(issued) {
      var x :| x in issued && IsStale(x);
      var k :| 0 <= k < |issued| && issued[k] == x;
      var g := x.work.generation;
      assert ClearedAttributes(issued, g) && OvertakenClears(links, issued, overtaken, g - 1);
      assert g in overtaken && !links[g - 1].phase.Clearing?;
    }
    if exists g :: g in overtaken && 1 <= g <= |links| && !links[g - 1].phase.Clearing? {
      var g :| g in overtaken && 1 <= g <= |links| && !links[g - 1].phase.Clearing?;
      assert OvertakenClears(links, issued, overtaken, g - 1);
      var k :| 0 <= k < |issued| && issued[k].work.generation == g && IsAttributeClear(issued[k].command);
      assert issued[k] in issued && IsStale(issued[k]);
    }
  }

  lemma OneWorkInFlight(q: DockIconPersistence)
    requires q.Valid()
    ensures forall k, l :: 0 <= k < l < |q.commands| && !q.commands[k].settled && !q.commands[l].settled ==>
              k < |q.issued| && l < |q.issued| && q.issued[k].work == q.issued[l].work
  {
    hide Laws, Awaited;
    if q.started > 0 {
      assert AwaitsOwn(q.links[q.started - 1], q.issued);
    }
  }

  /** When the chain has settled, nothing is in flight, and the last work to have issued a command is that of
      the last accepted request. */
  lemma LatestRequestWins(q: DockIconPersistence)
    requires q.Valid() && forall l :: l in q.links ==> l.phase.Settled?
    ensures q.links != [] ==> q.issued != [] && q.issued[|q.issued| - 1].work == q.links[|q.links| - 1].work
    ensures forall c :: c in q.commands ==> c.settled
  {
    hide StaleIffOvertaken, Chained, IsCourse, CommandsOf;
    forall i | 0 <= i < |q.links| ensures q.links[i].phase.Settled? {
      assert q.links[i] in q.links;
    }
    assert q.links != [] ==> q.links[|q.links| - 1].phase.Settled?;
    assert forall i :: 0 <= i < |q.links| && q.links[i].phase.Settled? ==> i < q.started;
    forall c | c in q.commands ensures c.settled {
      var k :| 0 <= k < |q.commands| && q.commands[k] == c;
    }
  }

  /** Lets the timers of a command fire until it has settled. */
  method Await(q: DockIconPersistence, k: nat)
    requires q.Valid() && k < |q.commands|
    modifies q.commands[k]
    ensures q.Valid() && q.commands[k].settled
  {
    hide Laws, DockIconPersistence.CommandsMatch, Awaited;
    while !q.commands[k].settled
      invariant q.Valid()
      decreases q.commands[k].Patience()
    {
      q.CommandHappens(k, TimerFired);
    }
  }

  /** Brings a link from one phase to the next, by timers alone. */
  method FinishPhase(q: DockIconPersistence, n: nat)
    requires q.Valid() && n < |q.links| && !q.links[n].phase.Settled?
    requires forall i :: 0 <= i < n ==> q.links[i].phase.Settled?
    modifies q, q.Owned()
    ensures q.Valid() && IconsOf(q.links) == IconsOf(old(q.links))
    ensures forall c :: c in q.Owned() ==> c in old(q.Owned()) || fresh(c)
    ensures |q.links| == |old(q.links)| && forall i :: 0 <= i < |q.links| && i != n ==> q.links[i] == old(q.links)[i]
    ensures match old(q.links)[n].phase
            case Waiting => !q.links[n].phase.Waiting? && !q.links[n].phase.ClearingAttributes?
            case Clearing(_) => q.links[n].phase.ClearingAttributes?
            case _ => q.links[n].phase.Settled?
  {
    hide Laws, IconsOf, DockIconPersistence.CommandsMatch, AnyStale, IsStale, InOrder;
    var exec: Exec, exec': Exec := *, *;
    match q.links[n].phase {
      case Waiting =>
        CanStart(q, n);
        q.React(n, exec);
      case Setting(k) =>
        AwaitsCommands(q, n);
        assert Awaited(q.links[n].phase) == {k};
        Await(q, k);
        q.Continue(n, exec, exec');
      case Clearing(k) =>
        AwaitsCommands(q, n);
        assert Awaited(q.links[n].phase) == {k};
        Await(q, k);
        q.Continue(n, exec, exec');
      case ClearingAttributes(k, l) =>
        AwaitsCommands(q, n);
        assert Awaited(q.links[n].phase) == {k, l};
        Await(q, k);
        Await(q, l);
        q.Continue(n, exec, exec');
    }
    assert IconsOf(q.links) == IconsOf(old(q.links));
  }

  lemma CanStart(q: DockIconPersistence, n: nat)
    requires q.Valid() && n < |q.links| && q.links[n].phase.Waiting?
    requires forall i :: 0 <= i < n ==> q.links[i].phase.Settled?
    ensures q.CanReact(n)
  {
    hide OneAtATime, InOrder, StaleIffOvertaken, DockIconPersistence.CommandsMatch;
  }

  lemma AwaitsCommands(q: DockIconPersistence, n: nat)
    requires q.Valid() && n < |q.links|
    ensures forall k :: k in Awaited(q.links[n].phase) ==> k < |q.commands| && q.commands[k] in q.Owned()
  {
    hide Laws, Awaited;
    assert AwaitsOwn(q.links[n], q.issued);
  }

  /** Brings the work of a link to its end, once all before it have ended. */
  method Finish(q: DockIconPersistence, n: nat)
    requires q.Valid() && n < |q.links| && forall i :: 0 <= i < n ==> q.links[i].phase.Settled?
    modifies q, q.Owned()
    ensures q.Valid() && IconsOf(q.links) == IconsOf(old(q.links))
    ensures forall c :: c in q.Owned() ==> c in old(q.Owned()) || fresh(c)
    ensures |q.links| == |old(q.links)| && forall i :: 0 <= i <= n ==> q.links[i].phase.Settled?
  {
    hide Laws;
    while !q.links[n].phase.Settled?
      invariant q.Valid() && |q.links| == |old(q.links)| && IconsOf(q.links) == IconsOf(old(q.links))
      invariant forall c :: c in q.Owned() ==> c in old(q.Owned()) || fresh(c)
      invariant forall i :: 0 <= i < n ==> q.links[i].phase.Settled?
      decreases match q.links[n].phase case Waiting => 3 case Clearing(_) => 2 case Settled => 0 case _ => 1
    {
      FinishPhase(q, n);
    }
  }

  /** Left alone, the chain settles: the timers suffice to settle every command. */
  method Drain(q: DockIconPersistence)
    requires q.Valid()
    modifies q, q.Owned()
    ensures q.Valid() && forall l :: l in q.links ==> l.phase.Settled?
    ensures IconsOf(q.links) == IconsOf(old(q.links)) && forall c :: c in q.commands ==> c.settled
    ensures q.links != [] ==> q.issued != [] && q.issued[|q.issued| - 1].work == q.links[|q.links| - 1].work
  {
    hide Laws, DockIconPersistence.CommandsMatch, IconsOf;
    for n := 0 to |q.links|
      invariant q.Valid() && IconsOf(q.links) == IconsOf(old(q.links)) && |q.links| == |old(q.links)|
      invariant forall c :: c in q.Owned() ==> c in old(q.Owned()) || fresh(c)
      invariant forall i :: 0 <= i < n ==> q.links[i].phase.Settled?
    {
      Finish(q, n);
    }
    LatestRequestWins(q);
  }

  /** A classic icon that is superseded while its `ClearIcon` runs still clears the two attributes: so stale
      requests do not always issue no command. */
  method SupersededClassicStillClears() returns (q: DockIconPersistence)
    ensures q.Valid() && |q.links| == 2
    ensures |q.issued| == 3 && q.issued[2].work.generation == 1 && IsStale(q.issued[2])
  {
    hide Laws;
    q := new DockIconPersistence();
    q.Persist(true, false, true, Classic);
    CanStart(q, 0);
    q.React(0, Exec(false, false, true));
    q.Persist(true, false, true, Blue);
    q.CommandHappens(0, CalledBack);
    q.Continue(0, Exec(false, false, true), Exec(false, false, true));
  }
}
