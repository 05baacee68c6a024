/**
  The world outside the keep-awake service: Electron's power-save blockers, the systemd-inhibit
  children and the clock. Every call may fail in the ways the contracts leave open; a host that cooperates
  neither throws nor drops or keeps a blocker against what was asked.
 */
module AwakeHost {
  import opened Options

  datatype SpawnResult = Child(id: nat) | ThrewMissing | Threw

  datatype Answer = Yes | No | NoAnswer

  class Host {
    const cooperates: bool
    var now: int
    var blockers: set<nat>    // blockers that are started
    var nextBlocker: nat
    var nextChild: nat        // the children spawned so far are those below this number
    var listening: set<nat>   // children with listeners attached
    var kills: seq<nat>       // children that were sent a kill, in order

    constructor (at: int, cooperates: bool)
      ensures now == at && this.cooperates == cooperates && blockers == {}
      ensures nextChild == 0 && listening == {} && kills == []
    {
      this.cooperates := cooperates;
      now, blockers, nextBlocker, nextChild, listening, kills := at, {}, 0, 0, {}, [];
    }

    /** powerSaveBlocker.start: a new identifier, or it throws and starts nothing. */
    method StartBlocker() returns (result: Option<nat>)
      requires forall b :: b in blockers ==> b < nextBlocker
      modifies this`blockers, this`nextBlocker
      ensures forall b :: b in blockers ==> b < nextBlocker
      ensures result.None? ==> blockers == old(blockers) && !cooperates
      ensures result.Some? ==> result.value !in old(blockers) && blockers == old(blockers) + {result.value}
    {
      var throws: bool := *;
      if throws && !cooperates {
        return None;
      }
      result := Some(nextBlocker);
      blockers, nextBlocker := blockers + {nextBlocker}, nextBlocker + 1;
    }

    /** powerSaveBlocker.stop: it may throw, and with or without throwing it may leave the blocker started. */
    method StopBlocker(id: nat)
      modifies this`blockers
      ensures blockers == old(blockers) || blockers == old(blockers) - {id}
      ensures cooperates ==> id !in blockers
    {
      var stays: bool := *;
      if !stays || cooperates {
        blockers := blockers - {id};
      }
    }

    /** powerSaveBlocker.isStarted: the truth, or it throws. */
    method AskBlocker(id: nat) returns (answer: Answer)
      ensures answer.Yes? ==> id in blockers
      ensures answer.No? ==> id !in blockers
      ensures cooperates ==> !answer.NoAnswer?
    {
      var throws: bool := *;
      answer := if throws && !cooperates then NoAnswer else if id in blockers then Yes else No;
    }

    method Spawn() returns (result: SpawnResult)
      modifies this`nextChild
      ensures result.Child? ==> result.id == old(nextChild) && nextChild == old(nextChild) + 1
      ensures !result.Child? ==> nextChild == old(nextChild)
    {
      var succeeds: bool, missing: bool := *, *;
      if succeeds {
        result := Child(nextChild);
        nextChild := nextChild + 1;
      } else {
        result := if missing then ThrewMissing else Threw;
      }
    }

    /** child.kill may throw; the service only logs that, so the outcome is not returned. */
    method Kill(child: nat)
      modifies this`kills
      ensures kills == old(kills) + [child]
    {
      kills := kills + [child];
    }
  }
}
