/** scripts/investigate_pytest_shutdown.py: the clock and the processes an
    investigation meets. Waits, sleeps and joins keep their limits; everything else
    takes no time. */
module ShutdownWorld {
  import opened Text

  /** A process with its creation time: never reused. */
  type Process = nat

  datatype Reap = NoChildren | NothingToReap | Reaped

  datatype WaitResult = Exited(code: int) | TimedOut | Interrupted

  class World {
    /** Milliseconds. */
    var now: nat
    var zombies: nat
    /** Of one cleanup: the descendants found, and who was sent which signal. */
    ghost var seen: set<Process>
    ghost var terminated: set<Process>
    ghost var killed: set<Process>
    ghost var forceFrom: nat       // when kills may begin
    ghost var exited: bool
    ghost var childless: bool
    ghost var asked: bool          // for a child to reap
    /** What happened, as the world knows it: the answers to the waits for the launcher, how
        many naps were interrupted, how often the launcher was polled and someone looked for
        the children, what the last look found, and how the reader and the capture
        ended. */
    ghost var answers: seq<WaitResult>
    ghost var disturbances: nat
    ghost var polls: nat
    ghost var looks: nat
    ghost var present: set<Process>
    ghost var readerAlive: bool
    ghost var captureFailed: bool

    constructor (start: nat)
      ensures now == start
    {
      now, zombies, seen, terminated, killed := start, 0, {}, {}, {};
      forceFrom, exited, childless, asked := 0, false, false, false;
      answers, disturbances, polls, looks := [], 0, 0, 0;
      present, readerAlive, captureFailed := {}, false, false;
    }

    method Clock() returns (t: nat)
      ensures t == now
    {
      t := now;
    }

    /** A snapshot of the supervisor's descendants. */
    method Children() returns (found: set<Process>)
      modifies this`seen, this`zombies, this`present, this`looks
      ensures seen == old(seen) + found && present == found && looks == old(looks) + 1
    {
      found := *;
      zombies := *;
      seen, present, looks := seen + found, found, looks + 1;
    }

    /** A cleanup begins; kills are allowed after the grace period. */
    ghost method OpenLedger(grace: nat)
      modifies this`seen, this`terminated, this`killed, this`forceFrom, this`exited, this`childless, this`asked
      ensures seen == terminated == killed == {} && forceFrom == now + grace && !exited && !childless && !asked
    {
      seen, terminated, killed, forceFrom := {}, {}, {}, now + grace;
      exited, childless, asked := false, false, false;
    }

    /** A signal goes to a descendant that was found, and only once of its kind; a kill
        not within the grace period. */
    method Terminate(p: Process)
      requires p in seen && p !in terminated
      modifies this`terminated
      ensures terminated == old(terminated) + {p}
    {
      terminated := terminated + {p};
    }

    method Kill(p: Process)
      requires p in seen && p !in killed && now >= forceFrom
      modifies this`killed
      ensures killed == old(killed) + {p}
    {
      killed := killed + {p};
    }

    method Wait(limit: nat) returns (r: WaitResult)
      modifies this`now, this`zombies, this`answers
      ensures answers == old(answers) + [r]
      ensures old(now) <= now <= old(now) + limit
      ensures r == TimedOut ==> now == old(now) + limit
    {
      r, zombies := *, *;
      answers := answers + [r];
      if r == TimedOut {
        now := now + limit;
      } else {
        var taken: nat :| taken <= limit;
        now := now + taken;
      }
    }

    /** A wait that takes no time: whether the launcher has exited. */
    method Poll() returns (gone: bool)
      modifies this`zombies, this`exited, this`polls
      ensures exited == (old(exited) || gone) && polls == old(polls) + 1
    {
      gone, zombies := *, *;
      exited, polls := exited || gone, polls + 1;
    }

    method Sleep(duration: nat)
      modifies this`now, this`zombies
      ensures now == old(now) + duration
    {
      now := now + duration;
      zombies := *;
    }

    /** A sleep that an interrupt can end early. */
    method Nap(duration: nat) returns (interrupted: bool)
      modifies this`now, this`zombies, this`disturbances
      ensures old(now) <= now <= old(now) + duration
      ensures !interrupted ==> now == old(now) + duration
      ensures disturbances == old(disturbances) + if interrupted then 1 else 0
    {
      interrupted, zombies := *, *;
      disturbances := disturbances + if interrupted then 1 else 0;
      var taken: nat :| taken <= duration && (!interrupted ==> taken == duration);
      now := now + taken;
    }

    /** Reap one child if any waits for it. */
    method WaitAny() returns (r: Reap)
      modifies this`zombies, this`childless, this`asked
      ensures r == Reaped ==> zombies < old(zombies)
      ensures asked && childless == (old(childless) || r == NoChildren)
    {
      asked := true;
      if zombies > 0 {
        zombies := zombies - 1;
        return Reaped;
      }
      var none := *;
      childless := childless || none;
      r := if none then NoChildren else NothingToReap;
    }

    /** Wait for the reader thread. */
    method Join(limit: nat) returns (alive: bool)
      modifies this`now, this`readerAlive
      ensures old(now) <= now <= old(now) + limit && readerAlive == alive
    {
      alive := *;
      readerAlive := alive;
      var taken: nat :| taken <= limit;
      now := now + taken;
    }

    /** Whether the capture recorded an error. */
    method CaptureError() returns (failed: bool)
      modifies this`captureFailed
      ensures captureFailed == failed
    {
      failed := *;
      captureFailed := failed;
    }
  }
}
