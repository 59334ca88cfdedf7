/** scripts/investigate_pytest_shutdown.py: stopping the supervisor's descendants. */
module ShutdownCleanup {
  import opened ShutdownWorld

  const CLEANUP_LIMIT := 6000
  const FORCE_AFTER := 3000
  const PAUSE := 50

  /** Terminate every found process that was not terminated yet. */
  method TerminateRest(world: World, owned: set<Process>, terminated: set<Process>)
    requires owned == world.seen && terminated == world.terminated && terminated <= owned
    modifies world`terminated
    ensures world.terminated == owned
  {
    var left := owned - terminated;
    assert owned - left == terminated;
    while left != {}
      invariant left <= owned && world.terminated == owned - left
      decreases |left|
    {
      var child :| child in left;
      world.Terminate(child);
      assert owned - (left - {child}) == (owned - left) + {child};
      left := left - {child};
    }
  }

  /** Kill every found process that was not killed yet. */
  method KillRest(world: World, owned: set<Process>, killed: set<Process>)
    requires owned == world.seen && killed == world.killed && killed <= owned
    requires world.now >= world.forceFrom
    modifies world`killed
    ensures world.killed == owned
  {
    var left := owned - killed;
    assert owned - left == killed;
    while left != {}
      invariant left <= owned && world.killed == owned - left
      decreases |left|
    {
      var child :| child in left;
      world.Kill(child);
      assert owned - (left - {child}) == (owned - left) + {child};
      left := left - {child};
    }
  }

  /** Signal what was found and not signalled yet: with a kill, or else with a
      termination. */
  method SignalRest(world: World, owned: set<Process>, terminated: set<Process>, killed: set<Process>, force: bool)
    returns (nowTerminated: set<Process>, nowKilled: set<Process>)
    requires owned == world.seen && terminated == world.terminated && killed == world.killed
    requires terminated <= owned && killed <= owned && (force ==> world.now >= world.forceFrom)
    modifies world`terminated, world`killed
    ensures nowTerminated == world.terminated == (if force then terminated else owned)
    ensures nowKilled == world.killed == (if force then owned else killed)
  {
    nowTerminated, nowKilled := terminated, killed;
    if force {
      KillRest(world, owned, killed);
      nowKilled := owned;
    } else {
      TerminateRest(world, owned, terminated);
      nowTerminated := owned;
    }
  }

  /** Reap exited children until none is left to reap, or none is left at all. */
  method ReapAll(world: World, deadline: nat) returns (childless: bool)
    requires !world.childless && world.now < deadline
    modifies world`zombies, world`childless, world`asked
    ensures world.asked && childless == world.childless
  {
    while world.now < deadline
      invariant !world.childless
      invariant world.now < deadline
      decreases world.zombies
    {
      var r := world.WaitAny();
      if r == NoChildren { return true; }
      if r == NothingToReap { break; }
    }
    childless := false;
  }

  /** The sets of the loop are what the world has recorded. */
  ghost predicate Ledger(world: World, owned: set<Process>, terminated: set<Process>, killed: set<Process>)
    reads world
  {
    owned == world.seen && terminated == world.terminated && killed == world.killed && terminated <= owned && killed <= owned
  }

  /** One round: look for descendants, signal them, and reap once the launcher has
      exited. */
  method Round(world: World, deadline: nat, owned: set<Process>, terminated: set<Process>, killed: set<Process>, force: bool)
    returns (childless: bool, nowOwned: set<Process>, nowTerminated: set<Process>, nowKilled: set<Process>)
    requires Ledger(world, owned, terminated, killed) && world.now < deadline && (force ==> world.now >= world.forceFrom)
    requires !world.childless && (world.exited <==> world.asked)
    modifies world`seen, world`zombies, world`present, world`looks, world`terminated, world`killed, world`exited, world`polls,
             world`childless, world`asked
    ensures Ledger(world, nowOwned, nowTerminated, nowKilled)
    ensures if force then nowKilled == nowOwned else nowTerminated == nowOwned && nowKilled == killed
    ensures world.looks == old(world.looks) + 1 && world.polls == old(world.polls) + 1
    ensures (world.exited <==> world.asked) && childless == world.childless && (childless ==> world.exited)
  {
    var found := world.Children();
    nowOwned := owned + found;
    nowTerminated, nowKilled := SignalRest(world, nowOwned, terminated, killed, force);
    var gone := world.Poll();
    childless := false;
    if gone { childless := ReapAll(world, deadline); }
  }

  /** Cleanup ends within its limit. Twenty times a second or more it looks for
      descendants and polls the launcher; once the launcher has exited it asks for children
      to reap, and it reports success exactly when it is told that none is left. It kills
      nothing within its first three seconds. It signals only descendants it found, each at
      most once with either signal, and every one of them at least once; when it gives
      up, it has killed them all. */
  method CleanupOwned(world: World) returns (clean: bool, retained: nat)
    modifies world
    ensures old(world.now) <= world.now <= old(world.now) + CLEANUP_LIMIT
    ensures (clean <==> world.childless) && (world.exited <==> world.asked) && (clean ==> world.exited)
    ensures world.forceFrom == old(world.now) + FORCE_AFTER
    ensures world.terminated + world.killed == world.seen && retained == |world.seen|
    ensures !clean ==> world.killed == world.seen && world.now == old(world.now) + CLEANUP_LIMIT
    ensures world.answers == old(world.answers) && world.disturbances == old(world.disturbances)
    ensures world.looks - old(world.looks) == world.polls - old(world.polls) > 0
    ensures world.now - old(world.now) <= PAUSE * (world.polls - old(world.polls))
  {
    world.OpenLedger(FORCE_AFTER);
    var started := world.Clock();
    var deadline := started + CLEANUP_LIMIT;
    var owned: set<Process>, terminated: set<Process>, killed: set<Process> := {}, {}, {};
    ghost var looks, polls := world.looks, world.polls;
    while world.now < deadline
      invariant started <= world.now <= deadline
      invariant Ledger(world, owned, terminated, killed) && (terminated == owned || killed == owned)
      invariant world.now >= started + FORCE_AFTER + PAUSE ==> killed == owned
      invariant world.forceFrom == started + FORCE_AFTER
      invariant world.disturbances == old(world.disturbances) && world.answers == old(world.answers)
      invariant world.looks - looks == world.polls - polls
      invariant world.now - started <= PAUSE * (world.polls - polls)
      invariant !world.childless && (world.exited <==> world.asked)
      decreases deadline - world.now
    {
      var childless;
      childless, owned, terminated, killed := Round(world, deadline, owned, terminated, killed, world.now >= started + FORCE_AFTER);
      if childless { return true, |owned|; }
      world.Sleep(if deadline - world.now < PAUSE then deadline - world.now else PAUSE);
    }
    clean, retained := false, |owned|;
  }
}
