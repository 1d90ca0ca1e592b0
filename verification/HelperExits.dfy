/**
 The exit code of the Computer Use helper, read off what happened
 (cua-helper/main.ts:145-205, cua-helper/contracts.ts:38-43).
 */
module HelperExits {
  import opened Results
  import opened HelperLifecycle

  function After(actions: seq<Action>, i: nat): Helper
    requires i <= |actions|
  {
    Run(LAUNCHED, actions[..i])
  }

  /** The action that makes the first request for a shutdown. */
  predicate FirstAsks(actions: seq<Action>, i: nat) {
    i < |actions| && After(actions, i).requester.None? && After(actions, i + 1).requester.Some?
  }

  predicate Connecting(s: Startup) {
    s.ClientConnecting? || s.ServerConnecting?
  }

  /** The start-up fails here, in the host or in one of the bridge's connections. */
  predicate FailsToStart(actions: seq<Action>, i: nat, permission: bool) {
    && i < |actions|
    && After(actions, i).exits == []
    && (|| (actions[i] == HostFails(permission) && After(actions, i).startup.HostStarting?)
        || (actions[i] == ConnectFails(permission) && Connecting(After(actions, i).startup)))
  }

  /** The host is stopped and destroyed here. */
  predicate StopsHost(actions: seq<Action>, i: nat, throws: bool, permission: bool) {
    && i < |actions|
    && actions[i] == HostStopped(throws, permission)
    && After(actions, i).exits == [] && After(actions, i).shutdown.StoppingHost?
  }

  lemma AfterNext(actions: seq<Action>, i: nat)
    requires i < |actions|
    ensures After(actions, i + 1) == Step(After(actions, i), actions[i])
  {
    hide Step;
    assert actions[..i + 1] == actions[..i] + [actions[i]];
    RunJoins(LAUNCHED, actions[..i], [actions[i]]);
    var h := After(actions, i);
    assert [actions[i]][1..] == [];
    assert Run(Step(h, actions[i]), []) == Step(h, actions[i]);
  }

  lemma AfterAll(actions: seq<Action>)
    ensures After(actions, |actions|) == Run(LAUNCHED, actions)
  {
    assert actions[..|actions|] == actions;
  }

  /** The start-up has failed over a permission, or for another reason. */
  predicate Failing(s: Startup, permission: bool) {
    (s.CleaningUp? || s.FailedToStart?) && s.permission == permission
  }

  lemma FailingStays(h: Helper, a: Action, permission: bool)
    requires Failing(h.startup, permission)
    ensures Failing(Step(h, a).startup, permission)
  {
  }

  lemma FailingBegins(h: Helper, a: Action, permission: bool)
    requires !Failing(h.startup, permission)
    ensures Failing(Step(h, a).startup, permission)
       <==> h.exits == [] && (|| (a == HostFails(permission) && h.startup.HostStarting?)
                              || (a == ConnectFails(permission) && Connecting(h.startup)))
  {
  }

  lemma {:induction false} FailingAfter(actions: seq<Action>, j: nat, permission: bool, i: nat)
    requires FailsToStart(actions, j, permission) && j < i <= |actions|
    ensures Failing(After(actions, i).startup, permission)
    decreases i
  {
    AfterNext(actions, i - 1);
    hide After, Step, Failing;
    if i == j + 1 {
      FailedNow(After(actions, j), actions[j], permission);
    } else {
      FailingAfter(actions, j, permission, i - 1);
      FailingStays(After(actions, i - 1), actions[i - 1], permission);
    }
  }

  lemma FailedNow(h: Helper, a: Action, permission: bool)
    requires h.exits == []
    requires || (a == HostFails(permission) && h.startup.HostStarting?)
             || (a == ConnectFails(permission) && Connecting(h.startup))
    ensures Failing(Step(h, a).startup, permission)
  {
  }

  lemma {:induction false} FailedBefore(actions: seq<Action>, i: nat, permission: bool) returns (j: nat)
    requires i <= |actions| && Failing(After(actions, i).startup, permission)
    ensures j < i && FailsToStart(actions, j, permission)
  {
    assert After(actions, 0) == LAUNCHED;
    AfterNext(actions, i - 1);
    hide After, Step, Failing;
    j := i - 1;
    if Failing(After(actions, j).startup, permission) {
      j := FailedBefore(actions, i - 1, permission);
    } else {
      FailingBegins(After(actions, j), actions[j], permission);
    }
  }

  /** Who asks is decided by the action. */
  lemma Asks(h: Helper, a: Action)
    requires h.requester.None?
    ensures Step(h, a).requester.Some? ==>
              match Step(h, a).requester.value
              case Owner => a.OwnerGone?
              case StartupFailure(permission) => a.MainContinues? && Failing(h.startup, permission)
              case DriverExit => a.DriverExits?
  {
  }

  /**
   Before the process exits, a shutdown is asked for by the owner's leaving, by main when it finds
   that start-up failed, and by the driver's exit while it is watched; by nothing else.
   */
  lemma WhatAsks(h: Helper, a: Action)
    requires h.requester.None? && h.exits == []
    ensures Step(h, a).requester.Some?
       <==> || a.OwnerGone?
            || (a.MainContinues? && h.main.AwaitingStartup? && h.startup.FailedToStart?)
            || (a.DriverExits? && h.monitor.Watching?)
  {
  }

  lemma {:induction false} FirstRequest(actions: seq<Action>, i: nat) returns (j: nat)
    requires i <= |actions| && After(actions, i).requester.Some?
    ensures j < i && FirstAsks(actions, j)
  {
    assert After(actions, 0) == LAUNCHED;
    hide After;
    j := i - 1;
    if After(actions, j).requester.Some? {
      j := FirstRequest(actions, i - 1);
    }
  }

  /** The request recorded at the end is the one made first. */
  lemma RequestFromFirst(actions: seq<Action>, i: nat)
    requires FirstAsks(actions, i)
    ensures Run(LAUNCHED, actions).requester == After(actions, i + 1).requester
  {
    hide Step;
    assert actions == actions[..i + 1] + actions[i + 1..];
    RunJoins(LAUNCHED, actions[..i + 1], actions[i + 1..]);
    FirstRequestStands(After(actions, i + 1), actions[i + 1..]);
  }

  /** What the first request says of the run. */
  ghost predicate Recorded(actions: seq<Action>, i: nat, r: Requester)
    requires i < |actions|
  {
    match actions[i]
    case OwnerGone => r == Owner
    case MainContinues =>
      && (exists j: nat, permission | j < i :: FailsToStart(actions, j, permission))
      && (forall j: nat, permission | FailsToStart(actions, j, permission) :: j < i && r == StartupFailure(permission))
    case DriverExits => r == DriverExit
    case _ => false
  }

  lemma FirstIsRecorded(actions: seq<Action>, i: nat)
    requires FirstAsks(actions, i)
    ensures var h := Run(LAUNCHED, actions); h.requester.Some? && Recorded(actions, i, h.requester.value)
  {
    var h := After(actions, i);
    var r := After(actions, i + 1).requester.value;
    RequestFromFirst(actions, i);
    AfterNext(actions, i);
    Asks(h, actions[i]);
    hide After, Step, Failing, FailsToStart;
    if r.StartupFailure? {
      var j := FailedBefore(actions, i, r.permission);
      forall k: nat, permission | FailsToStart(actions, k, permission)
        ensures k < i && permission == r.permission
      {
        FailsOnce(actions, j, r.permission, k, permission);
      }
    }
  }

  /** Start-up fails at most once. */
  lemma FailsOnce(actions: seq<Action>, j: nat, p: bool, k: nat, q: bool)
    requires FailsToStart(actions, j, p) && FailsToStart(actions, k, q)
    ensures j == k && p == q
  {
    if j < k {
      FailingAfter(actions, j, p, k);
    } else if k < j {
      FailingAfter(actions, k, q, j);
    }
  }

  // ---------------------------------------------------------------------------
  // The end of the run

  /**
   How the process exits when its first request is made by action `i`. `throws` says that
   destroying the host threw, and `permission` that it did so over a permission.
   */
  ghost predicate ExitsWith(actions: seq<Action>, i: nat, throws: bool, permission: bool, exits: seq<int>)
    requires i < |actions|
  {
    match actions[i]
    case OwnerGone => exits == if throws then [1] else [0]
    case MainContinues =>
      && (exists j: nat, p | j < i :: FailsToStart(actions, j, p))
      && (forall j: nat, p | FailsToStart(actions, j, p) ::
            exits == [if (if throws then permission else p) then 78 else 69])
    case DriverExits => exits == if throws then [] else [69]
    case _ => false
  }

  /** The numbers of an exit with this first request. */
  function Numbers(r: Requester, throws: bool, permission: bool): seq<int> {
    match r
    case Owner => if throws then [1] else [0]
    case StartupFailure(p) => [if (if throws then permission else p) then 78 else 69]
    case DriverExit => if throws then [] else [69]
  }

  lemma DestroyedNumbers(h: Helper, throws: bool, permission: bool)
    requires h.requester.Some? && h.exits == []
    ensures Destroyed(h, throws, permission).exits == Numbers(h.requester.value, throws, permission)
    ensures Destroyed(h, throws, permission).requester == h.requester
    ensures Destroyed(h, throws, permission).shutdown == if throws then Threw else Exiting
  {
  }

  lemma StoppingIsRequested(actions: seq<Action>, i: nat)
    requires i <= |actions|
    requires var h := After(actions, i); h.shutdown.StoppingHost? || h.shutdown.Threw? || h.exits != []
    ensures var h := After(actions, i);
            h.requester.Some? && (h.requester.value.DriverExit? ==> !h.main.AwaitingStartup?)
  {
    RunsAreInOrder(actions[..i]);
  }

  lemma StopNumbers(actions: seq<Action>, k: nat, throws: bool, permission: bool)
    requires StopsHost(actions, k, throws, permission)
    ensures var h := After(actions, k);
            && h.requester.Some?
            && Run(LAUNCHED, actions).exits == Numbers(h.requester.value, throws, permission)
            && Run(LAUNCHED, actions).requester == h.requester
  {
    var h, h' := After(actions, k), After(actions, k + 1);
    StoppingIsRequested(actions, k);
    AfterNext(actions, k);
    assert h' == Destroyed(h, throws, permission);
    DestroyedNumbers(h, throws, permission);
    assert h.requester.value.DriverExit? ==> !h'.main.AwaitingStartup?;
    hide Step, Destroyed;
    var more := actions[k + 1..];
    assert actions == actions[..k + 1] + more;
    RunJoins(LAUNCHED, actions[..k + 1], more);
    FirstRequestStands(h', more);
    if h'.exits == [] {
      StrandedForGood(h', more);
    } else {
      ExitStands(h', more);
    }
  }

  /**
   The exit code, from the actions alone. A run whose host is stopped without a throw exits with
   0 if the owner asked first, with 78 if start-up failed over a permission, and with 69 if it
   failed otherwise or the driver exited; with a throw it exits with 1, with the code for what was
   thrown, and not at all.
   */
  lemma ExitNumbers(actions: seq<Action>, k: nat, throws: bool, permission: bool, i: nat)
    requires StopsHost(actions, k, throws, permission) && FirstAsks(actions, i)
    ensures ExitsWith(actions, i, throws, permission, Run(LAUNCHED, actions).exits)
  {
    StopNumbers(actions, k, throws, permission);
    FirstIsRecorded(actions, i);
    hide FirstAsks, FailsToStart, StopsHost, After;
  }

  /** What ExitNumbers speaks of has happened, in that order, whenever the process exits. */
  lemma ExitIsAskedFor(actions: seq<Action>) returns (k: nat, throws: bool, permission: bool, i: nat)
    requires Run(LAUNCHED, actions).exits != []
    ensures StopsHost(actions, k, throws, permission) && FirstAsks(actions, i) && i < k
  {
    AfterAll(actions);
    k, throws, permission := StopBefore(actions, |actions|);
    StoppingIsRequested(actions, k);
    i := FirstRequest(actions, k);
  }

  lemma StopStep(h: Helper, a: Action)
    requires h.exits == [] && Step(h, a).exits != []
    ensures a.HostStopped? && h.shutdown.StoppingHost?
  {
  }

  lemma {:induction false} StopBefore(actions: seq<Action>, n: nat) returns (k: nat, throws: bool, permission: bool)
    requires n <= |actions| && After(actions, n).exits != []
    ensures k < n && StopsHost(actions, k, throws, permission)
  {
    assert After(actions, 0) == LAUNCHED;
    AfterNext(actions, n - 1);
    hide After, Step;
    k := n - 1;
    if After(actions, k).exits != [] {
      k, throws, permission := StopBefore(actions, n - 1);
    } else {
      StopStep(After(actions, k), actions[k]);
      throws, permission := actions[k].destroyThrows, actions[k].permission;
    }
  }
}
