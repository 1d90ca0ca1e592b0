/**
 What the supervisor's runs have in common, told from their history: which step published what,
 when `ready` and the connection disagree, how a stop ends, and which connection start() returns.
 */
module CuaRuntimeHistory {
  import opened Results
  import opened CuaRuntime
  import opened CuaRuntimeRuns

  /** The world after the first `n` actions. */
  function After(actions: seq<Action>, n: nat): World
    requires n <= |actions|
  {
    Run(START, actions[..n])
  }

  lemma {:induction false} RunSnoc(w: World, actions: seq<Action>, a: Action)
    ensures Run(w, actions + [a]) == Step(Run(w, actions), a)
    decreases |actions|
  {
    hide Step;
    if actions == [] {
      RunMore(w, a, []);
      assert actions + [a] == [a] + [];
    } else {
      RunSnoc(Step(w, actions[0]), actions[1..], a);
      assert (actions + [a])[1..] == actions[1..] + [a];
    }
  }

  lemma StepAt(actions: seq<Action>, n: nat)
    requires n < |actions|
    ensures After(actions, n + 1) == Step(After(actions, n), actions[n])
    ensures Inv(After(actions, n)) && Inv(After(actions, n + 1))
  {
    hide *;
    assert actions[..n + 1] == actions[..n] + [actions[n]];
    RunSnoc(START, actions[..n], actions[n]);
    RunsAreInOrder(actions[..n]);
    RunsAreInOrder(actions[..n + 1]);
    AfterIsRun(actions, n);
    AfterIsRun(actions, n + 1);
  }

  lemma AfterIsRun(actions: seq<Action>, n: nat)
    requires n <= |actions|
    ensures After(actions, n) == Run(START, actions[..n])
  {
  }

  lemma AfterAll(actions: seq<Action>)
    ensures After(actions, |actions|) == Run(START, actions) && After(actions, 0) == START
  {
    assert actions[..|actions|] == actions;
  }

  /** What had been published by then is still there. */
  lemma {:induction false} PublishedGrows(actions: seq<Action>, i: nat, n: nat)
    requires i <= n <= |actions|
    ensures After(actions, i).m.published <= After(actions, n).m.published
  {
    hide Run, Step, After, Inv;
    if i < n {
      PublishedGrows(actions, i, n - 1);
      StepAt(actions, n - 1);
      StepPublishes(After(actions, n - 1), actions[n - 1]);
    }
  }

  // ---------------------------------------------------------------------------
  // Who published what

  /** A call that takes the connection away: restart, stop, or the loss of a helper in use. */
  predicate Withdraws(w: World, a: Action) {
    !w.m.stopped && (a.CallRestart? || a.CallStop? || (a.CallMarkUnavailable? && w.m.connection.Some?))
  }

  lemma PublishesOnce(w: World, a: Action)
    ensures var before, after := w.m.published, Step(w, a).m.published;
            if Withdraws(w, a) then after == before + [None]
            else after == before || after == before + [Some(w.generations)]
  {
  }

  /** Step `i` of the run published the value at position `k`. */
  ghost predicate PublishedBy(actions: seq<Action>, i: nat, k: nat) {
    && i < |actions|
    && |After(actions, i).m.published| == k && |After(actions, i + 1).m.published| == k + 1
  }

  ghost predicate HasPublisher(actions: seq<Action>, k: nat) {
    exists i: nat :: PublishedBy(actions, i, k)
  }

  lemma {:induction false} SomeStepPublished(actions: seq<Action>, n: nat, k: nat) returns (i: nat)
    requires n <= |actions| && k < |After(actions, n).m.published|
    ensures PublishedBy(actions, i, k)
  {
    if n == 0 {
      AfterAll(actions);
      assert false;
    } else {
      hide After;
      AtMostOne(actions, n - 1);
      if k < |After(actions, n - 1).m.published| {
        i := SomeStepPublished(actions, n - 1, k);
      } else {
        i := n - 1;
      }
    }
  }

  lemma AtMostOne(actions: seq<Action>, n: nat)
    requires n < |actions|
    ensures |After(actions, n).m.published| <= |After(actions, n + 1).m.published| <= |After(actions, n).m.published| + 1
  {
    hide After, Step, Inv, Withdraws;
    StepAt(actions, n);
    PublishesOnce(After(actions, n), actions[n]);
  }

  lemma PublisherKnown(actions: seq<Action>, i: nat, k: nat)
    requires PublishedBy(actions, i, k)
    ensures k < |Run(START, actions).m.published|
    ensures Run(START, actions).m.published[k].None? <==> Withdraws(After(actions, i), actions[i])
  {
    StepAt(actions, i);
    PublishesOnce(After(actions, i), actions[i]);
    PublishedGrows(actions, i + 1, |actions|);
    AfterAll(actions);
    hide *;
    assert Run(START, actions).m.published[k] == After(actions, i + 1).m.published[k];
  }

  lemma PublishersInOrder(actions: seq<Action>, i: nat, k: nat, j: nat, l: nat)
    requires PublishedBy(actions, i, k) && PublishedBy(actions, j, l)
    ensures i < j <==> k < l
  {
    if i < j { PublishedGrows(actions, i + 1, j); }
    if j < i { PublishedGrows(actions, j + 1, i); }
  }

  /**
   Published values and the steps behind them correspond one to one and in order, and the
   withdrawals among the values are exactly the calls that withdraw.
   */
  lemma WithdrawalsMatchCalls(actions: seq<Action>)
    ensures forall k: nat | k < |Run(START, actions).m.published| :: HasPublisher(actions, k)
    ensures forall i: nat, k: nat | PublishedBy(actions, i, k) ::
      && k < |Run(START, actions).m.published|
      && (Run(START, actions).m.published[k].None? <==> Withdraws(After(actions, i), actions[i]))
    ensures forall i: nat | i < |actions| && Withdraws(After(actions, i), actions[i]) ::
      PublishedBy(actions, i, |After(actions, i).m.published|)
    ensures forall i: nat, k: nat, j: nat, l: nat | PublishedBy(actions, i, k) && PublishedBy(actions, j, l) :: i < j <==> k < l
  {
    AfterAll(actions);
    hide Run, Step, After, Withdraws;
    forall k: nat | k < |Run(START, actions).m.published|
      ensures HasPublisher(actions, k)
    {
      var i := SomeStepPublished(actions, |actions|, k);
    }
    forall i: nat, k: nat | PublishedBy(actions, i, k)
      ensures k < |Run(START, actions).m.published|
      ensures Run(START, actions).m.published[k].None? <==> Withdraws(After(actions, i), actions[i])
    {
      PublisherKnown(actions, i, k);
    }
    forall i: nat | i < |actions| && Withdraws(After(actions, i), actions[i])
      ensures PublishedBy(actions, i, |After(actions, i).m.published|)
    {
      WithdrawalPublishes(actions, i);
    }
    forall i: nat, k: nat, j: nat, l: nat | PublishedBy(actions, i, k) && PublishedBy(actions, j, l)
      ensures i < j <==> k < l
    {
      PublishersInOrder(actions, i, k, j, l);
    }
  }

  lemma WithdrawalPublishes(actions: seq<Action>, i: nat)
    requires i < |actions| && Withdraws(After(actions, i), actions[i])
    ensures PublishedBy(actions, i, |After(actions, i).m.published|)
  {
    StepAt(actions, i);
    PublishesOnce(After(actions, i), actions[i]);
  }

  ghost predicate Alternates(published: seq<Option<Generation>>) {
    forall k | 0 <= k < |published| - 1 && published[k].Some? :: published[k + 1].None?
  }

  lemma AlternatesOn(published: seq<Option<Generation>>, value: Option<Generation>)
    requires Alternates(published) && (value.Some? ==> LastPublished(published).None?)
    ensures Alternates(published + [value])
  {
  }

  /** A launch connects only while nothing is stored. */
  lemma ConnectsWhenEmpty(w: World, a: Action)
    requires Inv(w) && Step(w, a).m.published == w.m.published + [Some(w.generations)]
    ensures LastPublished(w.m.published).None?
  {
    assert Step(w, a).m.published[|w.m.published|] == Some(w.generations);
    if OnLaunch(a) && a.launch < |w.launches| { assert LaunchOk(w, a.launch); }
  }

  /** A connection is always withdrawn before the next one is published. */
  lemma {:induction false} ConnectionsAlternate(actions: seq<Action>, n: nat)
    requires n <= |actions|
    ensures Alternates(After(actions, n).m.published)
  {
    if n == 0 {
      AfterAll(actions);
    } else {
      hide After, Step, Inv, Alternates, Withdraws;
      ConnectionsAlternate(actions, n - 1);
      StepAt(actions, n - 1);
      var w, a := After(actions, n - 1), actions[n - 1];
      PublishesOnce(w, a);
      if Step(w, a).m.published == w.m.published + [Some(w.generations)] {
        ConnectsWhenEmpty(w, a);
        AlternatesOn(w.m.published, Some(w.generations));
      }
      AlternatesOn(w.m.published, None);
    }
  }

  // ---------------------------------------------------------------------------
  // Ready and connected

  /** Step `i` is the last check of launch `l`: it published a connection, and the callback threw. */
  ghost predicate ThrewAt(actions: seq<Action>, i: nat, l: LaunchId) {
    && i < |actions| && actions[i] == CheckPasses(l, true)
    && After(actions, i + 1).m.published != After(actions, i).m.published
  }

  ghost predicate HandledAt(actions: seq<Action>, i: nat, l: LaunchId, j: nat) {
    i < j < |actions| && actions[j] == RunCatch(l)
  }

  /**
   Among the first `n` actions the callback threw on the last value published, a connection, and
   the failure that made of its launch has been handled.
   */
  ghost predicate ThrowHandled(actions: seq<Action>, n: nat)
    requires n <= |actions|
  {
    exists i: nat, l: nat, j: nat :: ThrewAt(actions, i, l) && HandledAt(actions, i, l, j) && j < n
                   && After(actions, i + 1).m.published == After(actions, n).m.published
  }

  /** The callback threw in launch `l` on the connection now stored. */
  ghost predicate ThrownOn(w: World, l: LaunchId, handled: bool) {
    && l < |w.launches| && w.m.connection.Some?
    && (w.poisoned || w.launches[l].phase.Failed?)
    && (handled ==> w.poisoned)
  }

  lemma ThrowingStep(w: World, l: LaunchId)
    requires Step(w, CheckPasses(l, true)).m.published != w.m.published
    ensures ThrownOn(Step(w, CheckPasses(l, true)), l, false)
  {
  }

  /** While nothing is published that stays so, until it is handled and after. */
  lemma QuietStep(w: World, a: Action, l: LaunchId, handled: bool)
    requires FieldsOk(w) && FieldsOk(Step(w, a)) && Step(w, a).m.published == w.m.published
    requires ThrownOn(w, l, handled)
    ensures ThrownOn(Step(w, a), l, handled || a == RunCatch(l))
  {
  }

  lemma {:induction false} ThrowStays(actions: seq<Action>, i: nat, l: LaunchId, n: nat)
    requires ThrewAt(actions, i, l) && i < n <= |actions|
    requires After(actions, i + 1).m.published == After(actions, n).m.published
    ensures ThrownOn(After(actions, n), l, HandledBy(actions, i, l, n))
  {
    hide Run, Step, FieldsOk, After, LaunchOk, CallOk, GenerationsOk, HandledBy, ThrownOn;
    StepAt(actions, n - 1);
    if n == i + 1 {
      ThrowingStep(After(actions, i), l);
      NotHandledYet(actions, i, l);
    } else {
      QuietBetween(actions, i + 1, n - 1, n);
      ThrowStays(actions, i, l, n - 1);
      QuietStep(After(actions, n - 1), actions[n - 1], l, HandledBy(actions, i, l, n - 1));
      HandledLater(actions, i, l, n);
    }
  }

  lemma QuietBetween(actions: seq<Action>, i: nat, m: nat, n: nat)
    requires i <= m <= n <= |actions| && After(actions, i).m.published == After(actions, n).m.published
    ensures After(actions, m).m.published == After(actions, n).m.published
  {
    hide After;
    PublishedGrows(actions, i, m);
    PublishedGrows(actions, m, n);
  }

  ghost predicate HandledBy(actions: seq<Action>, i: nat, l: LaunchId, n: nat) {
    exists j: nat :: HandledAt(actions, i, l, j) && j < n
  }

  lemma NotHandledYet(actions: seq<Action>, i: nat, l: LaunchId)
    ensures !HandledBy(actions, i, l, i + 1)
  {
  }

  lemma HandledLater(actions: seq<Action>, i: nat, l: LaunchId, n: nat)
    requires i + 1 < n <= |actions|
    ensures HandledBy(actions, i, l, n) <==> HandledBy(actions, i, l, n - 1) || actions[n - 1] == RunCatch(l)
  {
    if actions[n - 1] == RunCatch(l) { assert HandledAt(actions, i, l, n - 1); }
  }

  /** How a step can leave a failed launch beside a stored connection. */
  lemma FailedBeside(w: World, a: Action, l: LaunchId)
    requires Inv(w) && Step(w, a).m.connection.Some?
    requires l < |Step(w, a).launches| && Step(w, a).launches[l].phase.Failed?
    ensures || (a == CheckPasses(l, true) && Step(w, a).m.published != w.m.published)
            || (l < |w.launches| && w.launches[l].phase.Failed? && w.m.connection.Some?
                && Step(w, a).m.published == w.m.published)
  {
    hide CallOk, GenerationsOk;
    if l < |w.launches| { assert LaunchOk(w, l); }
    if OnLaunch(a) {
      if a.launch < |w.launches| { assert LaunchOk(w, a.launch); }
      hide Resumed, Starting, Restart, Stop, MarkUnavailable;
    } else {
      hide LaunchOk, Connect, Catch, Finally, SetPhase;
    }
  }

  lemma {:induction false} FailedOnThrow(actions: seq<Action>, n: nat, l: LaunchId) returns (i: nat)
    requires n <= |actions| && l < |After(actions, n).launches|
    requires After(actions, n).launches[l].phase.Failed? && After(actions, n).m.connection.Some?
    ensures ThrewAt(actions, i, l) && i < n
    ensures After(actions, i + 1).m.published == After(actions, n).m.published
  {
    if n == 0 {
      AfterAll(actions);
      assert false;
    } else {
      StepAt(actions, n - 1);
      hide Run, Step, After, Inv;
      FailedBeside(After(actions, n - 1), actions[n - 1], l);
      if After(actions, n).m.published != After(actions, n - 1).m.published {
        i := n - 1;
      } else {
        i := FailedOnThrow(actions, n - 1, l);
      }
    }
  }

  /** How a step can leave the world poisoned. */
  lemma PoisonedBy(w: World, a: Action)
    requires FieldsOk(w) && Step(w, a).poisoned
    ensures Step(w, a).m.published == w.m.published
    ensures w.poisoned || (a.RunCatch? && a.launch < |w.launches| && w.launches[a.launch].phase.Failed? && w.m.connection.Some?)
  {
  }

  lemma {:induction false} PoisonedMeans(actions: seq<Action>, n: nat)
    requires n <= |actions|
    ensures After(actions, n).poisoned <==> ThrowHandled(actions, n)
  {
    if ThrowHandled(actions, n) {
      var i: nat, l: nat, j: nat :| ThrewAt(actions, i, l) && HandledAt(actions, i, l, j) && j < n
                  && After(actions, i + 1).m.published == After(actions, n).m.published;
      ThrowStays(actions, i, l, n);
    } else if n == 0 {
      AfterAll(actions);
    } else {
      PoisonedMeans(actions, n - 1);
      if After(actions, n).poisoned { ThrowWasHandled(actions, n); }
    }
  }

  lemma ThrowWasHandled(actions: seq<Action>, n: nat)
    requires 0 < n <= |actions| && After(actions, n).poisoned
    requires After(actions, n - 1).poisoned ==> ThrowHandled(actions, n - 1)
    ensures ThrowHandled(actions, n)
  {
    var w, a := After(actions, n - 1), actions[n - 1];
    hide Run, Step, After, ThrewAt, LaunchOk, CallOk, GenerationsOk;
    StepAt(actions, n - 1);
    PoisonedBy(w, a);
    if !w.poisoned {
      var i := FailedOnThrow(actions, n - 1, a.launch);
      assert HandledAt(actions, i, a.launch, n - 1);
    }
  }

  /**
   Before a stop, the status is `ready` exactly when there is a connection, unless the callback
   threw on the connection last published and that failure has been handled since.
   */
  lemma ReadyExactlyWhenConnected(actions: seq<Action>)
    ensures var m := Run(START, actions).m;
            !m.stopped ==> ((m.status == READY <==> m.connection.Some?) <==> !ThrowHandled(actions, |actions|))
  {
    RunsAreInOrder(actions);
    PoisonedMeans(actions, |actions|);
    AfterAll(actions);
  }

  /** With a callback that never throws on a connection they always agree. */
  lemma ReadyWithSoundCallback(actions: seq<Action>)
    requires forall a | a in actions && a.CheckPasses? :: !a.callbackThrows
    ensures var m := Run(START, actions).m;
            !m.stopped ==> (m.status == READY <==> m.connection.Some?)
  {
    hide Run;
    ReadyExactlyWhenConnected(actions);
    if ThrowHandled(actions, |actions|) {
      var i: nat, l: nat, j: nat :| ThrewAt(actions, i, l) && HandledAt(actions, i, l, j) && j < |actions|
        && After(actions, i + 1).m.published == After(actions, |actions|).m.published;
      assert actions[i] in actions;
    }
  }

  /** A throwing callback does break that: the connection stays while the status says `unavailable`. */
  lemma ThrowingCallbackLeavesConnection()
    ensures var w := Run(START, [CallStart, CheckPasses(0, false), CheckPasses(0, false), CheckPasses(0, true), RunCatch(0)]);
            !w.m.stopped && w.m.status == UNAVAILABLE && w.m.connection == Some(0)
  {
    var w1 := Step(START, CallStart);
    var w2 := Step(w1, CheckPasses(0, false));
    var w3 := Step(w2, CheckPasses(0, false));
    var w4 := Step(w3, CheckPasses(0, true));
    assert w4.launches[0].phase.Failed? && w4.m.connection == Some(0);
    RunMore(w4, RunCatch(0), []);
    RunMore(w3, CheckPasses(0, true), [RunCatch(0)]);
    RunMore(w2, CheckPasses(0, false), [CheckPasses(0, true), RunCatch(0)]);
    RunMore(w1, CheckPasses(0, false), [CheckPasses(0, false), CheckPasses(0, true), RunCatch(0)]);
    RunMore(START, CallStart, [CheckPasses(0, false), CheckPasses(0, false), CheckPasses(0, true), RunCatch(0)]);
  }

  // ---------------------------------------------------------------------------
  // Status and error

  /** What a step means for the status the supervisor reports. */
  datatype Happening =
    | Nothing
    | LaunchBegins
    | Connects
    | FailureHandled(reason: string)
    | Restarts
    | Lost(error: string)
    | StopReturns

  /** A call that starts a launch now would begin a new one. */
  predicate Idle(w: World) {
    !w.m.stopped && w.m.connection == None && w.m.pending == None
  }

  ghost function What(w: World, a: Action): Happening {
    match a
    case CallStart => if Idle(w) then LaunchBegins else Nothing
    case CallRestart(_) => if !w.m.stopped then Restarts else Nothing
    case CallMarkUnavailable(error) => if !w.m.stopped && w.m.connection != None then Lost(error) else Nothing
    case CheckPasses(l, _) =>
      if l < |w.launches| && w.launches[l].phase.Checking? && w.launches[l].phase.left <= 1 && !w.m.stopped
      then Connects else Nothing
    case RunCatch(l) =>
      if l < |w.launches| && w.launches[l].phase.Failed? then FailureHandled(w.launches[l].phase.error) else Nothing
    case Resume(i) =>
      if i >= |w.calls| then Nothing
      else if w.calls[i].RestartWaits? && IsSettled(w, w.calls[i].awaited) && Idle(w) then LaunchBegins
      else if w.calls[i].StopWaits? && IsSettled(w, w.calls[i].awaited) then StopReturns
      else Nothing
    case _ => Nothing
  }

  function WordFor(h: Happening): Status
    requires h != Nothing
  {
    match h
    case LaunchBegins => STARTING
    case Connects => READY
    case FailureHandled(_) => UNAVAILABLE
    case Restarts => RESTARTING
    case Lost(_) => UNAVAILABLE
    case StopReturns => STOPPED
  }

  predicate SetsError(h: Happening) {
    h.Connects? || h.FailureHandled? || h.Lost?
  }

  function ErrorFor(h: Happening): Option<string>
    requires SetsError(h)
  {
    match h
    case Connects => None
    case FailureHandled(reason) => Some(reason)
    case Lost(error) => Some(error)
  }

  lemma StatusStep(w: World, a: Action)
    ensures var h := What(w, a);
            && Step(w, a).m.status == (if h == Nothing then w.m.status else WordFor(h))
            && Step(w, a).m.lastError == (if SetsError(h) then ErrorFor(h) else w.m.lastError)
  {
  }

  ghost function WhatAt(actions: seq<Action>, i: nat): Happening
    requires i < |actions|
  {
    What(After(actions, i), actions[i])
  }

  /** Nothing happened to the status from step `i` on. */
  ghost predicate QuietSince(actions: seq<Action>, i: nat, n: nat)
    requires n <= |actions|
  {
    forall k: nat | i <= k < n :: WhatAt(actions, k) == Nothing
  }

  ghost predicate NoErrorSince(actions: seq<Action>, i: nat, n: nat)
    requires n <= |actions|
  {
    forall k: nat | i <= k < n :: !SetsError(WhatAt(actions, k))
  }

  lemma {:induction false} QuietKeepsStatus(actions: seq<Action>, i: nat, n: nat)
    requires i <= n <= |actions|
    ensures QuietSince(actions, i, n) ==> After(actions, n).m.status == After(actions, i).m.status
    ensures NoErrorSince(actions, i, n) ==> After(actions, n).m.lastError == After(actions, i).m.lastError
  {
    if i < n {
      QuietKeepsStatus(actions, i, n - 1);
      StepAt(actions, n - 1);
      StatusStep(After(actions, n - 1), actions[n - 1]);
      hide After, Step, What, Inv;
      assert WhatAt(actions, n - 1) == What(After(actions, n - 1), actions[n - 1]);
    }
  }

  /**
   The status is the word for the last thing that happened to it, and `idle` before anything did:
   `starting` after a launch began, `ready` after one connected, `unavailable` after a failure was
   handled or the helper lost, `restarting` after a restart, `stopped` after the stop returned.
   */
  lemma StatusFromHistory(actions: seq<Action>)
    ensures QuietSince(actions, 0, |actions|) ==> Run(START, actions).m.status == IDLE
    ensures forall i: nat | i < |actions| && WhatAt(actions, i) != Nothing && QuietSince(actions, i + 1, |actions|) ::
      Run(START, actions).m.status == WordFor(WhatAt(actions, i))
  {
    AfterAll(actions);
    QuietKeepsStatus(actions, 0, |actions|);
    hide After, QuietSince, What, Run;
    forall i: nat | i < |actions| && WhatAt(actions, i) != Nothing && QuietSince(actions, i + 1, |actions|)
      ensures Run(START, actions).m.status == WordFor(WhatAt(actions, i))
    {
      hide Step, Inv;
      StepAt(actions, i);
      StatusStep(After(actions, i), actions[i]);
      QuietKeepsStatus(actions, i + 1, |actions|);
    }
  }

  /**
   The error is the reason of the last failure handled, or of the last loss of a helper in use,
   unless a launch has connected since; without any there is none.
   */
  lemma ErrorFromHistory(actions: seq<Action>)
    ensures NoErrorSince(actions, 0, |actions|) ==> Run(START, actions).m.lastError == None
    ensures forall i: nat | i < |actions| && SetsError(WhatAt(actions, i)) && NoErrorSince(actions, i + 1, |actions|) ::
      Run(START, actions).m.lastError == ErrorFor(WhatAt(actions, i))
  {
    AfterAll(actions);
    QuietKeepsStatus(actions, 0, |actions|);
    hide After, NoErrorSince, What, Run;
    forall i: nat | i < |actions| && SetsError(WhatAt(actions, i)) && NoErrorSince(actions, i + 1, |actions|)
      ensures Run(START, actions).m.lastError == ErrorFor(WhatAt(actions, i))
    {
      hide Step, Inv;
      StepAt(actions, i);
      StatusStep(After(actions, i), actions[i]);
      QuietKeepsStatus(actions, i + 1, |actions|);
    }
  }

  /** Step `i` made launch `l` fail, for this reason. */
  ghost predicate FailsAt(actions: seq<Action>, i: nat, l: LaunchId, reason: string) {
    && i < |actions|
    && var w := After(actions, i);
       && l < |w.launches| && w.launches[l].phase.Checking?
       && (actions[i] == CheckFails(l, reason)
           || (actions[i].CheckPasses? && actions[i].launch == l && w.launches[l].phase.left <= 1
               && if w.m.stopped then reason == "Cua helper supervisor stopped during startup"
                  else actions[i].callbackThrows && reason == CALLBACK_FAILED))
  }

  lemma FailingStep(w: World, a: Action, l: LaunchId)
    requires l < |Step(w, a).launches| && Step(w, a).launches[l].phase.Failed?
    requires !(l < |w.launches| && w.launches[l].phase == Step(w, a).launches[l].phase)
    ensures var reason := Step(w, a).launches[l].phase.error;
            && l < |w.launches| && w.launches[l].phase.Checking?
            && (a == CheckFails(l, reason)
                || (a.CheckPasses? && a.launch == l && w.launches[l].phase.left <= 1
                    && if w.m.stopped then reason == "Cua helper supervisor stopped during startup"
                       else a.callbackThrows && reason == CALLBACK_FAILED))
  {
  }

  /** The reason with which a launch is waiting to be handled is that of the check that failed. */
  lemma {:induction false} ReasonFromHistory(actions: seq<Action>, n: nat, l: LaunchId) returns (i: nat)
    requires n <= |actions| && l < |After(actions, n).launches| && After(actions, n).launches[l].phase.Failed?
    ensures i < n && FailsAt(actions, i, l, After(actions, n).launches[l].phase.error)
  {
    if n == 0 {
      AfterAll(actions);
      assert false;
    } else {
      StepAt(actions, n - 1);
      var w, a := After(actions, n - 1), actions[n - 1];
      hide Run, Step, Inv, After;
      if l < |w.launches| && w.launches[l].phase == After(actions, n).launches[l].phase {
        i := ReasonFromHistory(actions, n - 1, l);
      } else {
        FailingStep(w, a, l);
        i := n - 1;
      }
    }
  }

  /** Once stopped, start() and restart() return nothing, at once or when their wait is over. */
  lemma CallsAfterStop(w: World, throws: bool)
    requires Inv(w) && w.m.stopped
    ensures Step(w, CallStart).calls == w.calls + [StartReturned(None)] && Step(w, CallStart).m == w.m
    ensures Step(w, CallRestart(throws)).calls == w.calls + [RestartReturned(None, |w.m.published|)]
    ensures Step(w, CallRestart(throws)).m == w.m
    ensures forall i: nat | i < |w.calls| && w.calls[i].RestartWaits? && IsSettled(w, w.calls[i].awaited) ::
      Step(w, Resume(i)).calls == w.calls[i := RestartReturned(None, w.calls[i].begun)]
  {
  }

  // ---------------------------------------------------------------------------
  // How a stop ends

  /** The stop() registered as call `i` is the one that stopped the supervisor. */
  ghost predicate StopOf(w: World, i: nat, throws: bool) {
    && w.m.stopped && i < |w.calls|
    && (if throws then w.calls[i] == StopRejected && !w.stopResolved
        else (w.calls[i].StopWaits? && !w.stopResolved) || (w.calls[i] == StopReturned && w.stopResolved))
    && forall k: nat | k < |w.calls| && k != i :: !w.calls[k].StopWaits?
  }

  lemma StopBegins(w: World, throws: bool)
    requires Inv(w) && !w.m.stopped
    ensures StopOf(Step(w, CallStop(throws)), |w.calls|, throws)
  {
    forall k: nat | k < |w.calls|
      ensures !w.calls[k].StopWaits?
    {
      assert CallOk(w, w.calls[k]);
    }
  }

  lemma StepKeepsStop(w: World, a: Action, i: nat, throws: bool)
    requires StopOf(w, i, throws)
    ensures StopOf(Step(w, a), i, throws)
  {
    StoppedStep(w, a);
    if OnLaunch(a) {
      hide Resumed, Starting;
    } else {
      hide Connect, Catch, Finally, SetPhase;
    }
  }

  lemma {:induction false} RunKeepsStop(w: World, more: seq<Action>, i: nat, throws: bool)
    requires Inv(w) && StopOf(w, i, throws)
    ensures Inv(Run(w, more)) && StopOf(Run(w, more), i, throws)
    decreases |more|
  {
    hide Inv, Step, StopOf;
    if more != [] {
      StepKeepsInv(w, more[0]);
      StepKeepsStop(w, more[0], i, throws);
      RunKeepsStop(Step(w, more[0]), more[1..], i, throws);
    }
  }

  /**
   The stop() that stops the supervisor is rejected exactly when the callback throws on it; the
   status is `stopped` from the moment it returns, and never if it is rejected.
   */
  lemma StopEnds(actions: seq<Action>, throws: bool, more: seq<Action>)
    requires !Run(START, actions).m.stopped
    ensures var i := |Run(START, actions).calls|;
            var end := Run(Step(Run(START, actions), CallStop(throws)), more);
            && i < |end.calls|
            && (end.calls[i] == StopRejected <==> throws)
            && (end.m.status == STOPPED <==> end.calls[i] == StopReturned)
  {
    var w := Run(START, actions);
    RunsAreInOrder(actions);
    hide Run, Step;
    StopBegins(w, throws);
    StepKeepsInv(w, CallStop(throws));
    RunKeepsStop(Step(w, CallStop(throws)), more, |w.calls|, throws);
  }

  // ---------------------------------------------------------------------------
  // What start() returns

  /** Call `i` is a start() that joined launch `l`, or what has become of it. */
  ghost predicate StartOf(w: World, i: nat, l: LaunchId) {
    && i < |w.calls| && l < |w.launches|
    && (w.calls[i] == JoinedStart(l)
        || (w.calls[i].StartReturned? && w.launches[l].phase == Settled(w.calls[i].result)))
  }

  lemma StepKeepsStart(w: World, a: Action, i: nat, l: LaunchId)
    requires StartOf(w, i, l)
    ensures StartOf(Step(w, a), i, l)
  {
    hide Connect, Catch, Finally, MarkUnavailable, Restart, Stop;
  }

  lemma {:induction false} RunKeepsStart(w: World, more: seq<Action>, i: nat, l: LaunchId)
    requires StartOf(w, i, l)
    ensures StartOf(Run(w, more), i, l)
    decreases |more|
  {
    hide Step, StartOf;
    if more != [] {
      StepKeepsStart(w, more[0], i, l);
      RunKeepsStart(Step(w, more[0]), more[1..], i, l);
    }
  }

  lemma {:induction false} ReturnedStays(w: World, more: seq<Action>, i: nat)
    requires i < |w.calls| && w.calls[i].StartReturned?
    ensures i < |Run(w, more).calls| && Run(w, more).calls[i] == w.calls[i]
    decreases |more|
  {
    if more != [] {
      if more[0] != Resume(i) { StepLeavesCall(w, more[0], i); }
      hide Step;
      assert Step(w, more[0]).calls[i] == w.calls[i] by { ReturnedStep(w, more[0], i); }
      ReturnedStays(Step(w, more[0]), more[1..], i);
    }
  }

  lemma ReturnedStep(w: World, a: Action, i: nat)
    requires i < |w.calls| && w.calls[i].StartReturned?
    ensures i < |Step(w, a).calls| && Step(w, a).calls[i] == w.calls[i]
  {
    if a != Resume(i) { StepLeavesCall(w, a, i); }
  }

  /** The launch in flight has connected, and only its clean-up is outstanding. */
  predicate HasLaunched(w: World) {
    w.m.pending.Some? && w.m.pending.value < |w.launches| && w.launches[w.m.pending.value].phase.Launched?
  }

  lemma StartAnswers(w: World)
    requires FieldsOk(w)
    ensures var w', i := Step(w, CallStart), |w.calls|;
            && i < |w'.calls| && w'.m.published == w.m.published
            && (w.m.stopped ==> w'.calls[i] == StartReturned(None))
            && (w.m.connection.Some? ==> w'.calls[i] == StartReturned(w.m.connection))
            && (!w.m.stopped && w.m.connection.None? ==>
                  && w'.m.pending.Some? && StartOf(w', i, w'.m.pending.value)
                  && (HasLaunched(w') <==> HasLaunched(w))
                  && (HasLaunched(w) ==> w'.launches[w'.m.pending.value] == w.launches[w'.m.pending.value]))
  {
  }

  /** What was published before is not published since. */
  lemma OldIsNotNew(before: seq<Option<Generation>>, published: seq<Option<Generation>>, k: nat, g: Generation)
    requires before <= published && Distinct(published) && k < |before| && before[k] == Some(g)
    ensures !PublishedSince(published, |before|, g)
  {
    forall i | |before| <= i < |published|
      ensures published[i] != Some(g)
    {
      assert published[k] == before[k];
    }
  }

  /** A launch that had connected keeps its connection, which is not a new one. */
  lemma LaunchedIsOld(w: World, more: seq<Action>, l: LaunchId, g: Generation)
    requires Inv(w) && Inv(Run(w, more)) && l < |w.launches| && w.launches[l].phase.Launched?
    requires l < |Run(w, more).launches| && Run(w, more).launches[l].phase == Settled(Some(g))
    ensures !PublishedSince(Run(w, more).m.published, |w.m.published|, g)
  {
    assert LaunchOk(w, l);
    var h := w.launches[l].phase.generation;
    var k :| w.launches[l].since <= k < |w.m.published| && w.m.published[k] == Some(h);
    ConnectedForGood(w, more, l, h, k);
    RunPublishes(w, more);
    hide Run, CallOk, LaunchOk;
    OldIsNotNew(w.m.published, Run(w, more).m.published, k, g);
  }

  lemma UnlaunchedConnectsSince(w: World, l: LaunchId)
    requires Inv(w) && w.m.pending == Some(l) && l < |w.launches| && !w.launches[l].phase.Launched?
    ensures ConnectsSince(w, l, |w.m.published|)
  {
    assert LaunchOk(w, l);
  }

  /** What a start() returned that had joined, seen from the world it joined in. */
  lemma JoinedStartReturns(w: World, more: seq<Action>, i: nat, l: LaunchId, g: Generation)
    requires Inv(w) && StartOf(w, i, l) && w.m.pending == Some(l)
    requires i < |Run(w, more).calls| && Run(w, more).calls[i] == StartReturned(Some(g))
    ensures PublishedSince(Run(w, more).m.published, |w.m.published|, g) <==> !HasLaunched(w)
  {
    RunKeepsStart(w, more, i, l);
    RunKeepsInv(w, more);
    if HasLaunched(w) {
      LaunchedIsOld(w, more, l, g);
    } else {
      UnlaunchedConnectsSince(w, l);
      RunConnectsSince(w, more, l, |w.m.published|);
    }
  }

  /**
   A connection start() returns was published since that start() was called, whether it began a
   launch or joined one, exactly unless a connection was stored when it was called or the launch
   it joined had already connected.
   */
  lemma StartReturnsNewConnection(actions: seq<Action>, more: seq<Action>)
    ensures var w := Run(START, actions);
            var end := Run(Step(w, CallStart), more);
            && |w.calls| < |end.calls|
            && var c := end.calls[|w.calls|];
               && (c.JoinedStart? || c.StartReturned?)
               && (c.StartReturned? && c.result.Some? ==>
                     (PublishedSince(end.m.published, |w.m.published|, c.result.value)
                      <==> w.m.connection.None? && !HasLaunched(w)))
  {
    var w, i := Run(START, actions), |Run(START, actions).calls|;
    RunsAreInOrder(actions);
    StepKeepsInv(w, CallStart);
    StartAnswers(w);
    var w' := Step(w, CallStart);
    RunKeepsInv(w', more);
    RunPublishes(w', more);
    hide Step, Run, LaunchOk, CallOk, HasLaunched;
    if w.m.stopped || w.m.connection.Some? {
      ReturnedStays(w', more, i);
      if w.m.connection.Some? {
        OldIsNotNew(w.m.published, Run(w', more).m.published, |w.m.published| - 1, w.m.connection.value);
      }
    } else {
      var l := w'.m.pending.value;
      RunKeepsStart(w', more, i, l);
      var c := Run(w', more).calls[i];
      if c.StartReturned? && c.result.Some? { JoinedStartReturns(w', more, i, l, c.result.value); }
    }
  }

  // The helper is lost between a launch's connecting and its clean-up, and start() is called then.
  const TO_LOSS := [CallStart, CheckPasses(0, false), CheckPasses(0, false), CheckPasses(0, false), CallMarkUnavailable("")]

  /** Such a start() returns the connection that was withdrawn before it was called. */
  lemma StartCanReturnWithdrawn()
    ensures var w := Run(START, TO_LOSS);
            var end := Run(Step(w, CallStart), [RunFinally(0), Resume(1)]);
            && w.m.connection.None? && HasLaunched(w) && |w.calls| == 1
            && |end.calls| == 2 && end.calls[1] == StartReturned(Some(0)) && end.m.connection.None?
  {
    LossReached();
    hide TO_LOSS;
    var w := Run(START, TO_LOSS);
    var w1 := Step(w, CallStart);
    var w2 := Step(w1, RunFinally(0));
    RunMore(w2, Resume(1), []);
    RunMore(w1, RunFinally(0), [Resume(1)]);
  }

  lemma LossReached()
    ensures var w := Run(START, TO_LOSS);
            && !w.m.stopped && w.m.connection.None? && w.m.pending == Some(0) && |w.calls| == 1
            && |w.launches| == 1 && w.launches[0].phase == Launched(0)
  {
    var w1 := Step(START, CallStart);
    var w2 := Step(w1, CheckPasses(0, false));
    var w3 := Step(w2, CheckPasses(0, false));
    var w4 := Step(w3, CheckPasses(0, false));
    assert w4.launches[0].phase == Launched(0) && w4.m.connection == Some(0);
    RunMore(w4, CallMarkUnavailable(""), []);
    RunMore(w3, CheckPasses(0, false), [CallMarkUnavailable("")]);
    RunMore(w2, CheckPasses(0, false), [CheckPasses(0, false), CallMarkUnavailable("")]);
    RunMore(w1, CheckPasses(0, false), [CheckPasses(0, false), CheckPasses(0, false), CallMarkUnavailable("")]);
    RunMore(START, CallStart, [CheckPasses(0, false), CheckPasses(0, false), CheckPasses(0, false), CallMarkUnavailable("")]);
  }
}
