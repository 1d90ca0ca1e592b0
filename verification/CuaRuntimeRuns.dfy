/**
 Every interleaving of the supervisor's steps. The environment picks which step comes next,
 how many calls are in flight, whether each awaited check of a launch passes, and whether
 the connection callback throws, whichever method calls it.
 */
module CuaRuntimeRuns {
  import opened Results
  import opened CuaRuntime

  /** A launch awaits three checks, then settles through its catch and finally handlers. */
  datatype Phase =
    | Checking(left: nat)
    | Launched(generation: Generation)
    | Failed(error: string)
    | Caught
    | Settled(result: Option<Generation>)

  // `since` is how much had been published when the launch began.
  datatype Launch = Launch(since: nat, phase: Phase)

  /** Calls in flight. `begun` is how much had been published when the call began. */
  datatype Call =
    | JoinedStart(launch: LaunchId)
    | RestartWaits(awaited: Option<LaunchId>, begun: nat)
    | RestartJoined(launch: LaunchId, begun: nat)
    | StopWaits(awaited: Option<LaunchId>)
    | StartReturned(result: Option<Generation>)
    | RestartReturned(result: Option<Generation>, begun: nat)
    | RestartRejected(begun: nat)
    | StopReturned
    | StopRejected

  datatype World = World(
    m: Manager,
    launches: seq<Launch>,          // numbered by position
    generations: nat,               // identifiers generated so far
    calls: seq<Call>,
    stopResolved: bool,             // the stop() that did the stopping has resolved
    poisoned: bool)                 // the callback threw on the connection now stored, and the failure was handled

  const START := World(INITIAL, [], 0, [], false, false)

  datatype Action =
    | CallStart
    | CallRestart(callbackThrows: bool)
    | CallMarkUnavailable(error: string)     // whether the callback throws only matters to its caller
    | CallStop(callbackThrows: bool)
    | CheckPasses(launch: LaunchId, callbackThrows: bool)
    | CheckFails(launch: LaunchId, reason: string)
    | RunCatch(launch: LaunchId)
    | RunFinally(launch: LaunchId)
    | Resume(call: nat)

  const CHECKS := 3
  const STOPPED_DURING_STARTUP := "Cua helper supervisor stopped during startup"
  const CALLBACK_FAILED := "what the callback threw"

  function SetPhase(w: World, l: LaunchId, phase: Phase): World
    requires l < |w.launches|
  {
    w.(launches := w.launches[l := w.launches[l].(phase := phase)])
  }

  /** Runs start() and registers the launch it begins, if any. */
  function Starting(w: World): (World, Answer) {
    var (m, answer) := Start(w.m, |w.launches|);
    var begun := answer == Join(|w.launches|);
    (w.(m := m, launches := w.launches + if begun then [Launch(|w.m.published|, Checking(CHECKS))] else []), answer)
  }

  function IsSettled(w: World, awaited: Option<LaunchId>): bool {
    awaited.None? || (awaited.value < |w.launches| && w.launches[awaited.value].phase.Settled?)
  }

  function ResultOf(w: World, l: LaunchId): Option<Generation>
    requires IsSettled(w, Some(l))
  {
    w.launches[l].phase.result
  }

  /** A call whose promise has settled continues. */
  function Resumed(w: World, i: nat): World
    requires i < |w.calls|
  {
    match w.calls[i]
    case JoinedStart(l) =>
      if IsSettled(w, Some(l)) then w.(calls := w.calls[i := StartReturned(ResultOf(w, l))]) else w
    case RestartWaits(awaited, begun) =>
      if !IsSettled(w, awaited) then w
      else if w.m.stopped then w.(calls := w.calls[i := RestartReturned(None, begun)])
      else
        var (w', answer) := Starting(w);
        w'.(calls := w'.calls[i := if answer.Now? then RestartReturned(answer.result, begun)
                                   else RestartJoined(answer.launch, begun)])
    case RestartJoined(l, begun) =>
      if IsSettled(w, Some(l)) then w.(calls := w.calls[i := RestartReturned(ResultOf(w, l), begun)]) else w
    case StopWaits(awaited) =>
      if IsSettled(w, awaited)
      then w.(m := Stopped(w.m), calls := w.calls[i := StopReturned], stopResolved := true)
      else w
    case _ => w
  }

  /** One step; an action that is not possible changes nothing. */
  function Step(w: World, a: Action): World {
    match a
    case CallStart =>
      var (w', answer) := Starting(w);
      w'.(calls := w'.calls + [if answer.Now? then StartReturned(answer.result) else JoinedStart(answer.launch)])
    case CallRestart(throws) =>
      var (m, end) := Restart(w.m, throws);
      var begun := |w.m.published|;
      var call := match end
        case Returns => RestartReturned(None, begun)
        case Continues => RestartWaits(m.pending, begun)
        case Rejects => RestartRejected(begun);
      w.(m := m, poisoned := w.poisoned && end.Returns?, calls := w.calls + [call])
    case CallMarkUnavailable(error) =>
      w.(m := MarkUnavailable(w.m, error), poisoned := w.poisoned && (w.m.stopped || w.m.connection.None?))
    case CallStop(throws) =>
      var (m, end) := Stop(w.m, throws);
      var call := match end
        case Returns => StopReturned
        case Continues => StopWaits(m.pending)
        case Rejects => StopRejected;
      w.(m := m, poisoned := w.poisoned && end.Returns?, calls := w.calls + [call])
    case CheckPasses(l, throws) =>
      if l >= |w.launches| || !w.launches[l].phase.Checking? then w
      else if w.launches[l].phase.left > 1 then SetPhase(w, l, Checking(w.launches[l].phase.left - 1))
      else
        var (m, end) := Connect(w.m, w.generations, throws);
        var phase := match end
          case Returns => Failed(STOPPED_DURING_STARTUP)
          case Continues => Launched(w.generations)
          case Rejects => Failed(CALLBACK_FAILED);
        if end.Returns? then SetPhase(w, l, phase)
        else SetPhase(w, l, phase).(m := m, generations := w.generations + 1, poisoned := false)
    case CheckFails(l, reason) =>
      if l >= |w.launches| || !w.launches[l].phase.Checking? then w else SetPhase(w, l, Failed(reason))
    case RunCatch(l) =>
      if l >= |w.launches| || !w.launches[l].phase.Failed? then w
      else SetPhase(w, l, Caught).(m := Catch(w.m, w.launches[l].phase.error), poisoned := w.m.connection.Some?)
    case RunFinally(l) =>
      if l < |w.launches| && w.launches[l].phase.Launched?
      then SetPhase(w, l, Settled(Some(w.launches[l].phase.generation))).(m := Finally(w.m))
      else if l < |w.launches| && w.launches[l].phase.Caught?
      then SetPhase(w, l, Settled(None)).(m := Finally(w.m))
      else w
    case Resume(i) =>
      if i < |w.calls| then Resumed(w, i) else w
  }

  function Run(w: World, actions: seq<Action>): World
    decreases |actions|
  {
    if actions == [] then w else Run(Step(w, actions[0]), actions[1..])
  }

  // ---------------------------------------------------------------------------
  // Invariant

  ghost predicate PublishedSince(published: seq<Option<Generation>>, from: nat, g: Generation) {
    exists i :: from <= i < |published| && published[i] == Some(g)
  }

  ghost predicate LaunchOk(w: World, l: LaunchId)
    requires l < |w.launches|
  {
    var launch := w.launches[l];
    && launch.since <= |w.m.published|
    && (!launch.phase.Settled? <==> w.m.pending == Some(l))
    && (launch.phase.Checking? ==> w.m.connection.None?)
    && (launch.phase.Launched? ==> PublishedSince(w.m.published, launch.since, launch.phase.generation))
    && (launch.phase.Settled? && launch.phase.result.Some? ==>
          PublishedSince(w.m.published, launch.since, launch.phase.result.value))
  }

  /** A restart withdrew the connection when it began, and joins only launches that began after it. */
  ghost predicate Withdrew(w: World, begun: nat) {
    begun < |w.m.published| && w.m.published[begun] == None
  }

  ghost predicate CallOk(w: World, c: Call) {
    match c
    case JoinedStart(l) => l < |w.launches|
    case RestartWaits(awaited, begun) =>
      && Withdrew(w, begun)
      && (w.m.pending.Some? ==>
            && w.m.pending.value < |w.launches|
            && (awaited == w.m.pending || begun < w.launches[w.m.pending.value].since))
    case RestartJoined(l, begun) => Withdrew(w, begun) && l < |w.launches| && begun < w.launches[l].since
    case StopWaits(awaited) => w.m.stopped && (w.m.pending.Some? ==> awaited == w.m.pending)
    case RestartReturned(result, begun) => result.Some? ==> PublishedSince(w.m.published, begun, result.value)
    case _ => true
  }

  ghost predicate FieldsOk(w: World) {
    && LastPublished(w.m.published) == w.m.connection
    && (w.m.pending.Some? ==> w.m.pending.value < |w.launches|)
    && (w.m.stopped ==> w.m.connection.None?)
    && (w.poisoned ==> w.m.connection.Some?)
    && (!w.m.stopped ==> ((w.m.status == READY <==> w.m.connection.Some?) <==> !w.poisoned))
    && (w.m.status == STOPPED <==> w.stopResolved)
    && (w.stopResolved ==> w.m.stopped && w.m.pending.None?)
  }

  ghost predicate GenerationsOk(w: World) {
    && Distinct(w.m.published)
    && forall i | 0 <= i < |w.m.published| && w.m.published[i].Some? :: w.m.published[i].value < w.generations
  }

  ghost predicate Inv(w: World) {
    && FieldsOk(w)
    && GenerationsOk(w)
    && (forall l: nat | l < |w.launches| :: LaunchOk(w, l))
    && (forall i | 0 <= i < |w.calls| :: CallOk(w, w.calls[i]))
  }

  lemma SinceGrows(published: seq<Option<Generation>>, from: nat, g: Generation, more: seq<Option<Generation>>)
    requires PublishedSince(published, from, g)
    ensures PublishedSince(published + more, from, g)
  {
    var i :| from <= i < |published| && published[i] == Some(g);
    assert (published + more)[i] == Some(g);
  }

  /** The launch an action works on, the pending one, and the call it continues are in order. */
  ghost predicate InvolvedOk(w: World, a: Action) {
    && ((a.CheckPasses? || a.CheckFails? || a.RunCatch? || a.RunFinally?) && a.launch < |w.launches|
        ==> LaunchOk(w, a.launch))
    && (a.Resume? && a.call < |w.calls| ==> CallOk(w, w.calls[a.call]))
    && (w.m.pending.Some? && w.m.pending.value < |w.launches| ==> LaunchOk(w, w.m.pending.value))
  }

  predicate OnLaunch(a: Action) {
    a.CheckPasses? || a.CheckFails? || a.RunCatch? || a.RunFinally?
  }

  lemma CallKeepsFields(w: World, a: Action)
    requires FieldsOk(w) && !OnLaunch(a) && !a.Resume?
    ensures FieldsOk(Step(w, a))
  {
  }

  lemma LaunchKeepsFields(w: World, a: Action)
    requires FieldsOk(w) && OnLaunch(a) && InvolvedOk(w, a)
    ensures FieldsOk(Step(w, a))
  {
  }

  lemma ResumeKeepsFields(w: World, a: Action)
    requires FieldsOk(w) && a.Resume? && InvolvedOk(w, a)
    ensures FieldsOk(Step(w, a))
  {
  }

  /** Each step publishes at most one value, and only a launch publishes a new identifier. */
  lemma StepPublishes(w: World, a: Action)
    ensures w.m.published <= Step(w, a).m.published
    ensures var more := Step(w, a).m.published[|w.m.published|..];
            more == [] || more == [None] || (more == [Some(w.generations)] && Step(w, a).generations == w.generations + 1)
    ensures w.generations <= Step(w, a).generations
  {
  }

  lemma StepKeepsGenerations(w: World, a: Action)
    requires GenerationsOk(w)
    ensures GenerationsOk(Step(w, a))
  {
    hide Step;
    StepPublishes(w, a);
    var more := Step(w, a).m.published[|w.m.published|..];
    assert Step(w, a).m.published == w.m.published + more;
  }

  /** A step leaves a launch alone unless it is a step of that launch. */
  lemma StepLeavesLaunch(w: World, a: Action, l: LaunchId)
    requires FieldsOk(w) && InvolvedOk(w, a)
    requires l < |w.launches| && LaunchOk(w, l) && !(OnLaunch(a) && a.launch == l)
    ensures var w' := Step(w, a);
            && l < |w'.launches| && w'.launches[l] == w.launches[l]
            && (w.launches[l].phase.Checking? ==> w'.m.connection.None?)
            && (w.m.pending == Some(l) <==> w'.m.pending == Some(l))
  {
  }

  lemma LaunchKept(w: World, w': World, l: LaunchId)
    requires l < |w.launches| && l < |w'.launches| && LaunchOk(w, l)
    requires w.m.published <= w'.m.published && w'.launches[l] == w.launches[l]
    requires w.launches[l].phase.Checking? ==> w'.m.connection.None?
    requires w.m.pending == Some(l) <==> w'.m.pending == Some(l)
    ensures LaunchOk(w', l)
  {
    var more := w'.m.published[|w.m.published|..];
    assert w'.m.published == w.m.published + more;
    var launch := w.launches[l];
    if launch.phase.Launched? {
      SinceGrows(w.m.published, launch.since, launch.phase.generation, more);
    } else if launch.phase.Settled? && launch.phase.result.Some? {
      SinceGrows(w.m.published, launch.since, launch.phase.result.value, more);
    }
  }

  lemma StepOfLaunch(w: World, a: Action)
    requires FieldsOk(w) && OnLaunch(a) && a.launch < |w.launches| && LaunchOk(w, a.launch)
    ensures LaunchOk(Step(w, a), a.launch)
  {
    var w' := Step(w, a);
    if w'.m.published != w.m.published {
      assert w'.m.published[|w.m.published|] == Some(w.generations);
    }
  }

  lemma NewLaunch(w: World, a: Action, l: LaunchId)
    requires FieldsOk(w) && |w.launches| <= l < |Step(w, a).launches|
    ensures LaunchOk(Step(w, a), l)
  {
  }

  lemma StepKeepsLaunches(w: World, a: Action)
    requires Inv(w)
    ensures forall l: nat | l < |Step(w, a).launches| :: LaunchOk(Step(w, a), l)
  {
    hide Step, LaunchOk, CallOk, GenerationsOk;
    forall l: nat | l < |Step(w, a).launches|
      ensures LaunchOk(Step(w, a), l)
    {
      if l >= |w.launches| {
        NewLaunch(w, a, l);
      } else if OnLaunch(a) && a.launch == l {
        StepOfLaunch(w, a);
      } else {
        StepLeavesLaunch(w, a, l);
        StepPublishes(w, a);
        LaunchKept(w, Step(w, a), l);
      }
    }
  }

  // ---------------------------------------------------------------------------
  // Calls

  /** A call that a step does not continue stays in order. */
  lemma CallKept(w: World, a: Action, c: Call)
    requires FieldsOk(w) && InvolvedOk(w, a) && CallOk(w, c)
    ensures CallOk(Step(w, a), c)
  {
    var w' := Step(w, a);
    StepPublishes(w, a);
    PendingSteps(w, a);
    var more := w'.m.published[|w.m.published|..];
    assert w'.m.published == w.m.published + more;
    hide Step;
    if c.RestartReturned? && c.result.Some? {
      SinceGrows(w.m.published, c.begun, c.result.value, more);
    }
  }

  /** What a step can do to the pending launch, to stopping, and to when launches began. */
  lemma PendingSteps(w: World, a: Action)
    requires FieldsOk(w) && InvolvedOk(w, a)
    ensures var w' := Step(w, a);
            && |w.launches| <= |w'.launches|
            && (forall l: nat | l < |w.launches| :: w'.launches[l].since == w.launches[l].since)
            && (w.m.stopped ==> w'.m.stopped)
            && (w'.m.pending.Some? && w'.m.pending != w.m.pending ==>
                  && !w.m.stopped && w'.m.pending.value == |w.launches| < |w'.launches|
                  && w'.launches[|w.launches|].since == |w.m.published|)
  {
  }

  lemma StepLeavesCall(w: World, a: Action, i: nat)
    requires i < |w.calls| && a != Resume(i)
    ensures i < |Step(w, a).calls| && Step(w, a).calls[i] == w.calls[i]
  {
  }

  lemma NewCall(w: World, a: Action, i: nat)
    requires FieldsOk(w) && InvolvedOk(w, a) && |w.calls| <= i < |Step(w, a).calls|
    ensures CallOk(Step(w, a), Step(w, a).calls[i])
  {
    OnlyCallsAddCalls(w, a);
    hide Resumed, LaunchOk, Connect, Catch;
  }

  lemma OnlyCallsAddCalls(w: World, a: Action)
    ensures |Step(w, a).calls| > |w.calls| ==> a.CallStart? || a.CallRestart? || a.CallStop?
  {
  }

  /** The connection a restart finds, or the launch it joins, came after the restart began. */
  lemma RestartContinues(w: World, i: nat)
    requires FieldsOk(w) && i < |w.calls| && w.calls[i].RestartWaits?
    requires CallOk(w, w.calls[i])
    requires w.m.pending.Some? ==> LaunchOk(w, w.m.pending.value)
    ensures CallOk(Resumed(w, i), Resumed(w, i).calls[i])
  {
    if w.m.connection.Some? {
      var last := |w.m.published| - 1;
      assert w.m.published[last] == w.m.connection;
    }
  }

  lemma CallContinues(w: World, i: nat)
    requires FieldsOk(w) && i < |w.calls| && CallOk(w, w.calls[i])
    requires InvolvedOk(w, Resume(i))
    requires w.calls[i].RestartJoined? ==> LaunchOk(w, w.calls[i].launch)
    ensures i < |Resumed(w, i).calls| && CallOk(Resumed(w, i), Resumed(w, i).calls[i])
  {
    if w.calls[i].RestartWaits? {
      RestartContinues(w, i);
    } else if w.calls[i].RestartJoined? && IsSettled(w, Some(w.calls[i].launch)) {
      var c, launch := w.calls[i], w.launches[w.calls[i].launch];
      if launch.phase.result.Some? {
        var k :| launch.since <= k < |w.m.published| && w.m.published[k] == launch.phase.result;
        assert c.begun <= k;
      }
    }
  }

  lemma StepKeepsCalls(w: World, a: Action)
    requires Inv(w)
    ensures forall i | 0 <= i < |Step(w, a).calls| :: CallOk(Step(w, a), Step(w, a).calls[i])
  {
    forall i | 0 <= i < |Step(w, a).calls|
      ensures CallOk(Step(w, a), Step(w, a).calls[i])
    {
      hide Resumed, LaunchOk, CallOk, GenerationsOk;
      if i >= |w.calls| {
        NewCall(w, a, i);
      } else if a == Resume(i) {
        CallContinues(w, i);
      } else {
        StepLeavesCall(w, a, i);
        CallKept(w, a, w.calls[i]);
      }
    }
  }

  lemma StepKeepsInv(w: World, a: Action)
    requires Inv(w)
    ensures Inv(Step(w, a))
  {
    if OnLaunch(a) {
      LaunchKeepsFields(w, a);
    } else if a.Resume? {
      ResumeKeepsFields(w, a);
    } else {
      CallKeepsFields(w, a);
    }
    hide *;
    StepKeepsGenerations(w, a);
    StepKeepsLaunches(w, a);
    StepKeepsCalls(w, a);
  }

  /** The invariant holds in every run. */
  lemma {:induction false} RunKeepsInv(w: World, actions: seq<Action>)
    requires Inv(w)
    ensures Inv(Run(w, actions))
    decreases |actions|
  {
    if actions != [] {
      StepKeepsInv(w, actions[0]);
      RunKeepsInv(Step(w, actions[0]), actions[1..]);
    }
  }

  // ---------------------------------------------------------------------------
  // What holds in every run

  lemma RunsAreInOrder(actions: seq<Action>)
    ensures Inv(Run(START, actions))
  {
    RunKeepsInv(START, actions);
  }

  /** The last value published is the stored connection, and no identifier is published twice. */
  lemma PublishedIsStored(actions: seq<Action>)
    ensures var m := Run(START, actions).m;
            && LastPublished(m.published) == m.connection
            && Distinct(m.published)
  {
    RunsAreInOrder(actions);
  }

  /** At most one launch is in flight, and it is the pending one. */
  lemma OneLaunchInFlight(actions: seq<Action>, k: LaunchId, l: LaunchId)
    requires var w := Run(START, actions);
             && k < |w.launches| && !w.launches[k].phase.Settled?
             && l < |w.launches| && !w.launches[l].phase.Settled?
    ensures k == l && Run(START, actions).m.pending == Some(l)
  {
    RunsAreInOrder(actions);
    var w := Run(START, actions);
    assert LaunchOk(w, k) && LaunchOk(w, l);
  }

  lemma RunMore(w: World, a: Action, more: seq<Action>)
    ensures Run(w, [a] + more) == Run(Step(w, a), more)
  {
    hide Step;
    assert ([a] + more)[1..] == more;
  }

  /** After a stop has taken its first step nothing is published any more. */
  lemma {:induction false} NothingPublishedAfterStop(w: World, more: seq<Action>)
    requires Inv(w) && w.m.stopped
    ensures var end := Run(w, more);
            end.m.stopped && end.m.published == w.m.published && end.m.connection.None?
    decreases |more|
  {
    if more != [] {
      StepKeepsInv(w, more[0]);
      StoppedStep(w, more[0]);
      NothingPublishedAfterStop(Step(w, more[0]), more[1..]);
    }
  }

  lemma StoppedStep(w: World, a: Action)
    requires w.m.stopped
    ensures Step(w, a).m.stopped && Step(w, a).m.published == w.m.published
    ensures w.stopResolved ==> Step(w, a).stopResolved
  {
  }

  /** Once the stop() that did the stopping has resolved, the status is `stopped` for good. */
  lemma {:induction false} StoppedForever(w: World, more: seq<Action>)
    requires Inv(w) && w.stopResolved
    ensures Run(w, more).m.status == STOPPED && Run(w, more).stopResolved
    decreases |more|
  {
    if more != [] {
      StepKeepsInv(w, more[0]);
      StoppedStep(w, more[0]);
      StoppedForever(Step(w, more[0]), more[1..]);
    }
  }

  /**
   A stop() that finds the supervisor already stopping returns at once; the status it leaves is
   `stopped` exactly when the first stop() had resolved.
   */
  lemma RepeatedStop(actions: seq<Action>, throws: bool)
    requires Run(START, actions).m.stopped
    ensures var w := Run(START, actions);
            var w' := Step(w, CallStop(throws));
            && w'.calls == w.calls + [StopReturned]
            && (w'.m.status == STOPPED <==> w.stopResolved)
  {
    RunsAreInOrder(actions);
  }

  /** So a second stop() can resolve while the helper is still starting. */
  lemma SecondStopResolvesEarly()
    ensures var w := Run(START, [CallStart, CallStop(false), CallStop(false)]);
            w.calls[2] == StopReturned && w.m.status == STARTING
  {
    var w1 := Step(START, CallStart);
    var w2 := Step(w1, CallStop(false));
    RunMore(w2, CallStop(false), []);
    RunMore(w1, CallStop(false), [CallStop(false)]);
    RunMore(START, CallStart, [CallStop(false), CallStop(false)]);
  }

  // ---------------------------------------------------------------------------
  // What calls return

  ghost predicate RestartCall(c: Call, begun: nat) {
    (c.RestartWaits? || c.RestartJoined? || c.RestartReturned? || c.RestartRejected?) && c.begun == begun
  }

  lemma {:induction false} RestartKeepsIdentity(w: World, i: nat, begun: nat, more: seq<Action>)
    requires i < |w.calls| && RestartCall(w.calls[i], begun)
    ensures i < |Run(w, more).calls| && RestartCall(Run(w, more).calls[i], begun)
    decreases |more|
  {
    if more != [] {
      var w' := Step(w, more[0]);
      if more[0] == Resume(i) {
        ContinuedRestart(w, i, begun);
      } else {
        StepLeavesCall(w, more[0], i);
      }
      RestartKeepsIdentity(w', i, begun, more[1..]);
    }
  }

  lemma ContinuedRestart(w: World, i: nat, begun: nat)
    requires i < |w.calls| && RestartCall(w.calls[i], begun)
    ensures i < |Resumed(w, i).calls| && RestartCall(Resumed(w, i).calls[i], begun)
  {
  }

  /** A connection restart() returns was published after that restart() began, even if it joined a launch. */
  lemma RestartReturnsNewConnection(actions: seq<Action>, throws: bool, more: seq<Action>)
    ensures var w := Run(START, actions);
            var end := Run(Step(w, CallRestart(throws)), more);
            && |w.calls| < |end.calls|
            && var c := end.calls[|w.calls|];
               && RestartCall(c, |w.m.published|)
               && (c.RestartReturned? && c.result.Some? ==>
                     PublishedSince(end.m.published, |w.m.published|, c.result.value))
  {
    var w := Run(START, actions);
    RunsAreInOrder(actions);
    StepKeepsInv(w, CallRestart(throws));
    var w' := Step(w, CallRestart(throws));
    assert RestartCall(w'.calls[|w.calls|], |w.m.published|);
    RestartKeepsIdentity(w', |w.calls|, |w.m.published|, more);
    RunKeepsInv(w', more);
    assert CallOk(Run(w', more), Run(w', more).calls[|w.calls|]);
  }

  /** That connection is none of those published before, so the sidecar starts a new helper for it. */
  lemma RestartReturnsFreshGeneration(actions: seq<Action>, throws: bool, more: seq<Action>)
    requires var w := Run(START, actions);
             var end := Run(Step(w, CallRestart(throws)), more);
             |w.calls| < |end.calls| && end.calls[|w.calls|].RestartReturned? && end.calls[|w.calls|].result.Some?
    ensures var w := Run(START, actions);
            var c := Run(Step(w, CallRestart(throws)), more).calls[|w.calls|];
            c.result !in w.m.published
  {
    var w := Run(START, actions);
    RunsAreInOrder(actions);
    StepKeepsInv(w, CallRestart(throws));
    RunKeepsInv(Step(w, CallRestart(throws)), more);
    RestartReturnsNewConnection(actions, throws, more);
    var end := Run(Step(w, CallRestart(throws)), more);
    var c := end.calls[|w.calls|];
    var k :| |w.m.published| <= k < |end.m.published| && end.m.published[k] == c.result;
    StepPublishes(w, CallRestart(throws));
    RunPublishes(Step(w, CallRestart(throws)), more);
    assert w.m.published <= end.m.published;
    hide Run, Step;
    forall i | 0 <= i < |w.m.published|
      ensures w.m.published[i] != c.result
    {
      assert end.m.published[i] == w.m.published[i];
      assert Distinct(end.m.published);
    }
  }

  /** What has been published stays published. */
  lemma {:induction false} RunPublishes(w: World, more: seq<Action>)
    ensures w.m.published <= Run(w, more).m.published
    decreases |more|
  {
    if more != [] {
      StepPublishes(w, more[0]);
      RunPublishes(Step(w, more[0]), more[1..]);
    }
  }

  /** A start() with nothing in its way connects once the three checks pass. */
  lemma StartCanSucceed(actions: seq<Action>)
    requires var m := Run(START, actions).m; !m.stopped && m.connection.None? && m.pending.None?
    ensures var w := Run(START, actions);
            var l := |w.launches|;
            var end := Step(Step(Step(Step(Step(Step(w, CallStart), CheckPasses(l, false)), CheckPasses(l, false)),
                                      CheckPasses(l, false)), RunFinally(l)), Resume(|w.calls|));
            && end.m.status == READY && end.m.connection == Some(w.generations) && end.m.pending.None?
            && end.calls[|w.calls|] == StartReturned(Some(w.generations))
  {
    var w := Run(START, actions);
    var l := |w.launches|;
    hide Run;
    StartBegins(w);
    var w1 := Step(w, CallStart);
    hide Step;
    ChecksPass(w1, l);
    var w4 := Step(Step(Step(w1, CheckPasses(l, false)), CheckPasses(l, false)), CheckPasses(l, false));
    StartEnds(w4, l, |w.calls|);
  }

  lemma StartBegins(w: World)
    requires !w.m.stopped && w.m.connection.None? && w.m.pending.None?
    ensures var w' := Step(w, CallStart);
            && |w'.launches| == |w.launches| + 1 && w'.launches[|w.launches|].phase == Checking(CHECKS)
            && |w'.calls| == |w.calls| + 1 && w'.calls[|w.calls|] == JoinedStart(|w.launches|)
            && !w'.m.stopped && w'.generations == w.generations
  {
  }

  lemma CheckPassed(w: World, l: LaunchId, left: nat)
    requires l < |w.launches| && w.launches[l].phase == Checking(left + 1) && left > 0
    ensures Step(w, CheckPasses(l, false)) == SetPhase(w, l, Checking(left))
  {
  }

  lemma ChecksPass(w: World, l: LaunchId)
    requires l < |w.launches| && w.launches[l].phase == Checking(CHECKS) && !w.m.stopped
    ensures var w' := Step(Step(Step(w, CheckPasses(l, false)), CheckPasses(l, false)), CheckPasses(l, false));
            && |w'.launches| == |w.launches| && w'.launches[l].phase == Launched(w.generations)
            && w'.calls == w.calls && w'.m.status == READY && w'.m.connection == Some(w.generations)
  {
    hide Step;
    CheckPassed(w, l, 2);
    var w1 := Step(w, CheckPasses(l, false));
    CheckPassed(w1, l, 1);
    var w2 := Step(w1, CheckPasses(l, false));
    LastCheckPassed(w2, l);
  }

  lemma LastCheckPassed(w: World, l: LaunchId)
    requires l < |w.launches| && w.launches[l].phase == Checking(1) && !w.m.stopped
    ensures var w' := Step(w, CheckPasses(l, false));
            && |w'.launches| == |w.launches| && w'.launches[l].phase == Launched(w.generations)
            && w'.calls == w.calls && w'.m.status == READY && w'.m.connection == Some(w.generations)
  {
  }

  lemma StartEnds(w: World, l: LaunchId, i: nat)
    requires l < |w.launches| && w.launches[l].phase.Launched?
    requires i < |w.calls| && w.calls[i] == JoinedStart(l)
    ensures var end := Step(Step(w, RunFinally(l)), Resume(i));
            && end.m == w.m.(pending := None)
            && i < |end.calls| && end.calls[i] == StartReturned(Some(w.launches[l].phase.generation))
  {
    var w' := Step(w, RunFinally(l));
    assert w'.launches[l].phase == Settled(Some(w.launches[l].phase.generation)) && w'.calls == w.calls;
  }

  /** What launch `l` has connected, if anything, was published at `from` or later. */
  ghost predicate ConnectsSince(w: World, l: LaunchId, from: nat) {
    && l < |w.launches| && from <= |w.m.published|
    && (w.launches[l].phase.Launched? ==> PublishedSince(w.m.published, from, w.launches[l].phase.generation))
    && (w.launches[l].phase.Settled? && w.launches[l].phase.result.Some? ==>
          PublishedSince(w.m.published, from, w.launches[l].phase.result.value))
  }

  lemma StepConnectsSince(w: World, a: Action, l: LaunchId, from: nat)
    requires Inv(w) && ConnectsSince(w, l, from)
    ensures ConnectsSince(Step(w, a), l, from)
  {
    var w' := Step(w, a);
    StepPublishes(w, a);
    var more := w'.m.published[|w.m.published|..];
    assert w'.m.published == w.m.published + more;
    if OnLaunch(a) && a.launch == l {
      if w'.m.published != w.m.published {
        assert w'.m.published[|w.m.published|] == Some(w.generations);
      }
    } else {
      assert LaunchOk(w, l);
      StepLeavesLaunch(w, a, l);
      hide Step;
      var phase := w.launches[l].phase;
      if phase.Launched? {
        SinceGrows(w.m.published, from, phase.generation, more);
      } else if phase.Settled? && phase.result.Some? {
        SinceGrows(w.m.published, from, phase.result.value, more);
      }
    }
  }

  lemma {:induction false} RunConnectsSince(w: World, more: seq<Action>, l: LaunchId, from: nat)
    requires Inv(w) && ConnectsSince(w, l, from)
    ensures ConnectsSince(Run(w, more), l, from)
    decreases |more|
  {
    if more != [] {
      StepKeepsInv(w, more[0]);
      StepConnectsSince(w, more[0], l, from);
      RunConnectsSince(Step(w, more[0]), more[1..], l, from);
    }
  }

  ghost predicate HasConnected(w: World, l: LaunchId, g: Generation) {
    l < |w.launches| && (w.launches[l].phase == Launched(g) || w.launches[l].phase == Settled(Some(g)))
  }

  lemma StepKeepsConnected(w: World, a: Action, l: LaunchId, g: Generation)
    requires HasConnected(w, l, g)
    ensures HasConnected(Step(w, a), l, g)
  {
  }

  lemma {:induction false} ConnectedForGood(w: World, more: seq<Action>, l: LaunchId, g: Generation, k: nat)
    requires HasConnected(w, l, g) && k < |w.m.published|
    ensures HasConnected(Run(w, more), l, g)
    ensures k < |Run(w, more).m.published| && Run(w, more).m.published[k] == w.m.published[k]
    decreases |more|
  {
    if more != [] {
      StepPublishes(w, more[0]);
      StepKeepsConnected(w, more[0], l, g);
      hide Step;
      ConnectedForGood(Step(w, more[0]), more[1..], l, g, k);
    }
  }
}
