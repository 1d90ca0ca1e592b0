/**
 The supervisor class driven through a run: every stretch of its methods in the order the
 environment chooses. Its fields are then those the theorems about runs speak of.
 */
module CuaRuntimeDriver {
  import opened Results
  import opened CuaRuntime
  import opened CuaRuntimeRuns
  import opened CuaRuntimeHistory

  lemma NewIdentifier(w: World)
    requires Inv(w)
    ensures Some(w.generations) !in w.m.published
  {
  }

  /** A stretch of a launch. */
  method LaunchStretch(m: CuaRuntimeManager, w: World, a: Action)
    requires m.Valid() && m.State() == w.m && Inv(w) && OnLaunch(a)
    modifies m
    ensures m.Valid() && m.State() == Step(w, a).m
  {
    hide Inv, LaunchOk, CallOk, Resumed, Starting;
    if a.launch >= |w.launches| { return; }
    var phase := w.launches[a.launch].phase;
    match a {
      case CheckPasses(_, throws) =>
        if phase.Checking? && phase.left <= 1 {
          NewIdentifier(w);
          var _ := m.FinishLaunch(w.generations, throws);
        }
      case RunCatch(_) =>
        if phase.Failed? { m.LaunchFailed(phase.error); }
      case RunFinally(_) =>
        if phase.Launched? || phase.Caught? { m.LaunchOver(); }
      case _ =>
    }
  }

  /** A call, up to its await. */
  method CallStretch(m: CuaRuntimeManager, w: World, a: Action)
    requires m.Valid() && m.State() == w.m && !OnLaunch(a) && !a.Resume?
    modifies m
    ensures m.Valid() && m.State() == Step(w, a).m
  {
    match a {
      case CallStart => var _ := m.StartLaunch(|w.launches|);
      case CallRestart(throws) => var _ := m.BeginRestart(throws);
      case CallMarkUnavailable(error) => m.MarkHelperUnavailable(error);
      case CallStop(throws) => var _ := m.BeginStop(throws);
      case _ =>
    }
  }

  /** A call after its await. */
  method ResumeStretch(m: CuaRuntimeManager, w: World, i: nat)
    requires m.Valid() && m.State() == w.m
    modifies m
    ensures m.Valid() && m.State() == Step(w, Resume(i)).m
  {
    if i >= |w.calls| { return; }
    match w.calls[i] {
      case RestartWaits(awaited, _) =>
        if IsSettled(w, awaited) { var _ := m.ResumeRestart(|w.launches|); }
      case StopWaits(awaited) =>
        if IsSettled(w, awaited) { m.ResumeStop(); }
      case _ =>
    }
  }

  /**
   Whatever stretches run in whatever order, the class ends in the state of that run: what it
   last told the callback is what it stores, and what it ever told alternates.
   */
  method Supervise(actions: seq<Action>) returns (m: CuaRuntimeManager)
    ensures fresh(m) && m.Valid() && m.State() == Run(START, actions).m
    ensures Alternates(m.published)
    ensures !m.stopped && !ThrowHandled(actions, |actions|) ==> (m.currentStatus == READY <==> m.connection.Some?)
  {
    m := new CuaRuntimeManager();
    var w := START;
    hide Step, Run, After, Inv, Alternates, ThrowHandled;
    AfterAll(actions);
    for i := 0 to |actions|
      invariant fresh(m) && m.Valid() && w == After(actions, i) && m.State() == w.m
    {
      StepAt(actions, i);
      var a := actions[i];
      if OnLaunch(a) {
        LaunchStretch(m, w, a);
      } else if a.Resume? {
        ResumeStretch(m, w, a.call);
      } else {
        CallStretch(m, w, a);
      }
      w := Step(w, a);
    }
    ConnectionsAlternate(actions, |actions|);
    ReadyExactlyWhenConnected(actions);
  }
}
