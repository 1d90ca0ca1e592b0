/**
 Start-up and shutdown of the Computer Use helper (cua-helper/main.ts:141-207), with the
 start-up and close of its bridge (cua-helper/mcp-bridge.ts:67-115).

 `main`, the `startup` promise, `shutdown` and the driver monitor run concurrently; each
 stretch between two awaits is one step, and the environment chooses the order, the failures,
 and when the owner goes away or the driver exits.
 */
module HelperLifecycle {
  import opened Results

  const EXIT_PERMISSION := 78
  const EXIT_UNAVAILABLE := 69
  const EXIT_UNCAUGHT := 1

  /** Who asked for the shutdown: stdin end or a signal, a failed start-up, or the driver's exit. */
  datatype Requester = Owner | StartupFailure(permission: bool) | DriverExit

  function Code(r: Requester): int {
    match r
    case Owner => 0
    case StartupFailure(permission) => if permission then EXIT_PERMISSION else EXIT_UNAVAILABLE
    case DriverExit => EXIT_UNAVAILABLE
  }

  /** What the process exits with after this request, when nothing throws. */
  predicate ExitsBy(r: Requester, exits: seq<int>) {
    match r
    case Owner => exits == [0]
    case StartupFailure(permission) => exits == [if permission then 78 else 69]
    case DriverExit => exits == [69]
  }

  lemma CodeIsExit(r: Requester, exits: seq<int>)
    ensures ExitsBy(r, exits) <==> exits == [Code(r)]
  {
  }

  /** The `startup` promise. A failed bridge closes its server, client and transport in turn. */
  datatype Startup =
    | HostStarting
    | ClientConnecting
    | ServerConnecting
    | CleaningUp(closed: nat, permission: bool)
    | Succeeded
    | FailedToStart(permission: bool)

  datatype Shutdown =
    | NotRequested
    | AwaitsStartup
    | ClosingBridge(closed: nat)
    | StoppingHost
    | Exiting
    | Threw          // destroying the native host threw

  datatype Main = AwaitingStartup | AwaitingShutdown | Returned | Rejected

  datatype Monitor = Idle | Watching | Fired | Lost

  datatype Event =
    | HOST_STARTED | BRIDGE_OPENING | SERVER_CLOSED | CLIENT_CLOSED | TRANSPORT_CLOSED
    | STARTUP_SETTLED | HOST_STOP | HOST_DESTROY

  datatype Helper = Helper(
    startup: Startup,
    bridge: bool,                     // the `bridge` variable is set
    shutdown: Shutdown,
    requester: Option<Requester>,     // the first request; `stopping` is its presence
    main: Main,
    monitor: Monitor,
    exits: seq<int>,                  // calls of process.exit, and the exit of an uncaught rejection
    log: seq<Event>)

  const LAUNCHED := Helper(HostStarting, false, NotRequested, None, AwaitingStartup, Idle, [], [])

  datatype Action =
    | OwnerGone
    | HostStarts
    | HostFails(permission: bool)
    | ConnectSucceeds
    | ConnectFails(permission: bool)
    | CleanupContinues
    | ShutdownContinues
    | HostStopped(destroyThrows: bool, permission: bool)
    | MainContinues
    | DriverExits
    | MonitorFails

  predicate Settled(s: Startup) {
    s.Succeeded? || s.FailedToStart?
  }

  function Request(h: Helper, r: Requester): Helper {
    if h.requester.Some? then h else h.(requester := Some(r), shutdown := AwaitsStartup)
  }

  function CloseEvent(closed: nat): Event {
    if closed == 0 then SERVER_CLOSED else if closed == 1 then CLIENT_CLOSED else TRANSPORT_CLOSED
  }

  /** host.stop() is over, well or badly; the host is destroyed and the process exits. */
  function Destroyed(h: Helper, throws: bool, permission: bool): Helper
    requires h.requester.Some?
  {
    var h' := h.(log := h.log + [HOST_DESTROY]);
    if !throws then h'.(shutdown := Exiting, exits := h'.exits + [Code(h.requester.value)])
    else
      match h.requester.value
      // `void shutdown(0)`: nobody handles the rejection.
      case Owner => h'.(shutdown := Threw, exits := h'.exits + [EXIT_UNCAUGHT])
      // `await shutdown(...)` in main: main rejects, and its own handler exits.
      case StartupFailure(_) =>
        h'.(shutdown := Threw, main := Rejected,
            exits := h'.exits + [if permission then EXIT_PERMISSION else EXIT_UNAVAILABLE])
      // The monitor's handler only logs.
      case DriverExit => h'.(shutdown := Threw)
  }

  /** One step; after an exit there are none, and an action that is not possible changes nothing. */
  function Step(h: Helper, a: Action): Helper {
    if h.exits != [] then h
    else
      match a
      case OwnerGone => Request(h, Owner)
      case HostStarts =>
        if !h.startup.HostStarting? then h
        else if h.requester.Some?
        then h.(startup := Succeeded, log := h.log + [HOST_STARTED, STARTUP_SETTLED])
        else h.(startup := ClientConnecting, log := h.log + [HOST_STARTED, BRIDGE_OPENING])
      case HostFails(permission) =>
        if !h.startup.HostStarting? then h
        else h.(startup := FailedToStart(permission), log := h.log + [STARTUP_SETTLED])
      case ConnectSucceeds =>
        if h.startup.ClientConnecting? then h.(startup := ServerConnecting)
        else if h.startup.ServerConnecting?
        then h.(startup := Succeeded, bridge := true, log := h.log + [STARTUP_SETTLED])
        else h
      case ConnectFails(permission) =>
        if h.startup.ClientConnecting? || h.startup.ServerConnecting?
        then h.(startup := CleaningUp(0, permission)) else h
      case CleanupContinues =>
        if !h.startup.CleaningUp? then h
        else if h.startup.closed < 3
        then h.(startup := CleaningUp(h.startup.closed + 1, h.startup.permission),
                log := h.log + [CloseEvent(h.startup.closed)])
        else h.(startup := FailedToStart(h.startup.permission), log := h.log + [STARTUP_SETTLED])
      case ShutdownContinues =>
        if h.shutdown.AwaitsStartup? && Settled(h.startup)
        then if h.bridge then h.(shutdown := ClosingBridge(0))
             else h.(shutdown := StoppingHost, log := h.log + [HOST_STOP])
        else if h.shutdown.ClosingBridge?
        then if h.shutdown.closed < 3
             then h.(shutdown := ClosingBridge(h.shutdown.closed + 1), log := h.log + [CloseEvent(h.shutdown.closed)])
             else h.(shutdown := StoppingHost, log := h.log + [HOST_STOP])
        else h
      case HostStopped(throws, permission) =>
        if h.shutdown.StoppingHost? && h.requester.Some? then Destroyed(h, throws, permission) else h
      case MainContinues =>
        if !h.main.AwaitingStartup? then h
        else
          (match h.startup
           case Succeeded => h.(main := Returned, monitor := if h.requester.Some? then Idle else Watching)
           case FailedToStart(permission) => Request(h, StartupFailure(permission)).(main := AwaitingShutdown)
           case _ => h)
      case DriverExits =>
        if h.monitor.Watching? then Request(h.(monitor := Fired), DriverExit) else h
      case MonitorFails =>
        if h.monitor.Watching? then h.(monitor := Lost) else h
  }

  function Run(h: Helper, actions: seq<Action>): Helper
    decreases |actions|
  {
    if actions == [] then h else Run(Step(h, actions[0]), actions[1..])
  }

  // ---------------------------------------------------------------------------
  // The log of every run

  /** The closes done after `count` of the three. */
  function Closes(count: nat): seq<Event> {
    if count == 0 then [] else if count == 1 then [SERVER_CLOSED]
    else if count == 2 then [SERVER_CLOSED, CLIENT_CLOSED]
    else [SERVER_CLOSED, CLIENT_CLOSED, TRANSPORT_CLOSED]
  }

  /** What start-up has logged, given whether it opened a bridge. */
  function StartupLog(s: Startup, bridged: bool, hostUp: bool): seq<Event> {
    (if hostUp then [HOST_STARTED] else [])
    + (if bridged then [BRIDGE_OPENING] else [])
    + (match s
       case CleaningUp(closed, _) => Closes(closed)
       case FailedToStart(_) => (if bridged then Closes(3) else []) + [STARTUP_SETTLED]
       case Succeeded => [STARTUP_SETTLED]
       case _ => [])
  }

  function ShutdownLog(s: Shutdown, bridge: bool): seq<Event> {
    match s
    case ClosingBridge(closed) => Closes(closed)
    case StoppingHost => (if bridge then Closes(3) else []) + [HOST_STOP]
    case Exiting => (if bridge then Closes(3) else []) + [HOST_STOP, HOST_DESTROY]
    case Threw => (if bridge then Closes(3) else []) + [HOST_STOP, HOST_DESTROY]
    case _ => []
  }

  ghost predicate ShapeOk(h: Helper, bridged: bool, hostUp: bool) {
    && (bridged ==> hostUp)
    && (h.startup.HostStarting? ==> !hostUp)
    && (h.startup.ClientConnecting? || h.startup.ServerConnecting? || h.startup.CleaningUp? ==> bridged)
    && (h.startup.CleaningUp? ==> h.startup.closed <= 3)
    && (h.startup.Succeeded? ==> hostUp && (bridged || h.requester.Some?))
    && (h.startup.FailedToStart? && !bridged ==> !hostUp)
    && (h.bridge <==> h.startup.Succeeded? && bridged)
    && (h.shutdown.NotRequested? <==> h.requester.None?)
    && (h.shutdown.ClosingBridge? ==> h.bridge && h.shutdown.closed <= 3)
    && (!h.shutdown.NotRequested? && !h.shutdown.AwaitsStartup? ==> Settled(h.startup))
    && (!h.main.AwaitingStartup? ==> Settled(h.startup))
    && (h.requester.Some? && h.requester.value.StartupFailure? ==>
          h.startup == FailedToStart(h.requester.value.permission) && !h.main.AwaitingStartup?)
    && (h.requester.Some? && h.requester.value.DriverExit? ==> h.monitor.Fired?)
    && (!h.monitor.Idle? ==> h.startup.Succeeded? && h.bridge && h.main.Returned?)
    && |h.exits| <= 1
    && (h.exits != [] ==> h.shutdown.Exiting? || h.shutdown.Threw?)
    && (h.shutdown.Exiting? ==> h.exits == [Code(h.requester.value)])
    && (h.shutdown.Threw? ==> (h.exits == [] <==> h.requester == Some(DriverExit)))
    && (h.shutdown.Threw? && h.requester == Some(Owner) ==> h.exits == [EXIT_UNCAUGHT])
    && (h.shutdown.Threw? && h.requester.Some? && h.requester.value.StartupFailure? ==>
          h.exits == [EXIT_PERMISSION] || h.exits == [EXIT_UNAVAILABLE])
  }

  /** The whole log is the start-up's followed by the shutdown's. */
  ghost predicate Inv(h: Helper) {
    exists bridged, hostUp :: ShapeOk(h, bridged, hostUp) && LogOk(h, bridged, hostUp)
  }

  predicate Starts(h: Helper, a: Action) {
    a.HostStarts? && h.exits == [] && h.startup.HostStarting?
  }

  lemma StepKeepsShape(h: Helper, a: Action, bridged: bool, hostUp: bool)
    requires ShapeOk(h, bridged, hostUp)
    ensures ShapeOk(Step(h, a), if Starts(h, a) then h.requester.None? else bridged, Starts(h, a) || hostUp)
  {
  }

  /** Start-up logs only while the shutdown has not, and the shutdown only appends. */
  lemma StartupStep(h: Helper, a: Action, bridged: bool, hostUp: bool)
    requires ShapeOk(h, bridged, hostUp)
    requires Step(h, a).log != h.log && !a.ShutdownContinues? && !a.HostStopped?
    ensures var h' := Step(h, a);
            var bridged', hostUp' := if Starts(h, a) then h.requester.None? else bridged, Starts(h, a) || hostUp;
            && ShutdownLog(h.shutdown, h.bridge) == ShutdownLog(h'.shutdown, h'.bridge) == []
            && (h.log == StartupLog(h.startup, bridged, hostUp) ==> h'.log == StartupLog(h'.startup, bridged', hostUp'))
  {
    StartupActions(h, a);
    if a.CleanupContinues? {
      CleanupStep(h, a, bridged, hostUp);
    } else {
      hide Destroyed, CloseEvent, Code;
    }
  }

  lemma StartupActions(h: Helper, a: Action)
    requires Step(h, a).log != h.log && !a.ShutdownContinues? && !a.HostStopped?
    ensures a.HostStarts? || a.HostFails? || a.ConnectSucceeds? || a.CleanupContinues?
    ensures h.exits == []
  {
    hide Destroyed, CloseEvent, Code;
  }

  lemma CleanupStep(h: Helper, a: Action, bridged: bool, hostUp: bool)
    requires ShapeOk(h, bridged, hostUp) && a.CleanupContinues? && h.exits == []
    requires Step(h, a).log != h.log
    ensures var h' := Step(h, a);
            && ShutdownLog(h.shutdown, h.bridge) == ShutdownLog(h'.shutdown, h'.bridge) == []
            && (h.log == StartupLog(h.startup, bridged, hostUp) ==> h'.log == StartupLog(h'.startup, bridged, hostUp))
  {
    assert bridged && hostUp && h.startup.CleaningUp? && h.startup.closed <= 3;
    var k := h.startup.closed;
    var opening := [HOST_STARTED] + [BRIDGE_OPENING];
    if k < 3 {
      assert Closes(k + 1) == Closes(k) + [CloseEvent(k)];
      assert opening + Closes(k) + [CloseEvent(k)] == opening + (Closes(k) + [CloseEvent(k)]);
    } else {
      assert opening + Closes(3) + [STARTUP_SETTLED] == opening + (Closes(3) + [STARTUP_SETTLED]);
    }
  }

  ghost predicate Appended(before: seq<Event>, after: seq<Event>, e: Event) {
    after == before + [e]
  }

  lemma ShutdownStep(h: Helper, a: Action, bridged: bool, hostUp: bool)
    requires ShapeOk(h, bridged, hostUp) && (a.ShutdownContinues? || a.HostStopped?)
    ensures var h' := Step(h, a);
            && h'.startup == h.startup && h'.bridge == h.bridge
            && (h'.log == h.log ==> ShutdownLog(h'.shutdown, h'.bridge) == ShutdownLog(h.shutdown, h.bridge))
            && (h'.log != h.log ==>
                  exists e :: Appended(h.log, h'.log, e)
                           && Appended(ShutdownLog(h.shutdown, h.bridge), ShutdownLog(h'.shutdown, h'.bridge), e))
  {
    hide StartupLog;
    var h' := Step(h, a);
    if h'.log != h.log {
      var e := h'.log[|h.log|];
      assert Appended(h.log, h'.log, e);
    }
  }

  lemma SilentStep(h: Helper, a: Action, bridged: bool, hostUp: bool)
    requires ShapeOk(h, bridged, hostUp) && Step(h, a).log == h.log
    ensures var h' := Step(h, a);
            && !Starts(h, a)
            && StartupLog(h'.startup, bridged, hostUp) == StartupLog(h.startup, bridged, hostUp)
            && ShutdownLog(h'.shutdown, h'.bridge) == ShutdownLog(h.shutdown, h.bridge)
  {
  }

  ghost predicate LogOk(h: Helper, bridged: bool, hostUp: bool) {
    h.log == StartupLog(h.startup, bridged, hostUp) + ShutdownLog(h.shutdown, h.bridge)
  }

  lemma StepKeepsLog(h: Helper, a: Action, bridged: bool, hostUp: bool)
    requires ShapeOk(h, bridged, hostUp) && LogOk(h, bridged, hostUp)
    ensures LogOk(Step(h, a), if Starts(h, a) then h.requester.None? else bridged, Starts(h, a) || hostUp)
  {
    hide Step, StartupLog, ShutdownLog, ShapeOk;
    var s, d := StartupLog(h.startup, bridged, hostUp), ShutdownLog(h.shutdown, h.bridge);
    if a.ShutdownContinues? || a.HostStopped? {
      ShutdownStep(h, a, bridged, hostUp);
      if Step(h, a).log != h.log {
        var e :| Appended(h.log, Step(h, a).log, e)
              && Appended(d, ShutdownLog(Step(h, a).shutdown, Step(h, a).bridge), e);
        assert (s + d) + [e] == s + (d + [e]);
      }
    } else if Step(h, a).log == h.log {
      SilentStep(h, a, bridged, hostUp);
    } else {
      StartupStep(h, a, bridged, hostUp);
      assert s + [] == s;
    }
  }

  lemma StepKeepsInv(h: Helper, a: Action)
    requires Inv(h)
    ensures Inv(Step(h, a))
  {
    var bridged, hostUp :| ShapeOk(h, bridged, hostUp) && LogOk(h, bridged, hostUp);
    StepKeepsShape(h, a, bridged, hostUp);
    StepKeepsLog(h, a, bridged, hostUp);
  }

  lemma {:induction false} RunKeepsInv(h: Helper, actions: seq<Action>)
    requires Inv(h)
    ensures Inv(Run(h, actions))
    decreases |actions|
  {
    if actions != [] {
      StepKeepsInv(h, actions[0]);
      RunKeepsInv(Step(h, actions[0]), actions[1..]);
    }
  }

  lemma RunsAreInOrder(actions: seq<Action>)
    ensures Inv(Run(LAUNCHED, actions))
  {
    assert ShapeOk(LAUNCHED, false, false) && LogOk(LAUNCHED, false, false);
    RunKeepsInv(LAUNCHED, actions);
  }

  // ---------------------------------------------------------------------------
  // What holds in every run

  // The four courses a run can take, from start-up to release.
  const BRIDGED := [HOST_STARTED, BRIDGE_OPENING, STARTUP_SETTLED,
                    SERVER_CLOSED, CLIENT_CLOSED, TRANSPORT_CLOSED, HOST_STOP, HOST_DESTROY]
  const BRIDGE_FAILED := [HOST_STARTED, BRIDGE_OPENING, SERVER_CLOSED, CLIENT_CLOSED, TRANSPORT_CLOSED,
                          STARTUP_SETTLED, HOST_STOP, HOST_DESTROY]
  const UNBRIDGED := [HOST_STARTED, STARTUP_SETTLED, HOST_STOP, HOST_DESTROY]
  const HOST_FAILED := [STARTUP_SETTLED, HOST_STOP, HOST_DESTROY]

  ghost predicate OnCourse(log: seq<Event>) {
    log <= BRIDGED || log <= BRIDGE_FAILED || log <= UNBRIDGED || log <= HOST_FAILED
  }

  lemma StartupOnCourse(h: Helper, bridged: bool, hostUp: bool)
    requires ShapeOk(h, bridged, hostUp) && LogOk(h, bridged, hostUp)
    requires h.shutdown.NotRequested? || h.shutdown.AwaitsStartup?
    ensures OnCourse(h.log)
  {
    var n := |h.log|;
    if h.startup.Succeeded? && bridged {
      assert h.log == BRIDGED[..n];
    } else if bridged {
      assert h.log == BRIDGE_FAILED[..n];
    } else if hostUp {
      assert h.log == UNBRIDGED[..n];
    } else {
      assert h.log == HOST_FAILED[..n];
    }
  }

  lemma ShutdownOnCourse(h: Helper, bridged: bool, hostUp: bool)
    requires ShapeOk(h, bridged, hostUp) && LogOk(h, bridged, hostUp)
    requires !h.shutdown.NotRequested? && !h.shutdown.AwaitsStartup?
    ensures OnCourse(h.log)
  {
    StartupWritten(h, bridged, hostUp);
    ShutdownWritten(h);
    hide StartupLog, ShutdownLog, ShapeOk;
    var n := |ShutdownLog(h.shutdown, h.bridge)|;
    if h.bridge {
      Continues(BRIDGED, 3, n);
    } else if bridged {
      Continues(BRIDGE_FAILED, 6, n);
    } else if hostUp {
      Continues(UNBRIDGED, 2, n);
    } else {
      Continues(HOST_FAILED, 1, n);
    }
  }

  lemma StartupWritten(h: Helper, bridged: bool, hostUp: bool)
    requires ShapeOk(h, bridged, hostUp)
    requires !h.shutdown.NotRequested? && !h.shutdown.AwaitsStartup?
    ensures StartupLog(h.startup, bridged, hostUp) ==
      if h.bridge then BRIDGED[..3] else if bridged then BRIDGE_FAILED[..6]
      else if hostUp then UNBRIDGED[..2] else HOST_FAILED[..1]
  {
    hide ShutdownLog;
  }

  lemma ShutdownWritten(h: Helper)
    requires !h.shutdown.NotRequested? && !h.shutdown.AwaitsStartup?
    requires h.shutdown.ClosingBridge? ==> h.bridge && h.shutdown.closed <= 3
    ensures var d := ShutdownLog(h.shutdown, h.bridge);
            if h.bridge then 3 + |d| <= 8 && d == BRIDGED[3..3 + |d|]
            else |d| <= 2 && d == BRIDGE_FAILED[6..6 + |d|] == UNBRIDGED[2..2 + |d|] == HOST_FAILED[1..1 + |d|]
  {
  }

  lemma Continues(full: seq<Event>, i: nat, n: nat)
    requires i + n <= |full|
    ensures full[..i] + full[i..i + n] <= full
  {
    assert full[..i] + full[i..i + n] == full[..i + n];
  }

  /**
   In every ordering of requests, start-up results and driver exits, what happens is one of four
   courses or the beginning of one: nothing is done twice, the host is stopped only after start-up
   has settled and destroyed only after that, and a bridge that was opened is closed, server then
   client then transport, before the host is stopped.
   */
  lemma ResourcesReleasedInOrder(actions: seq<Action>)
    ensures OnCourse(Run(LAUNCHED, actions).log)
  {
    RunsAreInOrder(actions);
    var h := Run(LAUNCHED, actions);
    var bridged, hostUp :| ShapeOk(h, bridged, hostUp) && LogOk(h, bridged, hostUp);
    if h.shutdown.NotRequested? || h.shutdown.AwaitsStartup? {
      StartupOnCourse(h, bridged, hostUp);
    } else {
      ShutdownOnCourse(h, bridged, hostUp);
    }
  }

  /** The first request is the one that counts. */
  lemma {:induction false} FirstRequestStands(h: Helper, more: seq<Action>)
    requires h.requester.Some?
    ensures Run(h, more).requester == h.requester
    decreases |more|
  {
    if more != [] {
      RequestStands(h, more[0]);
      FirstRequestStands(Step(h, more[0]), more[1..]);
    }
  }

  lemma RequestStands(h: Helper, a: Action)
    requires h.requester.Some?
    ensures Step(h, a).requester == h.requester
  {
  }

  /**
   The process exits at most once, after the host was destroyed, with the code of the first
   request, provided destroying the host did not throw. When it did, a request by the owner ends
   as an uncaught rejection, and after a request by the driver's exit process.exit is never called.
   */
  lemma ExitCode(actions: seq<Action>)
    ensures var h := Run(LAUNCHED, actions);
            && |h.exits| <= 1
            && (h.exits != [] ==> h.shutdown.Exiting? || h.shutdown.Threw?)
            && (h.shutdown.Exiting? || h.shutdown.Threw? ==> h.requester.Some? && HOST_DESTROY in h.log)
            && (h.shutdown.Exiting? ==> ExitsBy(h.requester.value, h.exits))
            && (h.shutdown.Threw? && h.requester.value.Owner? ==> h.exits == [1])
            && (h.shutdown.Threw? && h.requester.value.StartupFailure? ==> h.exits == [78] || h.exits == [69])
            && (h.shutdown.Threw? && h.requester.value.DriverExit? ==> h.exits == [])
  {
    RunsAreInOrder(actions);
    var h := Run(LAUNCHED, actions);
    var bridged, hostUp :| ShapeOk(h, bridged, hostUp) && LogOk(h, bridged, hostUp);
    if h.shutdown.Exiting? || h.shutdown.Threw? {
      var d := ShutdownLog(h.shutdown, h.bridge);
      assert d[|d| - 1] == HOST_DESTROY;
      assert h.log[|h.log| - 1] == HOST_DESTROY;
    }
  }

  /** When the host threw as it was destroyed after the driver's exit, no later request calls process.exit. */
  lemma {:induction false} StrandedForGood(h: Helper, more: seq<Action>)
    requires h.shutdown.Threw? && h.exits == [] && h.requester.Some? && !h.main.AwaitingStartup?
    ensures Run(h, more).exits == []
    decreases |more|
  {
    if more != [] { StrandedForGood(Step(h, more[0]), more[1..]); }
  }

  /** How many stretches of the shutdown are left before the host is stopped. */
  function StretchesLeft(h: Helper): nat {
    match h.shutdown
    case AwaitsStartup => if h.bridge then 5 else 1
    case ClosingBridge(closed) => if closed <= 4 then 4 - closed else 0
    case _ => 0
  }

  /** In these actions the shutdown continues `count` times, and then the host stops and is destroyed. */
  predicate Finishes(actions: seq<Action>, count: nat) {
    actions != [] &&
    if count > 0 then Finishes(actions[1..], if actions[0].ShutdownContinues? then count - 1 else count)
    else if actions[0].HostStopped? then !actions[0].destroyThrows
    else Finishes(actions[1..], 0)
  }

  ghost predicate UnderWay(h: Helper) {
    && h.exits == [] && h.requester.Some? && Settled(h.startup)
    && (h.shutdown.AwaitsStartup? || (h.shutdown.ClosingBridge? && h.shutdown.closed <= 3) || h.shutdown.StoppingHost?)
  }

  lemma ShutdownProceeds(h: Helper, a: Action)
    requires UnderWay(h) && !(h.shutdown.StoppingHost? && a.HostStopped?)
    ensures var h' := Step(h, a);
            && UnderWay(h') && h'.requester == h.requester
            && StretchesLeft(h') == StretchesLeft(h) - if a.ShutdownContinues? && StretchesLeft(h) > 0 then 1 else 0
  {
  }

  lemma HostStops(h: Helper, a: Action)
    requires UnderWay(h) && h.shutdown.StoppingHost? && a.HostStopped? && !a.destroyThrows
    ensures Step(h, a).exits == [Code(h.requester.value)]
  {
  }

  lemma StillStopping(h: Helper)
    requires UnderWay(h)
    ensures StretchesLeft(h) == 0 <==> h.shutdown.StoppingHost?
  {
  }

  lemma {:induction false} ExitStands(h: Helper, more: seq<Action>)
    requires h.exits != []
    ensures Run(h, more).exits == h.exits
    decreases |more|
  {
    if more != [] { ExitStands(Step(h, more[0]), more[1..]); }
  }

  lemma {:induction false} ShutdownEnds(h: Helper, more: seq<Action>)
    requires UnderWay(h) && Finishes(more, StretchesLeft(h))
    ensures Run(h, more).exits == [Code(h.requester.value)]
    decreases |more|
  {
    hide Step, UnderWay, StretchesLeft, Code;
    StillStopping(h);
    if StretchesLeft(h) == 0 && more[0].HostStopped? {
      HostStops(h, more[0]);
      ExitStands(Step(h, more[0]), more[1..]);
    } else {
      ShutdownProceeds(h, more[0]);
      ShutdownEnds(Step(h, more[0]), more[1..]);
    }
  }

  /**
   Once start-up has settled, a requested shutdown ends with the code of the first request, in
   whatever order everything else happens, if its stretches get their turn and destroying the
   host does not throw.
   */
  lemma RequestEnds(actions: seq<Action>, more: seq<Action>)
    requires var h := Run(LAUNCHED, actions);
             && h.requester.Some? && Settled(h.startup) && !h.shutdown.Exiting? && !h.shutdown.Threw?
             && Finishes(more, StretchesLeft(h))
    ensures var h := Run(LAUNCHED, actions);
            ExitsBy(h.requester.value, Run(h, more).exits)
  {
    RunsAreInOrder(actions);
    var h := Run(LAUNCHED, actions);
    var bridged, hostUp :| ShapeOk(h, bridged, hostUp) && LogOk(h, bridged, hostUp);
    assert UnderWay(h);
    CodeIsExit(h.requester.value, Run(h, more).exits);
    hide *;
    ShutdownEnds(h, more);
  }

  lemma {:induction false} RunJoins(h: Helper, first: seq<Action>, second: seq<Action>)
    ensures Run(h, first + second) == Run(Run(h, first), second)
    decreases |first|
  {
    hide Step;
    if first == [] {
      assert first + second == second;
    } else {
      assert (first + second)[1..] == first[1..] + second;
      RunJoins(Step(h, first[0]), first[1..], second);
    }
  }

  lemma RunTwo(h: Helper, a: Action, b: Action)
    ensures Run(h, [a, b]) == Step(Step(h, a), b)
  {
    hide Step;
    var last := Step(Step(h, a), b);
    assert Run(last, []) == last;
    assert [b][1..] == [];
    assert Run(Step(h, a), [b]) == last;
    assert [a, b][1..] == [b];
  }

  // Bridge up, monitored, and the driver exits.
  const TO_DRIVER_EXIT :=
    [HostStarts, ConnectSucceeds] + [ConnectSucceeds, MainContinues] + [DriverExits, ShutdownContinues]
  const TO_DESTROY :=
    [ShutdownContinues, ShutdownContinues] + [ShutdownContinues, ShutdownContinues] + [HostStopped(true, false), OwnerGone]

  lemma ReachDriverExit()
    ensures var h := Run(LAUNCHED, TO_DRIVER_EXIT);
            h.requester == Some(DriverExit) && h.shutdown == ClosingBridge(0) && h.exits == []
  {
    var h := Step(Step(LAUNCHED, HostStarts), ConnectSucceeds);
    RunTwo(LAUNCHED, HostStarts, ConnectSucceeds);
    RunTwo(h, ConnectSucceeds, MainContinues);
    RunTwo(Step(Step(h, ConnectSucceeds), MainContinues), DriverExits, ShutdownContinues);
    RunJoins(LAUNCHED, [HostStarts, ConnectSucceeds], [ConnectSucceeds, MainContinues]);
    RunJoins(LAUNCHED, [HostStarts, ConnectSucceeds] + [ConnectSucceeds, MainContinues], [DriverExits, ShutdownContinues]);
  }

  lemma ReachDestroy(h: Helper)
    requires h.requester == Some(DriverExit) && h.shutdown == ClosingBridge(0) && h.exits == []
    ensures Run(h, TO_DESTROY).shutdown.Threw? && Run(h, TO_DESTROY).exits == []
  {
    var h2 := Step(Step(h, ShutdownContinues), ShutdownContinues);
    RunTwo(h, ShutdownContinues, ShutdownContinues);
    RunTwo(h2, ShutdownContinues, ShutdownContinues);
    RunTwo(Step(Step(h2, ShutdownContinues), ShutdownContinues), HostStopped(true, false), OwnerGone);
    RunJoins(h, [ShutdownContinues, ShutdownContinues], [ShutdownContinues, ShutdownContinues]);
    RunJoins(h, [ShutdownContinues, ShutdownContinues] + [ShutdownContinues, ShutdownContinues],
      [HostStopped(true, false), OwnerGone]);
  }

  /** The run in which that happens: the driver exits, the host throws, and the owner's leaving changes nothing. */
  lemma DriverExitCanStrandHelper()
    ensures var h := Run(LAUNCHED, TO_DRIVER_EXIT + TO_DESTROY);
            h.shutdown.Threw? && h.exits == []
  {
    ReachDriverExit();
    hide *;
    ReachDestroy(Run(LAUNCHED, TO_DRIVER_EXIT));
    RunJoins(LAUNCHED, TO_DRIVER_EXIT, TO_DESTROY);
  }

  /** A shutdown requested while the host is starting keeps the bridge from being opened at all. */
  lemma {:induction false} NoBridgeAfterRequest(h: Helper, more: seq<Action>)
    requires h.requester.Some? && BRIDGE_OPENING !in h.log
    requires h.startup.HostStarting? || Settled(h.startup)
    ensures BRIDGE_OPENING !in Run(h, more).log
    decreases |more|
  {
    if more != [] {
      QuietStep(h, more[0]);
      NoBridgeAfterRequest(Step(h, more[0]), more[1..]);
    }
  }

  lemma QuietStep(h: Helper, a: Action)
    requires h.requester.Some? && BRIDGE_OPENING !in h.log
    requires h.startup.HostStarting? || Settled(h.startup)
    ensures var h' := Step(h, a);
            && h'.requester.Some? && BRIDGE_OPENING !in h'.log
            && (h'.startup.HostStarting? || Settled(h'.startup))
  {
  }
}
