/**
 The supervisor of the Computer Use helper (electron/lib/cua-runtime.ts:191-339).

 Its asynchronous methods are cut at their awaits: each stretch between two awaits is one
 atomic step, written as a function on the supervisor's fields. The class below carries the
 steps out on those fields; `CuaRuntimeRuns` interleaves the steps and drives the class.

 A value handed to the connection callback counts as published whether or not the callback
 throws. Fields are always written before the callback runs, so a throw only decides how the
 call goes on.
 */
module CuaRuntime {
  import opened Results

  datatype Status = IDLE | STARTING | READY | RESTARTING | UNAVAILABLE | STOPPED

  // A connection is known by the identifier generated for it; launches are numbered.
  type Generation = nat
  type LaunchId = nat

  /** The fields, and every value handed to `onConnection` so far. */
  datatype Manager = Manager(
    connection: Option<Generation>,
    pending: Option<LaunchId>,
    status: Status,
    lastError: Option<string>,
    stopped: bool,
    published: seq<Option<Generation>>)

  const INITIAL := Manager(None, None, IDLE, None, false, [])

  /** What start() hands back: a settled promise, or the promise of a launch. */
  datatype Answer = Now(result: Option<Generation>) | Join(launch: LaunchId)

  // ---------------------------------------------------------------------------
  // The steps

  function Published(m: Manager, connection: Option<Generation>): Manager {
    m.(connection := connection, published := m.published + [connection])
  }

  /** start(); `launch` numbers the launch it would begin. */
  function Start(m: Manager, launch: LaunchId): (Manager, Answer) {
    if m.stopped then (m, Now(None))
    else if m.connection.Some? then (m, Now(m.connection))
    else if m.pending.Some? then (m, Join(m.pending.value))
    else (m.(status := STARTING, pending := Some(launch)), Join(launch))
  }

  /** How a stretch that calls the connection callback ends. */
  datatype Stretch = Returns | Continues | Rejects

  /** The last stretch of launch(), after the helper has been checked; it returns early when stopped. */
  function Connect(m: Manager, generation: Generation, throws: bool): (Manager, Stretch) {
    if m.stopped then (m, Returns)
    else (Published(m, Some(generation)).(status := READY, lastError := None), if throws then Rejects else Continues)
  }

  /** The handler of a failed launch. */
  function Catch(m: Manager, error: string): Manager {
    m.(status := UNAVAILABLE, lastError := Some(error))
  }

  /** The handler that runs when a launch is over. */
  function Finally(m: Manager): Manager {
    m.(pending := None)
  }

  /** restart() up to its await. */
  function Restart(m: Manager, throws: bool): (Manager, Stretch) {
    if m.stopped then (m, Returns)
    else (Published(m, None).(status := RESTARTING), if throws then Rejects else Continues)
  }

  function MarkUnavailable(m: Manager, error: string): Manager {
    if m.stopped || m.connection.None? then m
    else Published(m, None).(status := UNAVAILABLE, lastError := Some(error))
  }

  /** stop() up to its await. */
  function Stop(m: Manager, throws: bool): (Manager, Stretch) {
    if m.stopped then (m, Returns)
    else (Published(m, None).(stopped := true), if throws then Rejects else Continues)
  }

  /** stop() after its await. */
  function Stopped(m: Manager): Manager {
    m.(status := STOPPED)
  }

  // ---------------------------------------------------------------------------
  // The supervisor itself

  function LastPublished(published: seq<Option<Generation>>): Option<Generation> {
    if published == [] then None else published[|published| - 1]
  }

  /** No identifier is published twice. */
  ghost predicate Distinct(published: seq<Option<Generation>>) {
    forall i, j | 0 <= i < j < |published| :: published[i].Some? ==> published[i] != published[j]
  }

  class CuaRuntimeManager {
    var connection: Option<Generation>
    var pending: Option<LaunchId>
    var currentStatus: Status
    var lastError: Option<string>
    var stopped: bool
    // Calls of onConnection, in order.
    var published: seq<Option<Generation>>

    ghost function State(): Manager
      reads this
    {
      Manager(connection, pending, currentStatus, lastError, stopped, published)
    }

    /** What the callback was last told is what is stored, and a stopped supervisor stores nothing. */
    ghost predicate Valid()
      reads this
    {
      && LastPublished(published) == connection
      && Distinct(published)
      && (stopped ==> connection.None?)
      && (currentStatus == READY && !stopped ==> connection.Some?)
    }

    constructor ()
      ensures Valid() && State() == INITIAL
    {
      connection, pending, currentStatus, lastError, stopped, published := None, None, IDLE, None, false, [];
    }

    method OnConnection(value: Option<Generation>)
      modifies this`published
      ensures published == old(published) + [value]
    {
      published := published + [value];
    }

    /** Nothing is published, a launch in flight is joined, and an answer at once is the stored connection. */
    method StartLaunch(launch: LaunchId) returns (answer: Answer)
      requires Valid()
      modifies this
      ensures Valid() && published == old(published) && connection == old(connection) && stopped == old(stopped)
      ensures answer.Now? ==> answer.result == connection && (stopped || connection.Some?)
      ensures answer.Join? ==> !stopped && connection.None? && pending == Some(answer.launch)
      ensures old(pending).Some? ==> pending == old(pending)
      ensures (State(), answer) == Start(old(State()), launch)
    {
      if stopped { return Now(None); }
      if connection.Some? { return Now(connection); }
      if pending.Some? { return Join(pending.value); }
      currentStatus := STARTING;
      pending := Some(launch);
      return Join(launch);
    }

    /** Publishes the new connection, which is then stored and ready; after a stop, nothing. */
    method FinishLaunch(generation: Generation, throws: bool) returns (end: Stretch)
      requires Valid() && Some(generation) !in published
      modifies this
      ensures Valid() && stopped == old(stopped) && pending == old(pending)
      ensures stopped <==> end.Returns?
      ensures stopped ==> published == old(published)
      ensures !stopped ==> published == old(published) + [Some(generation)] && currentStatus == READY
      ensures (State(), end) == Connect(old(State()), generation, throws)
    {
      if stopped { return Returns; }
      connection := Some(generation);
      currentStatus := READY;
      lastError := None;
      OnConnection(connection);
      return if throws then Rejects else Continues;
    }

    method LaunchFailed(error: string)
      requires Valid()
      modifies this
      ensures Valid() && State() == Catch(old(State()), error)
    {
      currentStatus := UNAVAILABLE;
      lastError := Some(error);
    }

    method LaunchOver()
      requires Valid()
      modifies this
      ensures Valid() && State() == Finally(old(State()))
    {
      pending := None;
    }

    /** Withdraws the connection, and says so, before anything is awaited. */
    method BeginRestart(throws: bool) returns (end: Stretch)
      requires Valid()
      modifies this
      ensures Valid() && connection.None? && stopped == old(stopped) && pending == old(pending)
      ensures published == if stopped then old(published) else old(published) + [None]
      ensures currentStatus == READY ==> stopped
      ensures (State(), end) == Restart(old(State()), throws)
    {
      if stopped { return Returns; }
      currentStatus := RESTARTING;
      connection := None;
      OnConnection(None);
      return if throws then Rejects else Continues;
    }

    /** restart() after its await: with nothing stored it ends up joining a launch, unless stopped meanwhile. */
    method ResumeRestart(launch: LaunchId) returns (answer: Answer)
      requires Valid()
      modifies this
      ensures Valid() && published == old(published) && connection == old(connection) && stopped == old(stopped)
      ensures !stopped && connection.None? ==> answer.Join? && pending == Some(answer.launch)
      ensures stopped ==> answer == Now(None) && State() == old(State())
      ensures (State(), answer) == Start(old(State()), launch)
    {
      if stopped { return Now(None); }
      answer := StartLaunch(launch);
    }

    /** Withdraws a stored connection exactly once; with none stored nothing changes. */
    method MarkHelperUnavailable(error: string)
      requires Valid()
      modifies this
      ensures Valid() && connection.None? && stopped == old(stopped) && pending == old(pending)
      ensures published == if old(connection).Some? then old(published) + [None] else old(published)
      ensures old(connection).None? ==> State() == old(State())
      ensures old(connection).Some? ==> currentStatus == UNAVAILABLE && lastError == Some(error)
      ensures State() == MarkUnavailable(old(State()), error)
    {
      if stopped || connection.None? { return; }
      connection := None;
      currentStatus := UNAVAILABLE;
      lastError := Some(error);
      OnConnection(None);
    }

    /** From its first stretch on the supervisor is stopped, without a connection, and has said so once. */
    method BeginStop(throws: bool) returns (end: Stretch)
      requires Valid()
      modifies this
      ensures Valid() && stopped && connection.None? && pending == old(pending)
      ensures published == if old(stopped) then old(published) else old(published) + [None]
      ensures old(stopped) ==> State() == old(State())
      ensures (State(), end) == Stop(old(State()), throws)
    {
      if stopped { return Returns; }
      stopped := true;
      connection := None;
      OnConnection(None);
      return if throws then Rejects else Continues;
    }

    method ResumeStop()
      requires Valid()
      modifies this
      ensures Valid() && State() == Stopped(old(State()))
    {
      currentStatus := STOPPED;
    }
  }
}
