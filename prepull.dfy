/** The per-connection handler of modules/prepull.py: its constants, its construction (state
    and registration in the shared fd table) and the dispatch of one readiness event to the
    `_on_*` callbacks. The callbacks are empty in the source apart from a debug line naming
    them; here each one appends its name to `log`, and whether it tears the connection down
    is a parameter (`destroys`): the dispatch discipline is proved for every choice. */
module Prepull {
  import opened Builtins
  import opened EventLoop

  const STAGE_INIT := 0
  const STAGE_HELLO := 1
  const STAGE_UDP_ASSOC := 2
  const STAGE_DNS := 3
  const STAGE_REPLY := 4
  const STAGE_STREAM := 5
  const STAGE_DESTROYED := -1

  /** Stream directions. */
  const STREAM_UP := 0
  const STREAM_DOWN := 1

  /** Wait statuses of a stream, as bit flags. */
  const WAIT_STATUS_INIT: bv8 := 0
  const WAIT_STATUS_READING: bv8 := 1
  const WAIT_STATUS_WRITING: bv8 := 2
  const WAIT_STATUS_READWRITING: bv8 := WAIT_STATUS_READING | WAIT_STATUS_WRITING

  const BUF_SIZE := 32 * 1024

  /** Reading-and-writing is the union of the two flags, the value 3, and holds both. */
  lemma ReadWritingIsBoth()
    ensures WAIT_STATUS_READWRITING == 3
    ensures WAIT_STATUS_READWRITING & WAIT_STATUS_READING == WAIT_STATUS_READING
    ensures WAIT_STATUS_READWRITING & WAIT_STATUS_WRITING == WAIT_STATUS_WRITING
  {
  }

  /** The six `_on_*` callbacks. */
  datatype Callback = RemoteError | RemoteRead | RemoteWrite | LocalError | LocalRead | LocalWrite

  /** Which of the handler's sockets an event is for. */
  datatype Side = Remote | Local | Unknown

  /** Which of a handler's two sockets, `local` and `remote`, `sock` is, compared by
      identity; the remote one is checked first. */
  function SideAmong(local: Socket, remote: Socket?, sock: Socket): Side
  {
    if sock == remote then Remote else if sock == local then Local else Unknown
  }

  /** The event bits a callback answers to. */
  function Mask(cb: Callback): bv32
  {
    match cb
    case RemoteError | LocalError => POLL_ERR
    case RemoteRead | LocalRead => POLL_IN | POLL_HUP
    case RemoteWrite | LocalWrite => POLL_OUT
  }

  /** The position of a callback in the dispatch order: error, then read, then write. */
  function Rank(cb: Callback): nat
  {
    match cb
    case RemoteError | LocalError => 0
    case RemoteRead | LocalRead => 1
    case RemoteWrite | LocalWrite => 2
  }

  function SideOfCallback(cb: Callback): Side
  {
    match cb
    case RemoteError | RemoteRead | RemoteWrite => Remote
    case LocalError | LocalRead | LocalWrite => Local
  }

  /** The three tests `handle_event` makes of an event mask. */
  datatype Ready = Ready(error: bool, read: bool, write: bool)

  function ReadyOf(event: bv32): Ready
  {
    Ready(event & POLL_ERR != 0, event & (POLL_IN | POLL_HUP) != 0, event & POLL_OUT != 0)
  }

  /** Whether the tests ask for a callback. */
  predicate Asked(ready: Ready, cb: Callback)
  {
    match cb
    case RemoteError | LocalError => ready.error
    case RemoteRead | LocalRead => ready.read
    case RemoteWrite | LocalWrite => ready.write
  }

  /** An event asks for a callback exactly when it carries one of that callback's bits. */
  lemma AskedIff(event: bv32, cb: Callback)
    ensures Asked(ReadyOf(event), cb) <==> event & Mask(cb) != 0
  {
  }

  function When(cb: Callback, ready: Ready): seq<Callback>
  {
    if Asked(ready, cb) then [cb] else []
  }

  /** The callbacks an event asks for on one side, in dispatch order. */
  function Planned(side: Side, ready: Ready): seq<Callback>
  {
    match side
    case Remote => When(RemoteError, ready) + When(RemoteRead, ready) + When(RemoteWrite, ready)
    case Local => When(LocalError, ready) + When(LocalRead, ready) + When(LocalWrite, ready)
    case Unknown => []
  }

  /** Running callbacks in order, stopping right after the first one that destroys the
      handler: what runs is a prefix of the plan, only its last callback may destroy, and it
      falls short of the plan only by ending on a destroying callback. */
  function RunUntilDestroyed(cbs: seq<Callback>, destroys: set<Callback>): seq<Callback>
  {
    if cbs == [] then []
    else if cbs[0] in destroys then [cbs[0]]
    else [cbs[0]] + RunUntilDestroyed(cbs[1..], destroys)
  }

  /** What runs is a prefix of the plan, only its last callback may destroy the handler, and
      it falls short of the plan only by ending on a destroying callback. */
  lemma {:induction false} RunShape(cbs: seq<Callback>, destroys: set<Callback>)
    ensures var r := RunUntilDestroyed(cbs, destroys);
      && r <= cbs
      && (forall i :: 0 <= i < |r| - 1 ==> r[i] !in destroys)
      && (|r| < |cbs| ==> |r| > 0 && r[|r| - 1] in destroys)
  {
    if cbs != [] && cbs[0] !in destroys {
      RunShape(cbs[1..], destroys);
      var r, t := RunUntilDestroyed(cbs, destroys), RunUntilDestroyed(cbs[1..], destroys);
      assert r == [cbs[0]] + t;
      assert cbs == [cbs[0]] + cbs[1..];
      forall i | 0 <= i < |r| - 1
        ensures r[i] !in destroys
      {
        if i > 0 {
          assert r[i] == t[i - 1];
        }
      }
      if |t| > 0 {
        assert r[|r| - 1] == t[|t| - 1];
      }
    }
  }

  /** `handle_event`: the callbacks that run for one event, given the stage on entry. */
  function Dispatch(stage: int, side: Side, ready: Ready, destroys: set<Callback>): seq<Callback>
  {
    if stage == STAGE_DESTROYED then [] else RunUntilDestroyed(Planned(side, ready), destroys)
  }

  /** The stage after `handle_event`: destroyed exactly when the last callback run destroys. */
  function StageAfter(stage: int, side: Side, ready: Ready, destroys: set<Callback>): int
  {
    var run := Dispatch(stage, side, ready, destroys);
    if |run| > 0 && run[|run| - 1] in destroys then STAGE_DESTROYED else stage
  }

  // ---------------------------------------------------------------------------
  // Properties of the dispatch

  /** A planned callback is one of the side's own that the tests ask for. */
  lemma PlannedIff(side: Side, ready: Ready, cb: Callback)
    ensures cb in Planned(side, ready) <==> side != Unknown && SideOfCallback(cb) == side && Asked(ready, cb)
  {
  }

  /** The plan lists error before read before write. */
  lemma PlannedOrdered(side: Side, ready: Ready)
    ensures var p := Planned(side, ready);
      forall i, j :: 0 <= i < j < |p| ==> Rank(p[i]) < Rank(p[j])
  {
  }

  /** Once destroyed, a handler ignores every event. */
  lemma DestroyedIgnoresEvents(side: Side, ready: Ready, destroys: set<Callback>)
    ensures Dispatch(STAGE_DESTROYED, side, ready, destroys) == []
    ensures StageAfter(STAGE_DESTROYED, side, ready, destroys) == STAGE_DESTROYED
  {
  }

  /** A socket that is neither the remote nor the local one triggers nothing. */
  lemma UnknownSocketIgnored(stage: int, ready: Ready, destroys: set<Callback>)
    ensures Dispatch(stage, Unknown, ready, destroys) == []
    ensures StageAfter(stage, Unknown, ready, destroys) == stage
  {
  }

  /** What runs is the plan cut right after the first destroying callback: callbacks run in
      dispatch order, each only if the tests ask for it and none after a destroying one. */
  lemma DispatchDiscipline(stage: int, side: Side, ready: Ready, destroys: set<Callback>)
    requires stage != STAGE_DESTROYED
    ensures var run := Dispatch(stage, side, ready, destroys);
      && run <= Planned(side, ready)
      && (forall i, j :: 0 <= i < j < |run| ==> Rank(run[i]) < Rank(run[j]))
      && (forall i :: 0 <= i < |run| ==> SideOfCallback(run[i]) == side && Asked(ready, run[i]))
      && (forall i :: 0 <= i < |run| - 1 ==> run[i] !in destroys)
  {
    var run := Dispatch(stage, side, ready, destroys);
    var p := Planned(side, ready);
    RunShape(p, destroys);
    PlannedOrdered(side, ready);
    forall i | 0 <= i < |run|
      ensures SideOfCallback(run[i]) == side && Asked(ready, run[i])
    {
      assert run[i] == p[i];
      PlannedIff(side, ready, run[i]);
    }
  }

  /** The handler ends destroyed exactly when a callback that ran destroyed it. */
  lemma DestroyedIffDestroyingRan(stage: int, side: Side, ready: Ready, destroys: set<Callback>)
    requires stage != STAGE_DESTROYED
    ensures var run := Dispatch(stage, side, ready, destroys);
      StageAfter(stage, side, ready, destroys) == STAGE_DESTROYED <==> exists cb :: cb in run && cb in destroys
  {
    var run := Dispatch(stage, side, ready, destroys);
    RunShape(Planned(side, ready), destroys);
    if exists cb :: cb in run && cb in destroys {
      var cb :| cb in run && cb in destroys;
      var k :| 0 <= k < |run| && run[k] == cb;
      assert k == |run| - 1;
    }
  }

  /** When no planned callback destroys the handler, every planned one runs; so with the
      source's empty callbacks, which never destroy, the whole plan runs. */
  lemma {:induction false} RunsWholePlan(cbs: seq<Callback>, destroys: set<Callback>)
    requires forall i :: 0 <= i < |cbs| ==> cbs[i] !in destroys
    ensures RunUntilDestroyed(cbs, destroys) == cbs
  {
    if cbs != [] {
      RunsWholePlan(cbs[1..], destroys);
    }
  }

  /** The callbacks as the source writes them destroy nothing: every planned callback runs
      and the stage is left as it was. */
  lemma EmptyCallbacksRunWholePlan(stage: int, side: Side, ready: Ready)
    requires stage != STAGE_DESTROYED
    ensures Dispatch(stage, side, ready, {}) == Planned(side, ready)
    ensures StageAfter(stage, side, ready, {}) == stage
  {
    RunsWholePlan(Planned(side, ready), {});
  }

  /** Running two groups one after the other: the second only when the first ran to its end
      without destroying the handler. */
  lemma {:induction false} RunConcat(a: seq<Callback>, b: seq<Callback>, destroys: set<Callback>)
    ensures var ra := RunUntilDestroyed(a, destroys);
      RunUntilDestroyed(a + b, destroys)
      == if |ra| > 0 && ra[|ra| - 1] in destroys then ra else a + RunUntilDestroyed(b, destroys)
  {
    if a == [] {
      assert a + b == b;
    } else {
      var ra := RunUntilDestroyed(a, destroys);
      assert (a + b)[0] == a[0];
      assert (a + b)[1..] == a[1..] + b;
      if a[0] in destroys {
        assert ra == [a[0]];
      } else {
        var rt := RunUntilDestroyed(a[1..], destroys);
        RunConcat(a[1..], b, destroys);
        assert ra == [a[0]] + rt;
        assert a == [a[0]] + a[1..];
        if |rt| > 0 {
          assert ra[|ra| - 1] == rt[|rt| - 1];
        } else {
          assert a[1..] == [];
        }
      }
    }
  }

  /** One side's branch of `handle_event` as the source writes it: it stops after the
      error callback when that one destroys, after the read callback when that one does, and
      otherwise runs every callback asked for. */
  function Branch(x: Callback, y: Callback, z: Callback, ready: Ready, destroys: set<Callback>): seq<Callback>
  {
    if Asked(ready, x) && x in destroys then [x]
    else if Asked(ready, y) && y in destroys then When(x, ready) + [y]
    else When(x, ready) + When(y, ready) + When(z, ready)
  }

  /** The branch is the plan of its three groups run until destroyed. */
  lemma RunThree(x: Callback, y: Callback, z: Callback, ready: Ready, destroys: set<Callback>)
    ensures RunUntilDestroyed(When(x, ready) + When(y, ready) + When(z, ready), destroys)
      == Branch(x, y, z, ready, destroys)
  {
    var g1, g2, g3 := When(x, ready), When(y, ready), When(z, ready);
    RunConcat(g1, g2, destroys);
    RunConcat(g1 + g2, g3, destroys);
    RunWhen(x, ready, destroys);
    RunWhen(y, ready, destroys);
    RunWhen(z, ready, destroys);
    var r12 := RunUntilDestroyed(g1 + g2, destroys);
    if Asked(ready, x) && x in destroys {
      assert r12 == [x];
    } else if Asked(ready, y) && y in destroys {
      assert r12 == g1 + [y];
    } else {
      assert r12 == g1 + g2;
      assert !(|r12| > 0 && r12[|r12| - 1] in destroys);
    }
  }

  /** A single guarded callback runs whenever it is asked for. */
  lemma RunWhen(x: Callback, ready: Ready, destroys: set<Callback>)
    ensures RunUntilDestroyed(When(x, ready), destroys) == When(x, ready)
  {
  }

  lemma Regroup3(a: seq<Callback>, b: seq<Callback>, c: seq<Callback>, d: seq<Callback>)
    ensures a + b + c + d == a + (b + c + d)
  {
  }

  // ---------------------------------------------------------------------------
  // The handler

  /** The process-wide table from descriptor to handler, shared by reference between the
      relay and every handler (a Python dict). */
  class FdToHandlers {
    var entries: map<int, TCPRelayHandler>

    constructor ()
      ensures entries == map[]
    {
      entries := map[];
    }
  }

  class TCPRelayHandler {
    const fdToHandlers: FdToHandlers
    const localSock: Socket
    const isLocal: bool
    var remoteSock: Socket?
    var stage: int
    var fastopenConnected: bool
    var dataToWriteToLocal: seq<seq<bv8>>
    var dataToWriteToRemote: seq<seq<bv8>>
    var upstreamStatus: bv8
    var downstreamStatus: bv8
    var remoteAddress: Option<(string, int)>
    /** The configured server, chosen only on the local side. */
    var chosenServer: Option<(string, int)>
    var lastActivity: int
    /** The debug lines the callbacks write, one per callback run. */
    var log: seq<Callback>

    /** `__init__`: the fresh handler starts in STAGE_INIT with empty write buffers, reading
        upstream, idle downstream and `last_activity` 0, and is registered in the shared
        table under its local socket's descriptor; nothing else in the table changes. */
    constructor (fdToHandlers: FdToHandlers, localSock: Socket, isLocal: bool, configServer: (string, int))
      modifies fdToHandlers
      ensures this.fdToHandlers == fdToHandlers && this.localSock == localSock && this.isLocal == isLocal
      ensures fdToHandlers.entries == old(fdToHandlers.entries)[localSock.fd := this]
      ensures remoteSock == null && stage == STAGE_INIT && !fastopenConnected
      ensures dataToWriteToLocal == [] && dataToWriteToRemote == []
      ensures upstreamStatus == WAIT_STATUS_READING && downstreamStatus == WAIT_STATUS_INIT
      ensures remoteAddress == None && chosenServer == (if isLocal then Some(configServer) else None)
      ensures lastActivity == 0 && log == []
    {
      this.fdToHandlers := fdToHandlers;
      this.localSock := localSock;
      this.isLocal := isLocal;
      remoteSock := null;
      stage := STAGE_INIT;
      fastopenConnected := false;
      dataToWriteToLocal := [];
      dataToWriteToRemote := [];
      upstreamStatus := WAIT_STATUS_READING;
      downstreamStatus := WAIT_STATUS_INIT;
      remoteAddress := None;
      chosenServer := if isLocal then Some(configServer) else None;
      lastActivity := 0;
      log := [];
      new;
      fdToHandlers.entries := fdToHandlers.entries[localSock.fd := this];
    }

    /** Which of this handler's sockets `sock` is, compared by identity. */
    function SideOf(sock: Socket): Side
      reads this`remoteSock
    {
      SideAmong(localSock, remoteSock, sock)
    }

    /** One `_on_*` callback: it logs its name and, when it is one of `destroys`, leaves
        the handler destroyed. */
    method OnCallback(cb: Callback, destroys: set<Callback>)
      modifies this`log, this`stage
      ensures log == old(log) + [cb]
      ensures stage == if cb in destroys then STAGE_DESTROYED else old(stage)
      ensures remoteSock == old(remoteSock)
    {
      log := log + [cb];
      if cb in destroys {
        stage := STAGE_DESTROYED;
      }
    }

    /** `handle_event(sock, event)`: the callbacks run are exactly `Dispatch` of the stage
        and the side on entry, and the stage ends as `StageAfter` says. */
    method HandleEvent(sock: Socket, event: bv32, destroys: set<Callback>)
      modifies this`log, this`stage
      ensures log == old(log) + Dispatch(old(stage), old(SideOf(sock)), ReadyOf(event), destroys)
      ensures stage == StageAfter(old(stage), old(SideOf(sock)), ReadyOf(event), destroys)
      ensures remoteSock == old(remoteSock)
    {
      if stage == STAGE_DESTROYED {
        return;
      }
      var side := SideOf(sock);
      if side != Unknown {
        var ready := ReadyOf(event);
        var error, read, write := ErrorOf(side), ReadOf(side), WriteOf(side);
        assert Planned(side, ready) == When(error, ready) + When(read, ready) + When(write, ready);
        RunThree(error, read, write, ready, destroys);
        RunCallbacks(error, read, write, ready, destroys);
      }
    }

    /** The body of either socket's branch of `handle_event`: error, read and write
        callbacks as the tests ask, re-checking the stage after the first two. */
    method RunCallbacks(error: Callback, read: Callback, write: Callback, ready: Ready, destroys: set<Callback>)
      requires stage != STAGE_DESTROYED
      modifies this`log, this`stage
      ensures log == old(log) + Branch(error, read, write, ready, destroys)
      ensures stage == if (Asked(ready, error) && error in destroys) || (Asked(ready, read) && read in destroys) || (Asked(ready, write) && write in destroys)
        then STAGE_DESTROYED else old(stage)
      ensures remoteSock == old(remoteSock)
    {
      ghost var log0 := log;
      var destroyed := RunIfAsked(error, ready, destroys);
      if destroyed {
        return;
      }
      ghost var log1 := log;
      destroyed := RunIfAsked(read, ready, destroys);
      if destroyed {
        assert log == log0 + (When(error, ready) + [read]);
        return;
      }
      destroyed := RunIfAsked(write, ready, destroys);
      Regroup3(log0, When(error, ready), When(read, ready), When(write, ready));
    }

    /** One guarded call of a branch: the callback runs when the tests ask for it, and the
        result says whether the handler is destroyed afterwards. */
    method RunIfAsked(cb: Callback, ready: Ready, destroys: set<Callback>) returns (destroyed: bool)
      requires stage != STAGE_DESTROYED
      modifies this`log, this`stage
      ensures log == old(log) + When(cb, ready)
      ensures destroyed == (Asked(ready, cb) && cb in destroys)
      ensures stage == if destroyed then STAGE_DESTROYED else old(stage)
      ensures remoteSock == old(remoteSock)
    {
      destroyed := false;
      if Asked(ready, cb) {
        OnCallback(cb, destroys);
        destroyed := stage == STAGE_DESTROYED;
      }
    }
  }

  function ErrorOf(side: Side): Callback
    requires side != Unknown
  {
    if side == Remote then RemoteError else LocalError
  }

  function ReadOf(side: Side): Callback
    requires side != Unknown
  {
    if side == Remote then RemoteRead else LocalRead
  }

  function WriteOf(side: Side): Callback
    requires side != Unknown
  {
    if side == Remote then RemoteWrite else LocalWrite
  }
}
