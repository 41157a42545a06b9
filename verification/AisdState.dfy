/** The shell's connection to the daemon as a state machine: sockets, timers, calls and promises
    (desktop-shell/js/modules/aisd-client.js). Every step is one event handler or one public call. */
module AisdState {
  import opened Options

  const RECONNECT_DELAY_MS: nat := 3000
  const REQUEST_TIMEOUT_MS: nat := 30000

  type Json = string

  datatype ReadyState = Connecting | Open | Closing | Closed

  datatype Socket = Socket(conn: nat, ready: ReadyState)

  /** What arrives: text that is no JSON object, or the fields that the handler reads. An absent or null id
      is None; an absent event is "". */
  datatype Message =
    | Garbage
    | Parsed(event: string, id: Option<nat>, success: bool, result: Json, error: string)

  datatype Settlement = Resolved(result: Json) | Rejected(error: string)

  /** An entry of the pending table: whose promise it is, its timer, and when the call was made. */
  datatype Request = Request(call: nat, timer: nat, at: nat)

  datatype Timer =
    | RequestTimer(id: nat, due: nat)
    | ReconnectTimer(due: nat)

  /** The fields of the client, then the tables of its host: the clock, the armed timers, the counters of
      sockets and of promises handed out, and how promises were settled, in order. */
  datatype State = State(
    socket: Option<Socket>, connected: bool,
    ids: seq<nat>, pending: map<nat, Request>, counter: nat, reconnectTimer: Option<nat>,
    now: nat, timers: map<nat, Timer>, nextTimer: nat, nextConn: nat, nextCall: nat,
    settled: seq<(nat, Settlement)>)

  predicate Live(s: State)
  {
    s.socket.Some? && s.socket.value.ready != Closed
  }

  /* ---------- transitions ---------- */

  function ScheduleReconnect(s: State): State
  {
    if s.reconnectTimer.Some? then s
    else s.(timers := s.timers[s.nextTimer := ReconnectTimer(s.now + RECONNECT_DELAY_MS)],
            nextTimer := s.nextTimer + 1, reconnectTimer := Some(s.nextTimer))
  }

  /** `ok` is false when the host refuses to create a socket. */
  function Connect(s: State, ok: bool): State
  {
    if s.socket.Some? && (s.socket.value.ready == Connecting || s.socket.value.ready == Open) then s
    else if !ok then ScheduleReconnect(s)
    else s.(socket := Some(Socket(s.nextConn, Connecting)), nextConn := s.nextConn + 1)
  }

  function OnOpen(s: State): State
    requires s.socket.Some?
  {
    var connectedState := s.(socket := Some(s.socket.value.(ready := Open)), connected := true);
    match s.reconnectTimer
    case None => connectedState
    case Some(timer) => connectedState.(timers := s.timers - {timer}, reconnectTimer := None)
  }

  function Settle(s: State, call: nat, how: Settlement): State
  {
    s.(settled := s.settled + [(call, how)])
  }

  function Drop(ids: seq<nat>, id: nat): seq<nat>
  {
    if ids == [] then [] else (if ids[0] == id then [] else [ids[0]]) + Drop(ids[1..], id)
  }

  /** Taking a request off the pending table and its timer off the host's. */
  function Forget(s: State, id: nat): State
    requires id in s.pending
  {
    s.(ids := Drop(s.ids, id), pending := s.pending - {id}, timers := s.timers - {s.pending[id].timer})
  }

  function ReplyOf(m: Message): Settlement
    requires m.Parsed?
  {
    if m.success then Resolved(m.result) else Rejected(if m.error != "" then m.error else "aisd error")
  }

  function OnMessage(s: State, m: Message): State
  {
    if m.Garbage? || m.event != "" then s
    else if m.id.Some? && m.id.value in s.pending then
      Settle(Forget(s, m.id.value), s.pending[m.id.value].call, ReplyOf(m))
    else s
  }

  /** Clearing the timers of some pending requests. */
  function ClearTimers(timers: map<nat, Timer>, pending: map<nat, Request>, ids: seq<nat>): map<nat, Timer>
  {
    timers - set id | id in ids && id in pending :: pending[id].timer
  }

  /** How the promises of some pending requests are settled when the connection is lost. */
  function RejectAll(pending: map<nat, Request>, ids: seq<nat>): seq<(nat, Settlement)>
  {
    if ids == [] then []
    else
      var id := ids[|ids| - 1];
      RejectAll(pending, ids[..|ids| - 1]) +
        if id in pending then [(pending[id].call, Rejected("aisd disconnected"))] else []
  }

  function OnClose(s: State): State
    requires s.socket.Some?
  {
    ScheduleReconnect(
      s.(socket := Some(s.socket.value.(ready := Closed)), connected := false,
         timers := ClearTimers(s.timers, s.pending, s.ids),
         settled := s.settled + RejectAll(s.pending, s.ids),
         ids := [], pending := map[]))
  }

  /** An armed timer goes off: it leaves the host's table and its callback runs. */
  function Fire(s: State, timer: nat, ok: bool): State
    requires timer in s.timers
  {
    var off := s.(timers := s.timers - {timer});
    match s.timers[timer]
    case RequestTimer(id, _) =>
      if id in s.pending then
        Settle(off.(ids := Drop(s.ids, id), pending := s.pending - {id}), s.pending[id].call, Rejected("timed out"))
      else off
    case ReconnectTimer(_) => Connect(off.(reconnectTimer := None), ok)
  }

  function Call(s: State): State
  {
    var call := s.nextCall;
    var asked := s.(nextCall := call + 1);
    if !s.connected || s.socket.None? then Settle(asked, call, Rejected("aisd not connected"))
    else
      asked.(counter := s.counter + 1,
             timers := s.timers[s.nextTimer := RequestTimer(s.counter, s.now + REQUEST_TIMEOUT_MS)],
             nextTimer := s.nextTimer + 1,
             ids := s.ids + [s.counter],
             pending := s.pending[s.counter := Request(call, s.nextTimer, s.now)])
  }

  /* ---------- runs ---------- */

  datatype Event =
    | SocketOpens
    | MessageArrives(m: Message)
    | SocketCloses          // the closing handshake starts
    | SocketClosed          // the close event
    | TimerFires(timer: nat, ok: bool)
    | CallMade
    | TimePasses(ms: nat)

  predicate Enabled(s: State, e: Event)
  {
    match e
    case SocketOpens => s.socket.Some? && s.socket.value.ready == Connecting
    case MessageArrives(_) => s.socket.Some? && s.socket.value.ready == Open
    case SocketCloses => s.socket.Some? && s.socket.value.ready == Open
    case SocketClosed => Live(s)
    case TimerFires(timer, _) => timer in s.timers && s.timers[timer].due <= s.now
    case CallMade => true
    case TimePasses(_) => true
  }

  function Step(s: State, e: Event): State
    requires Enabled(s, e)
  {
    match e
    case SocketOpens => OnOpen(s)
    case MessageArrives(m) => OnMessage(s, m)
    case SocketCloses => s.(socket := Some(s.socket.value.(ready := Closing)))
    case SocketClosed => OnClose(s)
    case TimerFires(timer, ok) => Fire(s, timer, ok)
    case CallMade => Call(s)
    case TimePasses(ms) => s.(now := s.now + ms)
  }

  function Initial(now: nat, ok: bool): State
  {
    Connect(State(None, false, [], map[], 1, None, now, map[], 0, 0, 0, []), ok)
  }

  ghost predicate Leads(before: State, e: Event, after: State)
  {
    && Enabled(before, e)
    && after == Step(before, e)
  }

  /** A run from the moment the client is created: the states it passes through and the events between. */
  ghost predicate IsRun(states: seq<State>, events: seq<Event>)
  {
    && |states| == |events| + 1
    && (exists now: nat, ok :: states[0] == Initial(now, ok))
    && forall i :: 0 <= i < |events| ==> LeadsAt(states, events, i)
  }

  ghost predicate LeadsAt(states: seq<State>, events: seq<Event>, i: nat)
    requires i < |events| && |states| == |events| + 1
  {
    Leads(states[i], events[i], states[i + 1])
  }

  /* ---------- what every reachable state satisfies ---------- */

  ghost predicate CallSettled(settled: seq<(nat, Settlement)>, call: nat)
  {
    exists i :: 0 <= i < |settled| && settled[i].0 == call
  }

  ghost predicate CallPending(pending: map<nat, Request>, call: nat)
  {
    exists id :: id in pending && pending[id].call == call
  }

  /** The pending table: ids below the counter, in the order in which they were given out. */
  ghost predicate TableInv(ids: seq<nat>, pending: map<nat, Request>, counter: nat)
  {
    && counter >= 1
    && (forall id :: id in ids <==> id in pending)
    && (forall i, j :: 0 <= i < j < |ids| ==> ids[i] < ids[j])
    && (forall id :: id in pending ==> id < counter)
  }

  /** Pending requests and armed request timers correspond one to one. */
  ghost predicate TimerInv(timers: map<nat, Timer>, nextTimer: nat, pending: map<nat, Request>, now: nat)
  {
    && (forall timer :: timer in timers ==> timer < nextTimer)
    && (forall id :: id in pending ==>
          && pending[id].timer in timers
          && timers[pending[id].timer] == RequestTimer(id, pending[id].at + REQUEST_TIMEOUT_MS)
          && pending[id].at <= now)
    && (forall timer :: timer in timers && timers[timer].RequestTimer? ==>
          timers[timer].id in pending && pending[timers[timer].id].timer == timer)
  }

  /** The reconnect timer, if any, is the one that the client remembers. */
  ghost predicate ReconnectInv(timers: map<nat, Timer>, reconnectTimer: Option<nat>)
  {
    forall timer :: timer in timers && timers[timer].ReconnectTimer? <==> reconnectTimer == Some(timer)
  }

  /** The client has a live socket or an armed reconnect timer, never both and never neither. */
  ghost predicate ConnectionInv(s: State)
  {
    && (Live(s) <==> s.reconnectTimer.None?)
    && (s.connected <==> s.socket.Some? && (s.socket.value.ready == Open || s.socket.value.ready == Closing))
    && (s.socket.Some? ==> s.socket.value.conn < s.nextConn)
    && (!s.connected ==> s.ids == [])
  }

  /** Every promise handed out is pending or settled, never both, and settled at most once. */
  ghost predicate PromiseInv(pending: map<nat, Request>, settled: seq<(nat, Settlement)>, nextCall: nat)
  {
    && (forall i, j :: 0 <= i < j < |settled| ==> settled[i].0 != settled[j].0)
    && (forall i, j :: i in pending && j in pending && i != j ==> pending[i].call != pending[j].call)
    && (forall id, i :: id in pending && 0 <= i < |settled| ==> settled[i].0 != pending[id].call)
    && (forall call: nat :: CallSettled(settled, call) || CallPending(pending, call) <==> call < nextCall)
  }

  ghost predicate Inv(s: State)
  {
    && TableInv(s.ids, s.pending, s.counter)
    && TimerInv(s.timers, s.nextTimer, s.pending, s.now)
    && ReconnectInv(s.timers, s.reconnectTimer)
    && ConnectionInv(s)
    && PromiseInv(s.pending, s.settled, s.nextCall)
  }
}
