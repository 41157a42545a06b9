/** The client object and its event handlers (desktop-shell/js/modules/aisd-client.js). Each handler is
    proved to take the client from one state of AisdState to the next. */
module AisdClient {
  import opened Options
  import opened AisdState
  import opened AisdLaws

  /** What the client uses of the browser: the clock, the timers, and the promises handed out. */
  class Host {
    var now: nat
    var timers: map<nat, Timer>
    var nextTimer: nat
    var nextConn: nat
    var nextCall: nat
    var settled: seq<(nat, Settlement)>

    constructor (now: nat)
      ensures this.now == now && timers == map[] && settled == []
      ensures nextTimer == nextConn == nextCall == 0
    {
      this.now, timers, settled := now, map[], [];
      nextTimer, nextConn, nextCall := 0, 0, 0;
    }

    method SetTimeout(t: Timer) returns (timer: nat)
      modifies this`timers, this`nextTimer
      ensures timer == old(nextTimer) && nextTimer == old(nextTimer) + 1 && timers == old(timers)[timer := t]
    {
      timer := nextTimer;
      timers := timers[timer := t];
      nextTimer := nextTimer + 1;
    }

    method ClearTimeout(timer: nat)
      modifies this`timers
      ensures timers == old(timers) - {timer}
    {
      timers := timers - {timer};
    }

    method SettlePromise(call: nat, how: Settlement)
      modifies this`settled
      ensures settled == old(settled) + [(call, how)]
    {
      settled := settled + [(call, how)];
    }
  }

  /** The next pending request: its timer cleared and its promise rejected. */
  lemma CloseOneMore(timers: map<nat, Timer>, pending: map<nat, Request>, ids: seq<nat>, i: nat)
    requires i < |ids| && ids[i] in pending
    ensures ClearTimers(timers, pending, ids[..i + 1]) ==
      ClearTimers(timers, pending, ids[..i]) - {pending[ids[i]].timer}
    ensures RejectAll(pending, ids[..i + 1]) ==
      RejectAll(pending, ids[..i]) + [(pending[ids[i]].call, Rejected("aisd disconnected"))]
  {
    assert ids[..i + 1] == ids[..i] + [ids[i]];
    assert ids[..i + 1][..i] == ids[..i];
  }

  class Client {
    const host: Host
    var socket: Option<Socket>
    var connected: bool
    var ids: seq<nat>                 // the keys of the pending map, in insertion order
    var pending: map<nat, Request>
    var requestCounter: nat
    var reconnectTimer: Option<nat>

    ghost function Current(): State
      reads this, host
    {
      State(socket, connected, ids, pending, requestCounter, reconnectTimer,
            host.now, host.timers, host.nextTimer, host.nextConn, host.nextCall, host.settled)
    }

    constructor (now: nat, ok: bool)
      ensures Current() == Initial(now, ok) && fresh(host)
    {
      host := new Host(now);
      socket, connected, ids, pending, requestCounter, reconnectTimer := None, false, [], map[], 1, None;
      new;
      Connect(ok);
    }

    /** `ok` tells whether the host lets the socket be created. */
    method Connect(ok: bool)
      modifies this, host
      ensures Current() == AisdState.Connect(old(Current()), ok)
    {
      if socket.Some? && (socket.value.ready == Connecting || socket.value.ready == Open) { return; }
      if !ok {
        ScheduleReconnect();
        return;
      }
      socket := Some(Socket(host.nextConn, Connecting));
      host.nextConn := host.nextConn + 1;
    }

    method ScheduleReconnect()
      modifies this, host
      ensures Current() == AisdState.ScheduleReconnect(old(Current()))
    {
      if reconnectTimer.Some? { return; }
      var timer := host.SetTimeout(ReconnectTimer(host.now + RECONNECT_DELAY_MS));
      reconnectTimer := Some(timer);
    }

    method OnOpen()
      requires socket.Some?
      modifies this, host
      ensures Current() == AisdState.OnOpen(old(Current()))
    {
      socket := Some(socket.value.(ready := Open));
      connected := true;
      if reconnectTimer.Some? {
        host.ClearTimeout(reconnectTimer.value);
        reconnectTimer := None;
      }
    }

    method OnMessage(m: Message)
      modifies this, host
      ensures Current() == AisdState.OnMessage(old(Current()), m)
    {
      if m.Garbage? || m.event != "" { return; }
      if m.id.Some? && m.id.value in pending {
        var request := pending[m.id.value];
        host.ClearTimeout(request.timer);
        pending := pending - {m.id.value};
        ids := Drop(ids, m.id.value);
        host.SettlePromise(request.call, ReplyOf(m));
      }
    }

    method OnClose()
      requires socket.Some? && forall id :: id in ids ==> id in pending
      modifies this, host
      ensures Current() == AisdState.OnClose(old(Current()))
    {
      socket := Some(socket.value.(ready := Closed));
      connected := false;
      for i := 0 to |ids|
        invariant unchanged(this`ids) && unchanged(this`pending) && unchanged(this`requestCounter)
          && unchanged(this`reconnectTimer)
        invariant socket == Some(old(socket.value).(ready := Closed)) && !connected
        invariant unchanged(host`now) && unchanged(host`nextTimer) && unchanged(host`nextConn)
          && unchanged(host`nextCall)
        invariant host.timers == ClearTimers(old(host.timers), pending, ids[..i])
        invariant host.settled == old(host.settled) + RejectAll(pending, ids[..i])
      {
        var request := pending[ids[i]];
        CloseOneMore(old(host.timers), pending, ids, i);
        host.ClearTimeout(request.timer);
        host.SettlePromise(request.call, Rejected("aisd disconnected"));
      }
      assert ids[..|ids|] == ids;
      ids, pending := [], map[];
      ScheduleReconnect();
    }

    /** The callback of an armed timer, run by the host. */
    method OnTimer(timer: nat, ok: bool)
      requires timer in host.timers
      modifies this, host
      ensures Current() == Fire(old(Current()), timer, ok)
    {
      var t := host.timers[timer];
      host.ClearTimeout(timer);
      match t
      case RequestTimer(id, _) =>
        if id in pending {
          var request := pending[id];
          pending := pending - {id};
          ids := Drop(ids, id);
          host.SettlePromise(request.call, Rejected("timed out"));
        }
      case ReconnectTimer(_) =>
        reconnectTimer := None;
        Connect(ok);
    }

    /** The request sent, if one is. */
    method Call() returns (sent: Option<nat>)
      modifies this, host
      ensures Current() == AisdState.Call(old(Current()))
      ensures sent == if old(connected && socket.Some?) then Some(old(requestCounter)) else None
    {
      var call := host.nextCall;
      host.nextCall := call + 1;
      if !connected || socket.None? {
        host.SettlePromise(call, Rejected("aisd not connected"));
        return None;
      }
      var id := requestCounter;
      requestCounter := requestCounter + 1;
      var timer := host.SetTimeout(RequestTimer(id, host.now + REQUEST_TIMEOUT_MS));
      ids := ids + [id];
      pending := pending[id := Request(call, timer, host.now)];
      return Some(id);
    }
  }
}
