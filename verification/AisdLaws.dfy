/** Every run of the client keeps its tables consistent and its promises accounted for. */
module AisdLaws {
  import opened Options
  import opened AisdState

  /* ---------- the pending table and the timers ---------- */

  lemma {:induction false} DropMembers(ids: seq<nat>, id: nat)
    ensures forall x :: x in Drop(ids, id) <==> x in ids && x != id
  {
    if ids != [] { DropMembers(ids[1..], id); }
  }

  lemma {:induction false} DropAscending(ids: seq<nat>, id: nat)
    requires forall i, j :: 0 <= i < j < |ids| ==> ids[i] < ids[j]
    ensures forall i, j :: 0 <= i < j < |Drop(ids, id)| ==> Drop(ids, id)[i] < Drop(ids, id)[j]
  {
    if ids != [] {
      var rest := Drop(ids[1..], id);
      DropAscending(ids[1..], id);
      DropMembers(ids[1..], id);
      forall j | 0 <= j < |rest| ensures ids[0] < rest[j] {
        assert rest[j] in ids[1..];
      }
    }
  }

  /** A request leaves the pending table together with its timer. */
  lemma ForgetTables(ids: seq<nat>, pending: map<nat, Request>, counter: nat, timers: map<nat, Timer>, nextTimer: nat,
                     now: nat, id: nat)
    requires TableInv(ids, pending, counter) && TimerInv(timers, nextTimer, pending, now) && id in pending
    ensures TableInv(Drop(ids, id), pending - {id}, counter)
    ensures TimerInv(timers - {pending[id].timer}, nextTimer, pending - {id}, now)
  {
    DropMembers(ids, id);
    DropAscending(ids, id);
  }

  /** A request enters the pending table together with its timer. */
  lemma RememberTables(ids: seq<nat>, pending: map<nat, Request>, counter: nat, timers: map<nat, Timer>, nextTimer: nat,
                       r: Request, pending': map<nat, Request>, timers': map<nat, Timer>)
    requires TableInv(ids, pending, counter) && TimerInv(timers, nextTimer, pending, r.at) && r.timer == nextTimer
    requires pending' == pending[counter := r]
    requires timers' == timers[nextTimer := RequestTimer(counter, r.at + REQUEST_TIMEOUT_MS)]
    ensures TableInv(ids + [counter], pending', counter + 1)
    ensures TimerInv(timers', nextTimer + 1, pending', r.at)
  {
    forall i | 0 <= i < |ids| ensures ids[i] < counter { assert ids[i] in ids; }
    RememberTimer(pending, timers, nextTimer, counter, r, pending', timers');
  }

  lemma RememberTimer(pending: map<nat, Request>, timers: map<nat, Timer>, nextTimer: nat, id: nat, r: Request,
                      pending': map<nat, Request>, timers': map<nat, Timer>)
    requires TimerInv(timers, nextTimer, pending, r.at) && r.timer == nextTimer && id !in pending
    requires pending' == pending[id := r]
    requires timers' == timers[nextTimer := RequestTimer(id, r.at + REQUEST_TIMEOUT_MS)]
    ensures TimerInv(timers', nextTimer + 1, pending', r.at)
  {
    forall timer | timer in timers' && timers'[timer].RequestTimer?
      ensures timers'[timer].id in pending' && pending'[timers'[timer].id].timer == timer
    {
      if timer != nextTimer { assert timer in timers && timers[timer] == timers'[timer]; }
    }
  }

  /* ---------- promises ---------- */

  /** One promise changes from pending to settled. */
  lemma SettleOne(pending: map<nat, Request>, settled: seq<(nat, Settlement)>, nextCall: nat, id: nat, how: Settlement)
    requires PromiseInv(pending, settled, nextCall) && id in pending
    ensures PromiseInv(pending - {id}, settled + [(pending[id].call, how)], nextCall)
  {
    var call := pending[id].call;
    var pending', settled' := pending - {id}, settled + [(call, how)];
    forall c: nat ensures CallSettled(settled', c) || CallPending(pending', c) <==> c < nextCall {
      assert CallSettled(settled, c) || CallPending(pending, c) <==> c < nextCall;
      SettledLonger(settled, (call, how), c);
      if CallPending(pending, c) && c != call {
        var j :| j in pending && pending[j].call == c;
        assert j in pending';
      }
      if c == call { assert CallPending(pending, c); }
      if CallPending(pending', c) {
        var j :| j in pending' && pending'[j].call == c;
        assert j in pending;
      }
    }
  }

  lemma SettledLonger(settled: seq<(nat, Settlement)>, last: (nat, Settlement), call: nat)
    ensures CallSettled(settled + [last], call) <==> CallSettled(settled, call) || call == last.0
  {
    var longer := settled + [last];
    if CallSettled(settled, call) {
      var i :| 0 <= i < |settled| && settled[i].0 == call;
      assert longer[i].0 == call;
    }
    if CallSettled(longer, call) && call != last.0 {
      var i :| 0 <= i < |longer| && longer[i].0 == call;
      assert settled[i].0 == call;
    }
    assert longer[|settled|] == last;
  }

  /** A promise handed out with a new request. */
  lemma NewPending(pending: map<nat, Request>, settled: seq<(nat, Settlement)>, nextCall: nat, id: nat, r: Request)
    requires PromiseInv(pending, settled, nextCall) && id !in pending && r.call == nextCall
    ensures PromiseInv(pending[id := r], settled, nextCall + 1)
  {
    var pending' := pending[id := r];
    assert !CallSettled(settled, nextCall) && !CallPending(pending, nextCall);
    forall c: nat ensures CallSettled(settled, c) || CallPending(pending', c) <==> c < nextCall + 1 {
      assert CallSettled(settled, c) || CallPending(pending, c) <==> c < nextCall;
      if CallPending(pending, c) {
        var j :| j in pending && pending[j].call == c;
        assert j in pending' && pending'[j].call == c;
      }
      assert id in pending' && pending'[id].call == nextCall;
      if CallPending(pending', c) && c != nextCall {
        var j :| j in pending' && pending'[j].call == c;
        assert j in pending;
      }
    }
  }

  /** A promise that is rejected at once. */
  lemma NewSettled(pending: map<nat, Request>, settled: seq<(nat, Settlement)>, nextCall: nat, how: Settlement)
    requires PromiseInv(pending, settled, nextCall)
    ensures PromiseInv(pending, settled + [(nextCall, how)], nextCall + 1)
  {
    assert !CallSettled(settled, nextCall) && !CallPending(pending, nextCall);
    forall c: nat ensures CallSettled(settled + [(nextCall, how)], c) || CallPending(pending, c) <==> c < nextCall + 1 {
      assert CallSettled(settled, c) || CallPending(pending, c) <==> c < nextCall;
      SettledLonger(settled, (nextCall, how), c);
    }
  }

  /* ---------- steps ---------- */

  lemma InitialInv(now: nat, ok: bool)
    ensures Inv(Initial(now, ok))
  {
    assert forall call: nat :: !CallSettled([], call) && !CallPending(map[], call);
  }

  lemma MessageInv(s: State, m: Message)
    requires Inv(s) && s.connected
    ensures Inv(OnMessage(s, m))
  {
    if m.Parsed? && m.event == "" && m.id.Some? && m.id.value in s.pending {
      var id := m.id.value;
      ForgetTables(s.ids, s.pending, s.counter, s.timers, s.nextTimer, s.now, id);
      SettleOne(s.pending, s.settled, s.nextCall, id, ReplyOf(m));
    }
  }

  lemma TimeoutInv(s: State, timer: nat, ok: bool)
    requires Inv(s) && timer in s.timers && s.timers[timer].RequestTimer?
    ensures Inv(Fire(s, timer, ok))
  {
    var id := s.timers[timer].id;
    ForgetTables(s.ids, s.pending, s.counter, s.timers, s.nextTimer, s.now, id);
    SettleOne(s.pending, s.settled, s.nextCall, id, Rejected("timed out"));
    assert id in s.ids;
  }

  lemma ReconnectFires(s: State, timer: nat, ok: bool)
    requires Inv(s) && timer in s.timers && s.timers[timer].ReconnectTimer?
    ensures Inv(Fire(s, timer, ok))
  {
  }

  lemma CallInv(s: State)
    requires Inv(s)
    ensures Inv(Call(s))
  {
    if s.connected { SentInv(s); } else { RefusedInv(s); }
  }

  lemma SentInv(s: State)
    requires Inv(s) && s.connected
    ensures Inv(Call(s))
  {
    SentTables(s);
    SentFields(s);
    KeepsReconnect(s.timers, s.nextTimer, s.pending, s.now, s.reconnectTimer, Call(s).timers[s.nextTimer]);
    NewPending(s.pending, s.settled, s.nextCall, s.counter, Request(s.nextCall, s.nextTimer, s.now));
  }

  lemma SentTables(s: State)
    requires TableInv(s.ids, s.pending, s.counter) && TimerInv(s.timers, s.nextTimer, s.pending, s.now)
    requires s.connected && s.socket.Some?
    ensures var c := Call(s);
      TableInv(c.ids, c.pending, c.counter) && TimerInv(c.timers, c.nextTimer, c.pending, c.now)
  {
    var r, c := Request(s.nextCall, s.nextTimer, s.now), Call(s);
    SentFields(s);
    RememberTables(s.ids, s.pending, s.counter, s.timers, s.nextTimer, r, c.pending, c.timers);
  }

  lemma SentFields(s: State)
    requires s.connected && s.socket.Some?
    ensures var c, t := Call(s), RequestTimer(s.counter, s.now + REQUEST_TIMEOUT_MS);
      && c.ids == s.ids + [s.counter] && c.counter == s.counter + 1
      && c.pending == s.pending[s.counter := Request(s.nextCall, s.nextTimer, s.now)]
      && c.timers == s.timers[s.nextTimer := t] && c.nextTimer == s.nextTimer + 1
      && c.reconnectTimer == s.reconnectTimer && c.now == s.now
  {
  }

  lemma RefusedInv(s: State)
    requires Inv(s) && !s.connected
    ensures Inv(Call(s))
  {
    NewSettled(s.pending, s.settled, s.nextCall, Rejected("aisd not connected"));
  }

  lemma KeepsReconnect(timers: map<nat, Timer>, nextTimer: nat, pending: map<nat, Request>, now: nat,
                       reconnectTimer: Option<nat>, t: Timer)
    requires TimerInv(timers, nextTimer, pending, now) && ReconnectInv(timers, reconnectTimer) && t.RequestTimer?
    ensures ReconnectInv(timers[nextTimer := t], reconnectTimer)
  {
  }

  /* ---------- close ---------- */

  lemma {:induction false} RejectAllAt(pending: map<nat, Request>, ids: seq<nat>)
    requires forall id :: id in ids ==> id in pending
    ensures |RejectAll(pending, ids)| == |ids|
    ensures forall i :: 0 <= i < |ids| ==>
      RejectAll(pending, ids)[i] == (pending[ids[i]].call, Rejected("aisd disconnected"))
  {
    if ids != [] { RejectAllAt(pending, ids[..|ids| - 1]); }
  }

  /** All pending promises become settled. */
  lemma SettleAll(pending: map<nat, Request>, ids: seq<nat>, counter: nat, settled: seq<(nat, Settlement)>,
                  nextCall: nat)
    requires PromiseInv(pending, settled, nextCall) && TableInv(ids, pending, counter)
    ensures PromiseInv(map[], settled + RejectAll(pending, ids), nextCall)
  {
    var more := RejectAll(pending, ids);
    var log := settled + more;
    RejectAllAt(pending, ids);
    forall k | 0 <= k < |ids| ensures more[k].0 == pending[ids[k]].call && ids[k] in pending {
      assert ids[k] in ids;
    }
    forall i, j | 0 <= i < j < |log| ensures log[i].0 != log[j].0 {
      if j >= |settled| {
        assert more[j - |settled|] == log[j];
        if i >= |settled| { assert more[i - |settled|] == log[i]; }
      }
    }
    forall c: nat ensures CallSettled(log, c) || CallPending(map[], c) <==> c < nextCall {
      assert CallSettled(settled, c) || CallPending(pending, c) <==> c < nextCall;
      if CallSettled(settled, c) {
        var i :| 0 <= i < |settled| && settled[i].0 == c;
        assert log[i].0 == c;
      } else if CallPending(pending, c) {
        var id :| id in pending && pending[id].call == c;
        assert id in ids;
        var k :| 0 <= k < |ids| && ids[k] == id;
        assert log[|settled| + k].0 == c;
      }
      if CallSettled(log, c) {
        var i :| 0 <= i < |log| && log[i].0 == c;
        if i < |settled| { assert settled[i].0 == c; } else { assert more[i - |settled|].0 == c; }
      }
    }
  }

  /** While the socket lives, the only armed timers are those of pending requests. */
  lemma AllTimersCleared(timers: map<nat, Timer>, nextTimer: nat, pending: map<nat, Request>, ids: seq<nat>,
                         counter: nat, now: nat)
    requires TimerInv(timers, nextTimer, pending, now) && ReconnectInv(timers, None) && TableInv(ids, pending, counter)
    ensures ClearTimers(timers, pending, ids) == map[]
  {
    forall timer | timer in timers ensures exists id :: id in ids && pending[id].timer == timer {
      assert timers[timer].RequestTimer?;
      assert timers[timer].id in ids;
    }
  }

  /** After a close no request and no request timer is left, and the reconnect timer is armed. */
  lemma CloseInv(s: State)
    requires Inv(s) && Live(s)
    ensures Inv(OnClose(s)) && OnClose(s).pending == map[] && OnClose(s).reconnectTimer.Some?
  {
    SettleAll(s.pending, s.ids, s.counter, s.settled, s.nextCall);
    AllTimersCleared(s.timers, s.nextTimer, s.pending, s.ids, s.counter, s.now);
  }

  /** A close rejects every pending promise. */
  lemma CloseRejects(s: State, id: nat)
    requires Inv(s) && Live(s) && id in s.pending
    ensures (s.pending[id].call, Rejected("aisd disconnected")) in OnClose(s).settled
  {
    RejectAllAt(s.pending, s.ids);
    assert id in s.ids;
    var i :| 0 <= i < |s.ids| && s.ids[i] == id;
    var log := s.settled + RejectAll(s.pending, s.ids);
    assert log[|s.settled| + i] == RejectAll(s.pending, s.ids)[i];
    assert OnClose(s).settled == log;
  }

  /* ---------- who is settled, by what, and how ---------- */

  /** This event settles this promise in this way. */
  ghost predicate Settles(s: State, e: Event, call: nat, how: Settlement)
    requires Enabled(s, e)
  {
    match e
    case CallMade => (!s.connected || s.socket.None?) && call == s.nextCall && how == Rejected("aisd not connected")
    case MessageArrives(m) =>
      && m.Parsed? && m.event == "" && m.id.Some? && m.id.value in s.pending && call == s.pending[m.id.value].call
      && how == (if m.success then Resolved(m.result)
                 else if m.error == "" then Rejected("aisd error") else Rejected(m.error))
    case TimerFires(timer, _) =>
      && s.timers[timer].RequestTimer? && s.timers[timer].id in s.pending
      && call == s.pending[s.timers[timer].id].call && how == Rejected("timed out")
      && s.pending[s.timers[timer].id].at + 30000 <= s.now
    case SocketClosed => CallPending(s.pending, call) && how == Rejected("aisd disconnected")
    case _ => false
  }

  /** What a step adds to the log is exactly what its event settles. */
  ghost predicate LogGrows(s: State, e: Event, after: seq<(nat, Settlement)>)
    requires Enabled(s, e)
  {
    && s.settled <= after
    && forall entry :: entry in after[|s.settled|..] <==> Settles(s, e, entry.0, entry.1)
  }

  lemma NoneSettled(s: State, e: Event)
    requires Enabled(s, e) && forall call: nat, how :: !Settles(s, e, call, how)
    ensures LogGrows(s, e, s.settled)
  {
  }

  lemma OneSettled(s: State, e: Event, call: nat, how: Settlement)
    requires Enabled(s, e) && forall c: nat, h :: Settles(s, e, c, h) <==> c == call && h == how
    ensures LogGrows(s, e, s.settled + [(call, how)])
  {
    assert (s.settled + [(call, how)])[|s.settled|..] == [(call, how)];
  }

  lemma AllRejected(pending: map<nat, Request>, ids: seq<nat>, call: nat, how: Settlement)
    requires forall id :: id in ids <==> id in pending
    ensures (call, how) in RejectAll(pending, ids) <==>
      CallPending(pending, call) && how == Rejected("aisd disconnected")
  {
    var more := RejectAll(pending, ids);
    RejectAllAt(pending, ids);
    if (call, how) in more {
      var i :| 0 <= i < |more| && more[i] == (call, how);
      assert ids[i] in ids && pending[ids[i]].call == call;
    }
    if CallPending(pending, call) {
      var id :| id in pending && pending[id].call == call;
      assert id in ids;
      var i :| 0 <= i < |ids| && ids[i] == id;
      assert more[i] == (call, Rejected("aisd disconnected"));
    }
  }

  lemma AllSettled(s: State, e: Event)
    requires Enabled(s, e) && e.SocketClosed? && TableInv(s.ids, s.pending, s.counter)
    ensures LogGrows(s, e, s.settled + RejectAll(s.pending, s.ids))
  {
    var more := RejectAll(s.pending, s.ids);
    assert (s.settled + more)[|s.settled|..] == more;
    forall entry: (nat, Settlement) ensures entry in more <==> Settles(s, e, entry.0, entry.1) {
      AllRejected(s.pending, s.ids, entry.0, entry.1);
    }
  }

  /** A call without a connection is rejected at once; a response settles the promise of its id, as resolved with the
      result exactly if it reports success; a timer rejects a call thirty seconds old, a close all that are pending; and
      nothing else settles anything. */
  lemma StepSettles(s: State, e: Event)
    requires Inv(s) && Enabled(s, e)
    ensures LogGrows(s, e, Step(s, e).settled)
  {
    match e
    case CallMade =>
      if !s.connected { OneSettled(s, e, s.nextCall, Rejected("aisd not connected")); } else { NoneSettled(s, e); }
    case MessageArrives(m) =>
      if m.Parsed? && m.event == "" && m.id.Some? && m.id.value in s.pending {
        OneSettled(s, e, s.pending[m.id.value].call, ReplyOf(m));
      } else {
        NoneSettled(s, e);
      }
    case TimerFires(timer, _) =>
      if s.timers[timer].RequestTimer? {
        OneSettled(s, e, s.pending[s.timers[timer].id].call, Rejected("timed out"));
      } else {
        NoneSettled(s, e);
      }
    case SocketClosed => AllSettled(s, e);
    case _ => NoneSettled(s, e);
  }

  /** A call with a connection is pending from now on, under an id not used before. */
  lemma CallIsPending(s: State)
    requires Inv(s) && s.connected
    ensures var c := Call(s);
      && s.counter !in s.pending && c.pending.Keys == s.pending.Keys + {s.counter}
      && c.pending[s.counter].call == s.nextCall && c.pending[s.counter].at == s.now
  {
  }

  /** A client that is created, or whose reconnect timer goes off, has a new socket that is connecting, or if the host
      refuses one, a reconnect timer for three seconds; and a socket that was connecting can open. */
  lemma ConnectsAgain(s: State, timer: nat, ok: bool)
    requires Inv(s) && timer in s.timers && s.timers[timer].ReconnectTimer?
    ensures var c := Fire(s, timer, ok);
      if ok then c.socket == Some(Socket(s.nextConn, Connecting)) && c.reconnectTimer == None
      else
        && c.socket == s.socket && c.reconnectTimer.Some? && c.reconnectTimer.value in c.timers
        && c.timers[c.reconnectTimer.value] == ReconnectTimer(s.now + 3000)
    ensures Initial(s.now, true).socket == Some(Socket(0, Connecting))
    ensures s.socket.Some? ==> OnOpen(s).socket == Some(Socket(s.socket.value.conn, Open)) && OnOpen(s).connected
  {
  }

  /** A step arms request timers for thirty seconds and reconnect timers for three. */
  lemma StepArms(s: State, e: Event, timer: nat)
    requires Inv(s) && Enabled(s, e) && timer in Step(s, e).timers && timer !in s.timers
    ensures Step(s, e).timers[timer].due == s.now + if Step(s, e).timers[timer].RequestTimer? then 30000 else 3000
  {
  }

  /* ---------- runs ---------- */

  lemma StepInv(s: State, e: Event)
    requires Inv(s) && Enabled(s, e)
    ensures Inv(Step(s, e))
  {
    match e
    case SocketOpens =>
    case MessageArrives(m) => MessageInv(s, m);
    case SocketCloses =>
    case SocketClosed => CloseInv(s);
    case TimerFires(timer, ok) =>
      if s.timers[timer].RequestTimer? { TimeoutInv(s, timer, ok); } else { ReconnectFires(s, timer, ok); }
    case CallMade => CallInv(s);
    case TimePasses(_) =>
  }

  lemma LeadsKeepsInv(before: State, e: Event, after: State)
    requires Inv(before) && Leads(before, e, after)
    ensures Inv(after)
  {
    StepInv(before, e);
  }

  lemma LeadsGrows(before: State, e: Event, after: State)
    requires Leads(before, e, after)
    ensures before.settled <= after.settled
  {
  }

  /** In every state of every run: pending requests and armed request timers correspond one to one, ids are
      distinct and below the counter, every promise is pending or settled exactly once, and there is
      either a live socket or an armed reconnect timer. */
  lemma {:induction false} RunsKeepInv(states: seq<State>, events: seq<Event>, n: nat)
    requires IsRun(states, events) && n < |states|
    ensures Inv(states[n])
    decreases n
  {
    if n == 0 {
      var now: nat, ok :| states[0] == Initial(now, ok);
      InitialInv(now, ok);
    } else {
      RunsKeepInv(states, events, n - 1);
      assert LeadsAt(states, events, n - 1);
      LeadsKeepsInv(states[n - 1], events[n - 1], states[n]);
    }
  }

  /** Once all due timers have run, no request has been pending for thirty seconds. */
  lemma DeadlinesKept(states: seq<State>, events: seq<Event>, n: nat, id: nat)
    requires IsRun(states, events) && n < |states| && id in states[n].pending
    requires forall timer :: timer in states[n].timers ==> states[n].now < states[n].timers[timer].due
    ensures states[n].pending[id].at <= states[n].now < states[n].pending[id].at + 30000
  {
    RunsKeepInv(states, events, n);
  }

  /** Promises are settled for good: the log of settlements only grows along a run, and it never settles
      one promise twice. */
  lemma {:induction false} SettledForGood(states: seq<State>, events: seq<Event>, m: nat, n: nat)
    requires IsRun(states, events) && m <= n < |states|
    ensures states[m].settled <= states[n].settled
    ensures forall i, j :: 0 <= i < j < |states[n].settled| ==> states[n].settled[i].0 != states[n].settled[j].0
    decreases n
  {
    RunsKeepInv(states, events, n);
    if m < n {
      SettledForGood(states, events, m, n - 1);
      assert LeadsAt(states, events, n - 1);
      LeadsGrows(states[n - 1], events[n - 1], states[n]);
    }
  }
}
