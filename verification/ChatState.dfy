/** Conversation histories under concurrent chats. A chat holds the lock while it trims and reads the
    history and again while it appends to it, but not in between (aisd/src/inference/mod.rs). */
module ChatState {

  datatype Turn = Turn(role: string, content: string)

  type History = seq<Turn>
  type Conversations = map<string, History>

  const LIMIT := 20

  function HistoryOf(conversations: Conversations, session: string): History
  {
    if session in conversations then conversations[session] else []
  }

  function Trim(h: History): History
  {
    if |h| > LIMIT then h[|h| - LIMIT..] else h
  }

  function Exchange(prompt: string, response: string): History
  {
    [Turn("user", prompt), Turn("assistant", response)]
  }

  /* ---------- the daemon as a state machine ---------- */

  /** A chat between its two critical sections. */
  datatype Flight = Flight(session: string, prompt: string)

  /** What was asked, and what was answered. */
  type Pair = (string, string)

  /** `completed` records, per session, every exchange completed since the last clear. */
  datatype Daemon = Daemon(conversations: Conversations, flights: map<nat, Flight>, next: nat,
                           completed: map<string, seq<Pair>>)

  function PairsOf(completed: map<string, seq<Pair>>, session: string): seq<Pair>
  {
    if session in completed then completed[session] else []
  }

  datatype Action =
    | Begin(session: string, prompt: string)
    | Finish(flight: nat, response: string)
    | Fail(flight: nat)
    | Clear(session: string)

  predicate Can(d: Daemon, a: Action)
  {
    match a
    case Begin(_, _) => true
    case Finish(flight, _) => flight in d.flights
    case Fail(flight) => flight in d.flights
    case Clear(_) => true
  }

  function Act(d: Daemon, a: Action): Daemon
    requires Can(d, a)
  {
    match a
    case Begin(session, prompt) =>
      d.(conversations := d.conversations[session := Trim(HistoryOf(d.conversations, session))],
         flights := d.flights[d.next := Flight(session, prompt)],
         next := d.next + 1)
    case Finish(flight, response) =>
      var f := d.flights[flight];
      d.(conversations :=
           d.conversations[f.session := HistoryOf(d.conversations, f.session) + Exchange(f.prompt, response)],
         flights := d.flights - {flight},
         completed := d.completed[f.session := PairsOf(d.completed, f.session) + [(f.prompt, response)]])
    case Fail(flight) => d.(flights := d.flights - {flight})
    case Clear(session) => d.(conversations := d.conversations - {session}, completed := d.completed - {session})
  }

  function Start(): Daemon
  {
    Daemon(map[], map[], 0, map[])
  }

  ghost function InFlight(d: Daemon, session: string): nat
  {
    |FlightsOf(d.flights, session)|
  }

  ghost function FlightsOf(flights: map<nat, Flight>, session: string): set<nat>
  {
    set f | f in flights && flights[f].session == session
  }

  /** A run in which no session ever has more than k chats in flight. */
  ghost predicate IsRun(states: seq<Daemon>, actions: seq<Action>, k: nat)
  {
    && |states| == |actions| + 1
    && states[0] == Start()
    && (forall i :: 0 <= i < |actions| ==> Can(states[i], actions[i]) && states[i + 1] == Act(states[i], actions[i]))
    && (forall i, session :: 0 <= i < |states| ==> InFlight(states[i], session) <= k)
  }

  /* ---------- what holds throughout ---------- */

  /** Exchanges as turns: each a user turn followed by the assistant's. */
  function Turns(pairs: seq<Pair>): (h: History)
    ensures |h| == 2 * |pairs|
  {
    if pairs == [] then []
    else [Turn("user", pairs[0].0), Turn("assistant", pairs[0].1)] + Turns(pairs[1..])
  }

  function Latest(pairs: seq<Pair>, n: nat): seq<Pair>
  {
    if n <= |pairs| then pairs[|pairs| - n..] else pairs
  }

  /** The history is the turns of the latest exchanges completed since the last clear, of all of them or of at least
      the last ten. */
  ghost predicate SessionInv(h: History, all: seq<Pair>)
  {
    var n := |h| / 2;
    n <= |all| && h == Turns(Latest(all, n)) && (n == |all| || n >= 10)
  }

  ghost predicate Inv(d: Daemon, k: nat)
  {
    && (forall f :: f in d.flights ==> f < d.next)
    && (forall session :: HistoryInv(d, session))
    && (forall session :: LengthInv(d, k, session))
  }

  lemma {:induction false} TurnsConcat(a: seq<Pair>, b: seq<Pair>)
    ensures Turns(a + b) == Turns(a) + Turns(b)
  {
    if a == [] {
      assert a + b == b;
    } else {
      assert (a + b)[1..] == a[1..] + b;
      TurnsConcat(a[1..], b);
    }
  }

  lemma LatestTurns(all: seq<Pair>, m: nat, n: nat)
    requires m <= n <= |all|
    ensures Turns(Latest(all, n))[2 * n - 2 * m..] == Turns(Latest(all, m))
  {
    var older, newer := Latest(all, n)[..n - m], Latest(all, m);
    assert Latest(all, n) == older + newer;
    TurnsConcat(older, newer);
  }

  /** What a chat that begins reads: the turns of the last ten exchanges, or of all of them. */
  lemma TrimInv(h: History, all: seq<Pair>)
    requires SessionInv(h, all)
    ensures SessionInv(Trim(h), all) && Trim(h) == Turns(Latest(all, 10))
  {
    var n := |h| / 2;
    if n > 10 {
      LatestTurns(all, 10, n);
      assert Trim(h) == Turns(Latest(all, 10));
    } else {
      assert Latest(all, n) == Latest(all, 10);
    }
  }

  lemma TurnsOfOne(prompt: string, response: string)
    ensures Turns([(prompt, response)]) == Exchange(prompt, response)
  {
    assert [(prompt, response)][1..] == [];
  }

  lemma LatestAppended(all: seq<Pair>, n: nat, p: Pair)
    requires n <= |all|
    ensures Latest(all + [p], n + 1) == Latest(all, n) + [p]
  {
  }

  lemma AppendInv(h: History, all: seq<Pair>, prompt: string, response: string)
    requires SessionInv(h, all)
    ensures SessionInv(h + Exchange(prompt, response), all + [(prompt, response)])
  {
    var n, p := |h| / 2, (prompt, response);
    LatestAppended(all, n, p);
    TurnsConcat(Latest(all, n), [p]);
    TurnsOfOne(prompt, response);
  }

  lemma EmptyInv()
    ensures SessionInv([], [])
  {
    assert Latest([], 0) == [];
  }

  lemma OneMore(flights: map<nat, Flight>, f: nat, flight: Flight, session: string)
    requires f !in flights
    ensures |FlightsOf(flights[f := flight], session)| ==
      |FlightsOf(flights, session)| + if flight.session == session then 1 else 0
  {
    var after := FlightsOf(flights[f := flight], session);
    if flight.session == session {
      assert after == FlightsOf(flights, session) + {f};
    } else {
      assert after == FlightsOf(flights, session);
    }
  }

  lemma OneLess(flights: map<nat, Flight>, f: nat, session: string)
    requires f in flights
    ensures |FlightsOf(flights - {f}, session)| + (if flights[f].session == session then 1 else 0) ==
      |FlightsOf(flights, session)|
  {
    OneMore(flights - {f}, f, flights[f], session);
    assert (flights - {f})[f := flights[f]] == flights;
  }

  ghost predicate LengthInv(d: Daemon, k: nat, session: string)
  {
    |HistoryOf(d.conversations, session)| + 2 * InFlight(d, session) <= LIMIT + 2 * k
  }

  ghost predicate HistoryInv(d: Daemon, session: string)
  {
    SessionInv(HistoryOf(d.conversations, session), PairsOf(d.completed, session))
  }

  /** What an action makes of a session's history and of its completed exchanges. */
  ghost predicate Becomes(h: History, all: seq<Pair>, h': History, all': seq<Pair>)
  {
    || (h' == h && all' == all)
    || (h' == Trim(h) && all' == all)
    || (h' == [] && all' == [])
    || (|all'| == |all| + 1 && all' == all + [all'[|all|]] && h' == h + Exchange(all'[|all|].0, all'[|all|].1))
  }

  lemma ActBecomes(d: Daemon, a: Action, session: string)
    requires Can(d, a)
    ensures Becomes(HistoryOf(d.conversations, session), PairsOf(d.completed, session),
                    HistoryOf(Act(d, a).conversations, session), PairsOf(Act(d, a).completed, session))
  {
  }

  lemma BecomesInv(h: History, all: seq<Pair>, h': History, all': seq<Pair>)
    requires SessionInv(h, all) && Becomes(h, all, h', all')
    ensures SessionInv(h', all')
  {
    if h' == Trim(h) && all' == all {
      TrimInv(h, all);
    } else if h' == [] && all' == [] {
      EmptyInv();
    } else if h' != h || all' != all {
      AppendInv(h, all, all'[|all|].0, all'[|all|].1);
    }
  }

  lemma ActHistory(d: Daemon, a: Action, session: string)
    requires Can(d, a) && HistoryInv(d, session)
    ensures HistoryInv(Act(d, a), session)
  {
    ActBecomes(d, a, session);
    BecomesInv(HistoryOf(d.conversations, session), PairsOf(d.completed, session),
               HistoryOf(Act(d, a).conversations, session), PairsOf(Act(d, a).completed, session));
  }

  lemma ActLength(d: Daemon, a: Action, k: nat, session: string)
    requires Can(d, a) && LengthInv(d, k, session) && d.next !in d.flights
    requires InFlight(Act(d, a), session) <= k
    ensures LengthInv(Act(d, a), k, session)
  {
    match a
    case Begin(_, prompt) => OneMore(d.flights, d.next, Flight(a.session, prompt), session);
    case Finish(flight, _) => OneLess(d.flights, flight, session);
    case Fail(flight) => OneLess(d.flights, flight, session);
    case Clear(_) =>
  }

  lemma ActInv(d: Daemon, a: Action, k: nat)
    requires Inv(d, k) && Can(d, a) && forall session :: InFlight(Act(d, a), session) <= k
    ensures Inv(Act(d, a), k)
  {
    forall session ensures HistoryInv(Act(d, a), session) && LengthInv(Act(d, a), k, session) {
      assert HistoryInv(d, session) && LengthInv(d, k, session);
      ActHistory(d, a, session);
      ActLength(d, a, k, session);
    }
  }

  lemma StartInv(k: nat)
    ensures Inv(Start(), k)
  {
    assert forall session :: FlightsOf(map[], session) == {};
    EmptyInv();
  }

  /** In every state of every run with at most k chats in flight per session: each history is the turns of the latest
      exchanges completed since the last clear, of all of them or of at least ten, and its length plus two per chat in
      flight stays within twenty plus two k. */
  lemma {:induction false} RunsKeepInv(states: seq<Daemon>, actions: seq<Action>, k: nat, n: nat)
    requires IsRun(states, actions, k) && n < |states|
    ensures Inv(states[n], k)
    decreases n
  {
    if n == 0 {
      StartInv(k);
    } else {
      RunsKeepInv(states, actions, k, n - 1);
      assert Can(states[n - 1], actions[n - 1]) && states[n - 1 + 1] == Act(states[n - 1], actions[n - 1]);
      ActInv(states[n - 1], actions[n - 1], k);
    }
  }

  /** What a chat that begins reads: the turns of the last ten exchanges completed since the last clear, or of all of
      them. */
  lemma PromptUsesRecentExchanges(states: seq<Daemon>, actions: seq<Action>, k: nat, n: nat, session: string)
    requires IsRun(states, actions, k) && n < |states|
    ensures Trim(HistoryOf(states[n].conversations, session)) ==
      Turns(Latest(PairsOf(states[n].completed, session), 10))
  {
    RunsKeepInv(states, actions, k, n);
    assert HistoryInv(states[n], session);
    TrimInv(HistoryOf(states[n].conversations, session), PairsOf(states[n].completed, session));
  }
}
