/** The client together with the daemon: one FIFO channel each way per connection, a server loop that
    answers requests one after another and pushes statistics whenever it likes
    (desktop-shell/js/modules/aisd-client.js, aisd/src/ipc/mod.rs). */
module AisdSystem {
  import opened Options
  import opened AisdState
  import opened AisdLaws

  /** A request text: the client's sends carry exactly these fields. */
  datatype Query = Query(id: nat, op: string, params: Json)

  /** What dispatching a request yields. */
  datatype Reply = Ok(result: Json) | Err(error: string)

  datatype Conn = Conn(toServer: seq<Query>, toClient: seq<Message>)

  /** One request answered by the server, and the connection it came in on. */
  datatype Served = Served(conn: nat, query: Query, reply: Reply)

  /** Which promise an id was given out for, and on which connection. */
  datatype Issue = Issue(call: nat, conn: nat)

  /** The whole system, with a record of what was asked, issued and served. */
  datatype System = System(client: State, conns: map<nat, Conn>,
                           asked: map<nat, (string, Json)>, issued: map<nat, Issue>, served: seq<Served>)

  /** The response to a request repeats its id. */
  function Respond(q: Query, reply: Reply): Message
  {
    match reply
    case Ok(result) => Parsed("", Some(q.id), true, result, "")
    case Err(error) => Parsed("", Some(q.id), false, "", error)
  }

  datatype Action =
    | ClientActs(e: Event)                         // any client event but a message or a call
    | Calls(op: string, params: Json)
    | Delivers                                     // the next message reaches the client
    | Serves(conn: nat, reply: Reply)
    | Pushes(conn: nat, data: Json)

  ghost predicate Can(s: System, a: Action)
  {
    match a
    case ClientActs(e) => !e.MessageArrives? && !e.CallMade? && Enabled(s.client, e)
    case Calls(_, _) => true
    case Delivers =>
      && s.client.socket.Some? && s.client.socket.value.ready == Open
      && s.client.socket.value.conn in s.conns && s.conns[s.client.socket.value.conn].toClient != []
    case Serves(conn, _) => conn in s.conns && s.conns[conn].toServer != []
    case Pushes(conn, _) => conn in s.conns
  }

  /** A socket that the client has just created starts with empty channels. */
  function Extend(conns: map<nat, Conn>, before: nat, after: nat): map<nat, Conn>
  {
    if before < after then conns[before := Conn([], [])] else conns
  }

  ghost function Act(s: System, a: Action): System
    requires Can(s, a)
  {
    match a
    case ClientActs(e) =>
      var client := Step(s.client, e);
      s.(client := client, conns := Extend(s.conns, s.client.nextConn, client.nextConn))
    case Calls(op, params) =>
      var asked := s.(client := Call(s.client), asked := s.asked[s.client.nextCall := (op, params)]);
      if !s.client.connected || s.client.socket.None? then asked
      else
        var conn := s.client.socket.value.conn;
        var issued := asked.(issued := s.issued[s.client.counter := Issue(s.client.nextCall, conn)]);
        if s.client.socket.value.ready == Open && conn in s.conns then
          var c := s.conns[conn];
          issued.(conns := s.conns[conn := c.(toServer := c.toServer + [Query(s.client.counter, op, params)])])
        else issued
    case Delivers =>
      var conn := s.client.socket.value.conn;
      var c := s.conns[conn];
      s.(client := OnMessage(s.client, c.toClient[0]), conns := s.conns[conn := c.(toClient := c.toClient[1..])])
    case Serves(conn, reply) =>
      var c := s.conns[conn];
      var q := c.toServer[0];
      s.(conns := s.conns[conn := Conn(c.toServer[1..], c.toClient + [Respond(q, reply)])],
         served := s.served + [Served(conn, q, reply)])
    case Pushes(conn, data) =>
      var c := s.conns[conn];
      s.(conns := s.conns[conn := c.(toClient := c.toClient + [Parsed("stats", None, false, data, "")])])
  }

  function Begin(now: nat, ok: bool): System
  {
    var client := Initial(now, ok);
    System(client, Extend(map[], 0, client.nextConn), map[], map[], [])
  }

  ghost predicate Moves(s: System, a: Action, s': System)
  {
    Can(s, a) && s' == Act(s, a)
  }

  ghost predicate IsSystemRun(states: seq<System>, actions: seq<Action>)
  {
    && |states| == |actions| + 1
    && (exists now: nat, ok :: states[0] == Begin(now, ok))
    && forall i :: 0 <= i < |actions| ==> MovesAt(states, actions, i)
  }

  ghost predicate MovesAt(states: seq<System>, actions: seq<Action>, i: nat)
    requires i < |actions| && |states| == |actions| + 1
  {
    Moves(states[i], actions[i], states[i + 1])
  }

  /* ---------- the invariant ---------- */

  /** The query asks what the promise behind its id asked, on the connection the id was issued for. */
  ghost predicate Authentic(q: Query, conn: nat, asked: map<nat, (string, Json)>, issued: map<nat, Issue>)
  {
    && q.id in issued && issued[q.id].conn == conn
    && issued[q.id].call in asked && asked[issued[q.id].call] == (q.op, q.params)
  }

  /** Requests under way are authentic, and in ascending order of their ids. */
  ghost predicate QueueInv(queue: seq<Query>, conn: nat, asked: map<nat, (string, Json)>, issued: map<nat, Issue>)
  {
    && (forall i :: 0 <= i < |queue| ==> Authentic(queue[i], conn, asked, issued))
    && (forall i, j :: 0 <= i < j < |queue| ==> queue[i].id < queue[j].id)
  }

  /** A message under way is a push or the response to a served request. */
  ghost predicate Answers(m: Message, conn: nat, served: seq<Served>)
  {
    m.Parsed? && (m.event == "" ==>
      exists k :: 0 <= k < |served| && served[k].conn == conn && m == Respond(served[k].query, served[k].reply))
  }

  ghost predicate ChannelInv(conns: map<nat, Conn>, asked: map<nat, (string, Json)>, issued: map<nat, Issue>,
                             served: seq<Served>)
  {
    && (forall conn :: conn in conns ==> QueueInv(conns[conn].toServer, conn, asked, issued))
    && (forall conn, i :: conn in conns && 0 <= i < |conns[conn].toClient| ==>
          Answers(conns[conn].toClient[i], conn, served))
  }

  /** Served requests are authentic, no id is served twice, and none of them is still under way. */
  ghost predicate ServedInv(conns: map<nat, Conn>, asked: map<nat, (string, Json)>, issued: map<nat, Issue>,
                            served: seq<Served>)
  {
    && (forall k :: 0 <= k < |served| ==>
          served[k].conn in conns && Authentic(served[k].query, served[k].conn, asked, issued))
    && (forall j, k :: 0 <= j < k < |served| ==> served[j].query.id != served[k].query.id)
    && (forall k, i :: 0 <= k < |served| && 0 <= i < |conns[served[k].conn].toServer| ==>
          served[k].query.id < conns[served[k].conn].toServer[i].id)
  }

  /** Ids stand for promises one to one. */
  ghost predicate IssueInv(counter: nat, nextCall: nat, pending: map<nat, Request>, issued: map<nat, Issue>)
  {
    && (forall id :: id in issued ==> id < counter && issued[id].call < nextCall)
    && (forall i, j :: i in issued && j in issued && i != j ==> issued[i].call != issued[j].call)
    && (forall id :: id in pending ==> id in issued && issued[id].call == pending[id].call)
  }

  ghost predicate AskedInv(asked: map<nat, (string, Json)>, nextCall: nat)
  {
    forall call :: call in asked ==> call < nextCall
  }

  /** Some served request answers this promise with this result. */
  ghost predicate AnsweredBy(call: nat, result: Json, issued: map<nat, Issue>, served: seq<Served>)
  {
    exists k :: 0 <= k < |served| && served[k].query.id in issued
      && issued[served[k].query.id].call == call && served[k].reply == Ok(result)
  }

  ghost predicate ResultInv(settled: seq<(nat, Settlement)>, issued: map<nat, Issue>, served: seq<Served>)
  {
    forall i :: 0 <= i < |settled| && settled[i].1.Resolved? ==>
      AnsweredBy(settled[i].0, settled[i].1.result, issued, served)
  }

  ghost predicate ConnsInv(client: State, conns: map<nat, Conn>)
  {
    forall conn :: conn in conns <==> 0 <= conn < client.nextConn
  }

  ghost predicate SystemInv(s: System)
  {
    && Inv(s.client)
    && ConnsInv(s.client, s.conns)
    && IssueInv(s.client.counter, s.client.nextCall, s.client.pending, s.issued)
    && AskedInv(s.asked, s.client.nextCall)
    && ChannelInv(s.conns, s.asked, s.issued, s.served)
    && ServedInv(s.conns, s.asked, s.issued, s.served)
    && ResultInv(s.client.settled, s.issued, s.served)
  }

  /* ---------- every action keeps it ---------- */

  lemma BeginInv(now: nat, ok: bool)
    ensures SystemInv(Begin(now, ok))
  {
    InitialInv(now, ok);
  }

  /** No client event but a message resolves a promise or issues an id. */
  lemma QuietStep(client: State, e: Event)
    requires Inv(client) && Enabled(client, e) && !e.MessageArrives? && !e.CallMade?
    ensures var c := Step(client, e);
      && c.counter == client.counter && c.nextCall == client.nextCall
      && client.nextConn <= c.nextConn <= client.nextConn + 1
      && (forall id :: id in c.pending ==> id in client.pending && c.pending[id] == client.pending[id])
      && client.settled <= c.settled
      && (forall i :: |client.settled| <= i < |c.settled| ==> c.settled[i].1.Rejected?)
  {
    if e.SocketClosed? { RejectAllAt(client.pending, client.ids); }
  }

  lemma MoreRejections(log: seq<(nat, Settlement)>, all: seq<(nat, Settlement)>, issued: map<nat, Issue>,
                       served: seq<Served>)
    requires ResultInv(log, issued, served) && log <= all && forall i :: |log| <= i < |all| ==> all[i].1.Rejected?
    ensures ResultInv(all, issued, served)
  {
    forall i | 0 <= i < |all| && all[i].1.Resolved? ensures AnsweredBy(all[i].0, all[i].1.result, issued, served) {
      assert all[i] == log[i];
    }
  }

  lemma ExtendInv(conns: map<nat, Conn>, asked: map<nat, (string, Json)>, issued: map<nat, Issue>, served: seq<Served>,
                  before: nat, after: nat)
    requires ChannelInv(conns, asked, issued, served) && ServedInv(conns, asked, issued, served) && before !in conns
    ensures ChannelInv(Extend(conns, before, after), asked, issued, served)
    ensures ServedInv(Extend(conns, before, after), asked, issued, served)
  {
    forall k | 0 <= k < |served| ensures served[k].conn != before { assert served[k].conn in conns; }
  }

  lemma ExtendConns(client: State, c: State, conns: map<nat, Conn>)
    requires ConnsInv(client, conns) && client.nextConn <= c.nextConn <= client.nextConn + 1
    ensures ConnsInv(c, Extend(conns, client.nextConn, c.nextConn)) && client.nextConn !in conns
  {
  }

  lemma ClientActsInv(s: System, e: Event)
    requires SystemInv(s) && Can(s, ClientActs(e))
    ensures SystemInv(Act(s, ClientActs(e)))
  {
    var c := Step(s.client, e);
    StepInv(s.client, e);
    QuietStep(s.client, e);
    MoreRejections(s.client.settled, c.settled, s.issued, s.served);
    ExtendConns(s.client, c, s.conns);
    ExtendInv(s.conns, s.asked, s.issued, s.served, s.client.nextConn, c.nextConn);
    assert IssueInv(c.counter, c.nextCall, c.pending, s.issued);
  }

  lemma PushesChannels(conns: map<nat, Conn>, asked: map<nat, (string, Json)>, issued: map<nat, Issue>,
                       served: seq<Served>, conn: nat, data: Json)
    requires ChannelInv(conns, asked, issued, served) && ServedInv(conns, asked, issued, served) && conn in conns
    ensures var c := conns[conn];
      var conns' := conns[conn := c.(toClient := c.toClient + [Parsed("stats", None, false, data, "")])];
      ChannelInv(conns', asked, issued, served) && ServedInv(conns', asked, issued, served)
  {
    var c, push := conns[conn], Parsed("stats", None, false, data, "");
    var conns' := conns[conn := c.(toClient := c.toClient + [push])];
    assert Answers(push, conn, served) && QueueInv(c.toServer, conn, asked, issued);
    forall n, i | n in conns' && 0 <= i < |conns'[n].toClient| ensures Answers(conns'[n].toClient[i], n, served) {
      assert n != conn || i < |c.toClient| ==> conns'[n].toClient[i] == conns[n].toClient[i];
    }
  }

  lemma PushesInv(s: System, conn: nat, data: Json)
    requires SystemInv(s) && Can(s, Pushes(conn, data))
    ensures SystemInv(Act(s, Pushes(conn, data)))
  {
    PushesChannels(s.conns, s.asked, s.issued, s.served, conn, data);
  }

  /** Facts about what is under way do not depend on later answers. */
  lemma AnswersLonger(m: Message, conn: nat, served: seq<Served>, last: Served)
    requires Answers(m, conn, served)
    ensures Answers(m, conn, served + [last])
  {
    if m.event == "" {
      var k :| 0 <= k < |served| && served[k].conn == conn && m == Respond(served[k].query, served[k].reply);
      assert (served + [last])[k] == served[k];
    }
  }

  lemma AnsweredByLonger(call: nat, result: Json, issued: map<nat, Issue>, served: seq<Served>, last: Served)
    requires AnsweredBy(call, result, issued, served)
    ensures AnsweredBy(call, result, issued, served + [last])
  {
    var k :| 0 <= k < |served| && served[k].query.id in issued && issued[served[k].query.id].call == call
      && served[k].reply == Ok(result);
    assert (served + [last])[k] == served[k];
  }

  lemma ServesChannels(conns: map<nat, Conn>, asked: map<nat, (string, Json)>, issued: map<nat, Issue>,
                       served: seq<Served>, conn: nat, reply: Reply)
    requires ChannelInv(conns, asked, issued, served) && conn in conns && conns[conn].toServer != []
    ensures var c := conns[conn];
      var conns' := conns[conn := Conn(c.toServer[1..], c.toClient + [Respond(c.toServer[0], reply)])];
      ChannelInv(conns', asked, issued, served + [Served(conn, c.toServer[0], reply)])
  {
    var c := conns[conn];
    var last := Served(conn, c.toServer[0], reply);
    var conns' := conns[conn := Conn(c.toServer[1..], c.toClient + [Respond(c.toServer[0], reply)])];
    forall n, i | n in conns' && 0 <= i < |conns'[n].toClient|
      ensures Answers(conns'[n].toClient[i], n, served + [last])
    {
      if n == conn && i == |c.toClient| {
        assert (served + [last])[|served|] == last;
      } else {
        AnswersLonger(conns[n].toClient[i], n, served, last);
      }
    }
  }

  lemma ServesServed(conns: map<nat, Conn>, asked: map<nat, (string, Json)>, issued: map<nat, Issue>,
                     served: seq<Served>, conn: nat, reply: Reply)
    requires ChannelInv(conns, asked, issued, served) && ServedInv(conns, asked, issued, served)
    requires conn in conns && conns[conn].toServer != []
    ensures var c := conns[conn];
      var conns' := conns[conn := Conn(c.toServer[1..], c.toClient + [Respond(c.toServer[0], reply)])];
      ServedInv(conns', asked, issued, served + [Served(conn, c.toServer[0], reply)])
  {
    var q := conns[conn].toServer[0];
    assert QueueInv(conns[conn].toServer, conn, asked, issued);
    assert Authentic(q, conn, asked, issued);
    forall k | 0 <= k < |served| ensures served[k].query.id != q.id {
      assert Authentic(served[k].query, served[k].conn, asked, issued);
      assert issued[served[k].query.id].conn == served[k].conn && issued[q.id].conn == conn;
    }
  }

  lemma ServesInv(s: System, conn: nat, reply: Reply)
    requires SystemInv(s) && Can(s, Serves(conn, reply))
    ensures SystemInv(Act(s, Serves(conn, reply)))
  {
    ServesChannels(s.conns, s.asked, s.issued, s.served, conn, reply);
    ServesServed(s.conns, s.asked, s.issued, s.served, conn, reply);
    var last := Served(conn, s.conns[conn].toServer[0], reply);
    forall i | 0 <= i < |s.client.settled| && s.client.settled[i].1.Resolved?
      ensures AnsweredBy(s.client.settled[i].0, s.client.settled[i].1.result, s.issued, s.served + [last])
    {
      AnsweredByLonger(s.client.settled[i].0, s.client.settled[i].1.result, s.issued, s.served, last);
    }
  }

  /** The response to a served request settles its own promise. */
  lemma ResponseSettles(client: State, m: Message, conn: nat, asked: map<nat, (string, Json)>, issued: map<nat, Issue>,
                        served: seq<Served>, conns: map<nat, Conn>)
    requires Answers(m, conn, served) && ServedInv(conns, asked, issued, served)
    requires IssueInv(client.counter, client.nextCall, client.pending, issued)
    requires ResultInv(client.settled, issued, served)
    ensures ResultInv(OnMessage(client, m).settled, issued, served)
  {
    var log := OnMessage(client, m).settled;
    if log != client.settled {
      var k :| 0 <= k < |served| && served[k].conn == conn && m == Respond(served[k].query, served[k].reply);
      var n := |client.settled|;
      assert Authentic(served[k].query, served[k].conn, asked, issued);
      assert log[n].1.Resolved? ==> AnsweredBy(log[n].0, log[n].1.result, issued, served);
      forall i | 0 <= i < |log| && log[i].1.Resolved? ensures AnsweredBy(log[i].0, log[i].1.result, issued, served) {
        if i < n { assert log[i] == client.settled[i]; }
      }
    }
  }

  lemma MessageIssue(client: State, m: Message, issued: map<nat, Issue>, conns: map<nat, Conn>)
    requires IssueInv(client.counter, client.nextCall, client.pending, issued) && ConnsInv(client, conns)
    ensures var c := OnMessage(client, m);
      && IssueInv(c.counter, c.nextCall, c.pending, issued) && ConnsInv(c, conns)
      && c.nextCall == client.nextCall
  {
  }

  lemma DeliversInv(s: System)
    requires SystemInv(s) && Can(s, Delivers)
    ensures SystemInv(Act(s, Delivers))
  {
    var conn := s.client.socket.value.conn;
    var c := s.conns[conn];
    var rest := c.(toClient := c.toClient[1..]);
    MessageInv(s.client, c.toClient[0]);
    ResponseSettles(s.client, c.toClient[0], conn, s.asked, s.issued, s.served, s.conns);
    DeliversChannels(s.conns, s.asked, s.issued, s.served, conn);
    DeliversConns(s.client, s.conns, conn, rest);
    MessageIssue(s.client, c.toClient[0], s.issued, s.conns[conn := rest]);
  }

  lemma DeliversConns(client: State, conns: map<nat, Conn>, conn: nat, c: Conn)
    requires ConnsInv(client, conns) && conn in conns
    ensures ConnsInv(client, conns[conn := c])
  {
  }

  lemma DeliversChannels(conns: map<nat, Conn>, asked: map<nat, (string, Json)>, issued: map<nat, Issue>,
                         served: seq<Served>, conn: nat)
    requires ChannelInv(conns, asked, issued, served) && ServedInv(conns, asked, issued, served)
    requires conn in conns && conns[conn].toClient != []
    ensures var conns' := conns[conn := conns[conn].(toClient := conns[conn].toClient[1..])];
      ChannelInv(conns', asked, issued, served) && ServedInv(conns', asked, issued, served)
  {
  }

  /** The records may grow: what was authentic stays so. */
  ghost predicate Grows<T>(before: map<nat, T>, after: map<nat, T>)
  {
    forall k :: k in before ==> k in after && after[k] == before[k]
  }

  lemma LaterInv(conns: map<nat, Conn>, asked: map<nat, (string, Json)>, issued: map<nat, Issue>, served: seq<Served>,
                 asked': map<nat, (string, Json)>, issued': map<nat, Issue>)
    requires ChannelInv(conns, asked, issued, served) && ServedInv(conns, asked, issued, served)
    requires Grows(asked, asked') && Grows(issued, issued')
    ensures ChannelInv(conns, asked', issued', served) && ServedInv(conns, asked', issued', served)
  {
    forall conn | conn in conns ensures QueueInv(conns[conn].toServer, conn, asked', issued') {
      assert QueueInv(conns[conn].toServer, conn, asked, issued);
      forall i | 0 <= i < |conns[conn].toServer| ensures Authentic(conns[conn].toServer[i], conn, asked', issued') {
        assert Authentic(conns[conn].toServer[i], conn, asked, issued);
      }
    }
    forall k | 0 <= k < |served| ensures Authentic(served[k].query, served[k].conn, asked', issued') {
      assert Authentic(served[k].query, served[k].conn, asked, issued);
    }
  }

  /** A request under a new, highest id joins its queue. */
  lemma AppendQuery(conns: map<nat, Conn>, asked: map<nat, (string, Json)>, issued: map<nat, Issue>,
                    served: seq<Served>, conn: nat, q: Query)
    requires ChannelInv(conns, asked, issued, served) && ServedInv(conns, asked, issued, served)
    requires conn in conns && Authentic(q, conn, asked, issued)
    requires forall i :: 0 <= i < |conns[conn].toServer| ==> conns[conn].toServer[i].id < q.id
    requires forall k :: 0 <= k < |served| ==> served[k].query.id < q.id
    ensures var conns' := conns[conn := conns[conn].(toServer := conns[conn].toServer + [q])];
      ChannelInv(conns', asked, issued, served) && ServedInv(conns', asked, issued, served)
  {
    assert QueueInv(conns[conn].toServer, conn, asked, issued);
    assert QueueInv(conns[conn].toServer + [q], conn, asked, issued);
  }

  lemma CallsChannels(s: System, op: string, params: Json)
    requires IssueInv(s.client.counter, s.client.nextCall, s.client.pending, s.issued)
      && AskedInv(s.asked, s.client.nextCall)
    requires ChannelInv(s.conns, s.asked, s.issued, s.served) && ServedInv(s.conns, s.asked, s.issued, s.served)
    ensures var s' := Act(s, Calls(op, params));
      ChannelInv(s'.conns, s'.asked, s'.issued, s'.served) && ServedInv(s'.conns, s'.asked, s'.issued, s'.served)
  {
    var s' := Act(s, Calls(op, params));
    assert Grows(s.asked, s'.asked) && Grows(s.issued, s'.issued);
    LaterInv(s.conns, s.asked, s.issued, s.served, s'.asked, s'.issued);
    if s'.conns != s.conns {
      var conn := s.client.socket.value.conn;
      IdsBelow(s.client.counter, s.client.nextCall, s.client.pending, s.conns, s.asked, s.issued, s.served, conn);
      AppendQuery(s.conns, s'.asked, s'.issued, s.served, conn, Query(s.client.counter, op, params));
    }
  }

  /** Ids under way and ids served are below the counter. */
  lemma IdsBelow(counter: nat, nextCall: nat, pending: map<nat, Request>, conns: map<nat, Conn>,
                 asked: map<nat, (string, Json)>, issued: map<nat, Issue>, served: seq<Served>, conn: nat)
    requires IssueInv(counter, nextCall, pending, issued) && conn in conns
    requires ChannelInv(conns, asked, issued, served) && ServedInv(conns, asked, issued, served)
    ensures forall i :: 0 <= i < |conns[conn].toServer| ==> conns[conn].toServer[i].id < counter
    ensures forall k :: 0 <= k < |served| ==> served[k].query.id < counter
  {
    assert QueueInv(conns[conn].toServer, conn, asked, issued);
    forall i | 0 <= i < |conns[conn].toServer| ensures conns[conn].toServer[i].id < counter {
      assert Authentic(conns[conn].toServer[i], conn, asked, issued);
    }
    forall k | 0 <= k < |served| ensures served[k].query.id < counter {
      assert Authentic(served[k].query, served[k].conn, asked, issued);
    }
  }

  /** Results answered so far stay answered when more ids are issued. */
  lemma ResultsLater(log: seq<(nat, Settlement)>, issued: map<nat, Issue>, served: seq<Served>,
                     issued': map<nat, Issue>)
    requires ResultInv(log, issued, served) && Grows(issued, issued')
    ensures ResultInv(log, issued', served)
  {
    forall i | 0 <= i < |log| && log[i].1.Resolved? ensures AnsweredBy(log[i].0, log[i].1.result, issued', served) {
      assert AnsweredBy(log[i].0, log[i].1.result, issued, served);
      var k :| 0 <= k < |served| && served[k].query.id in issued
        && issued[served[k].query.id].call == log[i].0 && served[k].reply == Ok(log[i].1.result);
      assert served[k].query.id in issued';
    }
  }

  lemma CallsResults(s: System, op: string, params: Json)
    requires IssueInv(s.client.counter, s.client.nextCall, s.client.pending, s.issued)
    requires ResultInv(s.client.settled, s.issued, s.served)
    ensures var s' := Act(s, Calls(op, params));
      ResultInv(s'.client.settled, s'.issued, s'.served)
  {
    var s' := Act(s, Calls(op, params));
    assert Grows(s.issued, s'.issued);
    ResultsLater(s.client.settled, s.issued, s.served, s'.issued);
    MoreRejections(s.client.settled, s'.client.settled, s'.issued, s.served);
  }

  lemma CallsInv(s: System, op: string, params: Json)
    requires SystemInv(s)
    ensures SystemInv(Act(s, Calls(op, params)))
  {
    CallInv(s.client);
    CallsChannels(s, op, params);
    CallsResults(s, op, params);
    CallsIssue(s, op, params);
  }

  lemma CallsIssue(s: System, op: string, params: Json)
    requires IssueInv(s.client.counter, s.client.nextCall, s.client.pending, s.issued)
    requires AskedInv(s.asked, s.client.nextCall) && ConnsInv(s.client, s.conns)
    ensures var s' := Act(s, Calls(op, params));
      && IssueInv(s'.client.counter, s'.client.nextCall, s'.client.pending, s'.issued)
      && AskedInv(s'.asked, s'.client.nextCall)
      && ConnsInv(s'.client, s'.conns)
  {
    if s.client.connected && s.client.socket.Some? {
      NewIssue(s.client.counter, s.client.nextCall, s.client.pending, s.issued,
               Request(s.client.nextCall, s.client.nextTimer, s.client.now), s.client.socket.value.conn);
    }
  }

  lemma NewIssue(counter: nat, nextCall: nat, pending: map<nat, Request>, issued: map<nat, Issue>, r: Request,
                 conn: nat)
    requires IssueInv(counter, nextCall, pending, issued) && r.call == nextCall
    ensures IssueInv(counter + 1, nextCall + 1, pending[counter := r], issued[counter := Issue(nextCall, conn)])
  {
  }

  lemma ActInv(s: System, a: Action)
    requires SystemInv(s) && Can(s, a)
    ensures SystemInv(Act(s, a))
  {
    match a
    case ClientActs(e) => ClientActsInv(s, e);
    case Calls(op, params) => CallsInv(s, op, params);
    case Delivers => DeliversInv(s);
    case Serves(conn, reply) => ServesInv(s, conn, reply);
    case Pushes(conn, data) => PushesInv(s, conn, data);
  }

  lemma MovesKeepsInv(s: System, a: Action, s': System)
    requires SystemInv(s) && Moves(s, a, s')
    ensures SystemInv(s')
  {
    ActInv(s, a);
  }

  lemma FirstInv(s: System)
    requires exists now: nat, ok :: s == Begin(now, ok)
    ensures SystemInv(s)
  {
    var now: nat, ok :| s == Begin(now, ok);
    BeginInv(now, ok);
  }

  lemma {:induction false} SystemRunsKeepInv(states: seq<System>, actions: seq<Action>, n: nat)
    requires IsSystemRun(states, actions) && n < |states|
    ensures SystemInv(states[n])
    decreases n
  {
    if n == 0 {
      FirstInv(states[0]);
    } else {
      SystemRunsKeepInv(states, actions, n - 1);
      assert MovesAt(states, actions, n - 1);
      MovesKeepsInv(states[n - 1], actions[n - 1], states[n]);
    }
  }

  /** The k-th served request is the one sent for this call, asks what the call asked, was answered with
      this result, and no other served request was sent for it. */
  ghost predicate OnlyAnswer(s: System, call: nat, result: Json, k: nat)
  {
    && k < |s.served| && call in s.asked
    && SentFor(s, call, k)
    && (s.served[k].query.op, s.served[k].query.params) == s.asked[call]
    && s.served[k].reply == Ok(result)
    && forall j :: 0 <= j < |s.served| && SentFor(s, call, j) ==> j == k
  }

  ghost predicate SentFor(s: System, call: nat, k: nat)
    requires k < |s.served|
  {
    s.served[k].query.id in s.issued && s.issued[s.served[k].query.id].call == call
  }

  /** In every run a call that is resolved carries the result that dispatching its own method and parameters
      yielded, and the server dispatched them once only. */
  lemma ResolvedByOwnAnswer(states: seq<System>, actions: seq<Action>, n: nat, i: nat)
    requires IsSystemRun(states, actions) && n < |states|
    requires i < |states[n].client.settled| && states[n].client.settled[i].1.Resolved?
    ensures var s := states[n];
      var call, result := s.client.settled[i].0, s.client.settled[i].1.result;
      && call in s.asked
      && exists k :: OnlyAnswer(s, call, result, k)
  {
    SystemRunsKeepInv(states, actions, n);
    var s := states[n];
    var call, result := s.client.settled[i].0, s.client.settled[i].1.result;
    assert AnsweredBy(call, result, s.issued, s.served);
    var k :| 0 <= k < |s.served| && s.served[k].query.id in s.issued
      && s.issued[s.served[k].query.id].call == call && s.served[k].reply == Ok(result);
    assert Authentic(s.served[k].query, s.served[k].conn, s.asked, s.issued);
    forall j | 0 <= j < |s.served| && SentFor(s, call, j) ensures j == k {
      assert s.served[j].query.id == s.served[k].query.id;
    }
    assert OnlyAnswer(s, call, result, k);
  }

  /* ---------- every answer that comes in time settles its call ---------- */

  /** The promise that the k-th served request was sent for is settled as that request was answered, unless the request
      is no longer pending; nothing else is settled. */
  ghost predicate SettledAsServed(s: System, s': System, k: nat)
    requires k < |s.served|
  {
    var q := s.served[k].query;
    if q.id !in s.client.pending then s'.client.settled == s.client.settled
    else
      && q.id in s.issued && q.id !in s'.client.pending
      && s'.client.settled == s.client.settled + [(s.issued[q.id].call,
           match s.served[k].reply
           case Ok(result) => Resolved(result)
           case Err(error) => Rejected(if error == "" then "aisd error" else error))]
  }

  /** In every run, when a message reaches the client: a push settles nothing; anything else is the response to a served
      request of this connection, and if that is still pending it settles the promise the request was sent for, with
      what the server answered. */
  lemma DeliveredSettles(states: seq<System>, actions: seq<Action>, n: nat)
    requires IsSystemRun(states, actions) && n < |actions| && actions[n].Delivers?
    ensures var s, s' := states[n], states[n + 1];
      && Can(s, Delivers)
      && var conn := s.client.socket.value.conn;
      && var m := s.conns[conn].toClient[0];
      && m.Parsed?
      && (m.event != "" ==> s'.client.settled == s.client.settled)
      && (m.event == "" ==>
            exists k: nat :: k < |s.served| && s.served[k].conn == conn && m.id == Some(s.served[k].query.id)
              && SettledAsServed(s, s', k))
  {
    SystemRunsKeepInv(states, actions, n);
    assert MovesAt(states, actions, n);
    DeliverySettles(states[n]);
  }

  lemma DeliverySettles(s: System)
    requires Can(s, Delivers)
    requires ChannelInv(s.conns, s.asked, s.issued, s.served) && ServedInv(s.conns, s.asked, s.issued, s.served)
    requires IssueInv(s.client.counter, s.client.nextCall, s.client.pending, s.issued)
    ensures var s' := Act(s, Delivers);
      && var conn := s.client.socket.value.conn;
      && var m := s.conns[conn].toClient[0];
      && m.Parsed?
      && (m.event != "" ==> s'.client.settled == s.client.settled)
      && (m.event == "" ==>
            exists k: nat :: k < |s.served| && s.served[k].conn == conn && m.id == Some(s.served[k].query.id)
              && SettledAsServed(s, s', k))
  {
    var conn := s.client.socket.value.conn;
    var m := s.conns[conn].toClient[0];
    assert Answers(m, conn, s.served);
    if m.event == "" {
      var k :| 0 <= k < |s.served| && s.served[k].conn == conn && m == Respond(s.served[k].query, s.served[k].reply);
      assert SettledAsServed(s, Act(s, Delivers), k);
    }
  }

  /* ---------- nothing is lost on an open connection ---------- */

  /** The request of this id waits for the server, or its response for the client. */
  ghost predicate Underway(id: nat, c: Conn)
  {
    || (exists i :: 0 <= i < |c.toServer| && c.toServer[i].id == id)
    || (exists j :: 0 <= j < |c.toClient| && IsResponse(c.toClient[j], id))
  }

  predicate IsResponse(m: Message, id: nat)
  {
    m.Parsed? && m.event == "" && m.id == Some(id)
  }

  ghost predicate AllUnderway(pending: map<nat, Request>, c: Conn)
  {
    forall id :: id in pending ==> Underway(id, c)
  }

  /** While the socket is open, every pending request is under way on its connection. */
  ghost predicate NoneLost(s: System)
  {
    s.client.socket.Some? && s.client.socket.value.ready == Open && s.client.socket.value.conn in s.conns ==>
      AllUnderway(s.client.pending, s.conns[s.client.socket.value.conn])
  }

  lemma ServedIsUnderway(c: Conn, id: nat, reply: Reply)
    requires c.toServer != [] && Underway(id, c)
    ensures Underway(id, Conn(c.toServer[1..], c.toClient + [Respond(c.toServer[0], reply)]))
  {
    var r := Respond(c.toServer[0], reply);
    var d := Conn(c.toServer[1..], c.toClient + [r]);
    if i :| 0 <= i < |c.toServer| && c.toServer[i].id == id {
      if i == 0 {
        assert IsResponse(d.toClient[|c.toClient|], id);
      } else {
        assert d.toServer[i - 1].id == id;
      }
    } else {
      var j :| 0 <= j < |c.toClient| && IsResponse(c.toClient[j], id);
      assert IsResponse(d.toClient[j], id);
    }
  }

  lemma LongerIsUnderway(c: Conn, id: nat, qs: seq<Query>, ms: seq<Message>)
    requires Underway(id, c)
    ensures Underway(id, Conn(c.toServer + qs, c.toClient + ms))
  {
    var d := Conn(c.toServer + qs, c.toClient + ms);
    if i :| 0 <= i < |c.toServer| && c.toServer[i].id == id {
      assert d.toServer[i].id == id;
    } else {
      var j :| 0 <= j < |c.toClient| && IsResponse(c.toClient[j], id);
      assert IsResponse(d.toClient[j], id);
    }
  }

  lemma ReadIsUnderway(c: Conn, id: nat)
    requires c.toClient != [] && Underway(id, c) && !IsResponse(c.toClient[0], id)
    ensures Underway(id, c.(toClient := c.toClient[1..]))
  {
    var d := c.(toClient := c.toClient[1..]);
    if i :| 0 <= i < |c.toServer| && c.toServer[i].id == id {
      assert d.toServer[i].id == id;
    } else {
      var j :| 0 <= j < |c.toClient| && IsResponse(c.toClient[j], id);
      assert IsResponse(d.toClient[j - 1], id);
    }
  }

  /** A client event keeps the connection open only if it leaves the socket and adds no request; a socket that opens
      finds no request pending. */
  lemma EventKeepsNone(client: State, e: Event)
    requires Inv(client) && Enabled(client, e) && !e.MessageArrives? && !e.CallMade?
    ensures var c := Step(client, e);
      c.socket.Some? && c.socket.value.ready == Open ==>
        || c.pending == map[]
        || (c.socket == client.socket && forall id :: id in c.pending ==> id in client.pending)
  {
    if e.SocketOpens? {
      assert !client.connected && client.ids == [];
      assert forall id :: id in client.pending ==> id in client.ids;
    }
  }

  lemma EventLosesNone(s: System, e: Event)
    requires SystemInv(s) && NoneLost(s) && Can(s, ClientActs(e))
    ensures NoneLost(Act(s, ClientActs(e)))
  {
    var c := Step(s.client, e);
    QuietStep(s.client, e);
    EventKeepsNone(s.client, e);
    ExtendConns(s.client, c, s.conns);
  }

  lemma CallLosesNone(s: System, op: string, params: Json)
    requires SystemInv(s) && NoneLost(s)
    ensures NoneLost(Act(s, Calls(op, params)))
  {
    if s.client.socket.Some? && s.client.socket.value.ready == Open {
      var conn := s.client.socket.value.conn;
      var c, q := s.conns[conn], Query(s.client.counter, op, params);
      var d := Conn(c.toServer + [q], c.toClient + []);
      assert c.toClient + [] == c.toClient;
      forall id | id in Call(s.client).pending ensures Underway(id, d) {
        if id in s.client.pending {
          LongerIsUnderway(c, id, [q], []);
        } else {
          assert d.toServer[|c.toServer|].id == id;
        }
      }
      assert Act(s, Calls(op, params)).conns[conn] == d;
    }
  }

  lemma DeliveryLosesNone(s: System)
    requires SystemInv(s) && NoneLost(s) && Can(s, Delivers)
    ensures NoneLost(Act(s, Delivers))
  {
    var conn := s.client.socket.value.conn;
    var c := s.conns[conn];
    forall id | id in OnMessage(s.client, c.toClient[0]).pending ensures Underway(id, c.(toClient := c.toClient[1..])) {
      ReadIsUnderway(c, id);
    }
  }

  lemma ServiceLosesNone(s: System, conn: nat, reply: Reply)
    requires NoneLost(s) && Can(s, Serves(conn, reply))
    ensures NoneLost(Act(s, Serves(conn, reply)))
  {
    var c := s.conns[conn];
    var d := Conn(c.toServer[1..], c.toClient + [Respond(c.toServer[0], reply)]);
    if AllUnderway(s.client.pending, c) {
      forall id | id in s.client.pending ensures Underway(id, d) { ServedIsUnderway(c, id, reply); }
    }
  }

  lemma PushLosesNone(s: System, conn: nat, data: Json)
    requires NoneLost(s) && Can(s, Pushes(conn, data))
    ensures NoneLost(Act(s, Pushes(conn, data)))
  {
    var c, push := s.conns[conn], Parsed("stats", None, false, data, "");
    assert c.toServer + [] == c.toServer;
    if AllUnderway(s.client.pending, c) {
      forall id | id in s.client.pending ensures Underway(id, c.(toClient := c.toClient + [push])) {
        LongerIsUnderway(c, id, [], [push]);
      }
    }
  }

  lemma MovesLoseNone(s: System, a: Action, s': System)
    requires SystemInv(s) && NoneLost(s) && Moves(s, a, s')
    ensures NoneLost(s')
  {
    match a
    case ClientActs(e) => EventLosesNone(s, e);
    case Calls(op, params) => CallLosesNone(s, op, params);
    case Delivers => DeliveryLosesNone(s);
    case Serves(conn, reply) => ServiceLosesNone(s, conn, reply);
    case Pushes(conn, data) => PushLosesNone(s, conn, data);
  }

  lemma {:induction false} RunsLoseNone(states: seq<System>, actions: seq<Action>, n: nat)
    requires IsSystemRun(states, actions) && n < |states|
    ensures NoneLost(states[n])
    decreases n
  {
    if n > 0 {
      RunsLoseNone(states, actions, n - 1);
      SystemRunsKeepInv(states, actions, n - 1);
      assert MovesAt(states, actions, n - 1);
      MovesLoseNone(states[n - 1], actions[n - 1], states[n]);
    }
  }

  /** In every run, while the socket is open: a request that is pending waits for the server, or its response for the
      client. So as long as one is pending the server can answer or a message can be delivered. */
  lemma PendingIsUnderway(states: seq<System>, actions: seq<Action>, n: nat, id: nat)
    requires IsSystemRun(states, actions) && n < |states|
    requires var client := states[n].client;
      client.socket.Some? && client.socket.value.ready == Open && id in client.pending
    ensures var s := states[n];
      && var conn := s.client.socket.value.conn;
      && conn in s.conns && Underway(id, s.conns[conn])
      && (Can(s, Delivers) || forall reply :: Can(s, Serves(conn, reply)))
  {
    RunsLoseNone(states, actions, n);
    SystemRunsKeepInv(states, actions, n);
    StillUnderway(states[n], id);
  }

  lemma StillUnderway(s: System, id: nat)
    requires NoneLost(s) && ConnsInv(s.client, s.conns) && id in s.client.pending
    requires s.client.socket.Some? && s.client.socket.value.ready == Open
    requires s.client.socket.value.conn < s.client.nextConn
    ensures var conn := s.client.socket.value.conn;
      && conn in s.conns && Underway(id, s.conns[conn])
      && (Can(s, Delivers) || forall reply :: Can(s, Serves(conn, reply)))
  {
  }
}
