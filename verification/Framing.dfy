/** The length-prefixed frames of the Unix socket: the server loop (aisd/src/ipc/mod.rs), the Python client
    (desktop/ipc_client.py) and the command-line client (aisd/src/bin/felbicos-ai.rs). What each does is a
    function of the bytes on the stream; how the stream is cut into chunks matters to the Python client only. */
module Framing {
  import opened Options

  type Byte = b: int | 0 <= b < 256
  type Bytes = seq<Byte>
  type Json = string

  const MAX_FRAME_BYTES: nat := 8 * 1024 * 1024
  const U32: nat := 0x1_0000_0000

  /* ---------- big-endian lengths and frames ---------- */

  function Be32(n: nat): (b: Bytes)
    requires n < U32
    ensures |b| == 4
  {
    [n / 0x100_0000, n / 0x1_0000 % 0x100, n / 0x100 % 0x100, n % 0x100]
  }

  function FromBe32(b: Bytes): (n: nat)
    requires |b| == 4
    ensures n < U32
  {
    var b0: int, b1: int, b2: int, b3: int := b[0], b[1], b[2], b[3];
    ((b0 * 0x100 + b1) * 0x100 + b2) * 0x100 + b3
  }

  lemma LengthRoundTrip(n: nat)
    requires n < U32
    ensures FromBe32(Be32(n)) == n
  {
    assert n / 0x1_0000 == n / 0x100 / 0x100;
    assert n / 0x100_0000 == n / 0x100 / 0x100 / 0x100;
  }

  lemma PrefixRoundTrip(b: Bytes)
    requires |b| == 4
    ensures Be32(FromBe32(b)) == b
  {
    var n := FromBe32(b);
    var b0: int, b1: int, b2: int := b[0], b[1], b[2];
    assert n / 0x100 == (b0 * 0x100 + b1) * 0x100 + b2;
    assert n / 0x1_0000 == b0 * 0x100 + b1;
  }

  /** The length is cast to 32 bits. */
  function Frame(payload: Bytes): Bytes
  {
    Be32(|payload| % U32) + payload
  }

  function Frames(payloads: seq<Bytes>): Bytes
  {
    if payloads == [] then [] else Frame(payloads[0]) + Frames(payloads[1..])
  }

  predicate Acceptable(payload: Bytes)
  {
    1 <= |payload| <= 8_388_608
  }

  /** What stands at the start of a byte stream: not even a length, a length that is refused, a frame cut off
      by the end, or a frame and what follows it. */
  datatype Next = NoLength | BadLength(length: nat) | CutOff | Whole(payload: Bytes, rest: Bytes)

  function NextFrame(input: Bytes): Next
  {
    if |input| < 4 then NoLength
    else
      var length := FromBe32(input[..4]);
      if length == 0 || length > MAX_FRAME_BYTES then BadLength(length)
      else if |input| < 4 + length then CutOff
      else Whole(input[4..4 + length], input[4 + length..])
  }

  lemma CutInThree(a: Bytes, b: Bytes, c: Bytes)
    ensures var whole := a + b + c;
      whole[..|a|] == a && whole[|a|..|a| + |b|] == b && whole[|a| + |b|..] == c
  {
  }

  lemma FirstFour(b: Bytes, payload: Bytes, rest: Bytes)
    requires |b| == 4
    ensures (b + payload + rest)[..4] == b
  {
  }

  lemma FrameIs(payload: Bytes)
    requires |payload| < U32
    ensures Frame(payload) == Be32(|payload|) + payload
  {
    assert |payload| % U32 == |payload|;
  }

  /** The length of a frame stands at its start. */
  lemma FrameLength(payload: Bytes, rest: Bytes)
    requires |payload| < U32
    ensures FromBe32((Frame(payload) + rest)[..4]) == |payload|
  {
    FrameIs(payload);
    FirstFour(Be32(|payload|), payload, rest);
    LengthRoundTrip(|payload|);
  }

  /** A frame is read back, whatever follows it. */
  lemma NextOfFrame(payload: Bytes, rest: Bytes)
    requires Acceptable(payload)
    ensures NextFrame(Frame(payload) + rest) == Whole(payload, rest)
  {
    FrameLength(payload, rest);
    CutInThree(Be32(|payload|), payload, rest);
  }

  lemma InThree(input: Bytes, a: nat, b: nat)
    requires a <= b <= |input|
    ensures input == input[..a] + input[a..b] + input[b..]
  {
    var joined := input[..a] + input[a..b] + input[b..];
    forall i | 0 <= i < |input| ensures joined[i] == input[i] {
      if i < b { assert joined[i] == (input[..a] + input[a..b])[i]; }
    }
  }

  /** A length and as many bytes after it are a frame. */
  lemma LengthAndPayload(input: Bytes, length: nat)
    requires 4 + length <= |input| && length == FromBe32(input[..4])
    ensures input == Frame(input[4..4 + length]) + input[4 + length..]
  {
    InThree(input, 4, 4 + length);
    assert Frame(input[4..4 + length]) == input[..4] + input[4..4 + length] by {
      PrefixRoundTrip(input[..4]);
    }
  }

  /** Conversely, a frame that is read is one that stands there. */
  lemma WholeIsFrame(input: Bytes)
    requires NextFrame(input).Whole?
    ensures Acceptable(NextFrame(input).payload)
    ensures input == Frame(NextFrame(input).payload) + NextFrame(input).rest
  {
    LengthAndPayload(input, FromBe32(input[..4]));
  }

  datatype Deframed = Deframed(frames: seq<Bytes>, rest: Bytes)

  /** All the frames at the start of a stream. */
  function Deframe(input: Bytes): Deframed
    decreases |input|
  {
    match NextFrame(input)
    case Whole(payload, rest) =>
      var more := Deframe(rest);
      Deframed([payload] + more.frames, more.rest)
    case _ => Deframed([], input)
  }

  lemma FramesCons(first: Bytes, frames: seq<Bytes>, rest: Bytes)
    ensures Frames([first] + frames) + rest == Frame(first) + (Frames(frames) + rest)
  {
    assert ([first] + frames)[1..] == frames;
  }

  /** Every stream is some acceptable frames and a rest that starts with none. */
  lemma {:induction false} DeframeLaw(input: Bytes)
    ensures var d := Deframe(input);
      input == Frames(d.frames) + d.rest && (forall p <- d.frames :: Acceptable(p)) && !NextFrame(d.rest).Whole?
    decreases |input|
  {
    var next := NextFrame(input);
    if next.Whole? {
      WholeIsFrame(input);
      DeframeLaw(next.rest);
      var more := Deframe(next.rest);
      FramesCons(next.payload, more.frames, more.rest);
    }
  }

  /** And only in one way: frames come back in order, whatever was sent. */
  lemma {:induction false} DeframeFrames(payloads: seq<Bytes>, rest: Bytes)
    requires (forall p <- payloads :: Acceptable(p)) && !NextFrame(rest).Whole?
    ensures Deframe(Frames(payloads) + rest) == Deframed(payloads, rest)
  {
    if payloads == [] {
      assert Frames(payloads) + rest == rest;
    } else {
      var tail := Frames(payloads[1..]) + rest;
      assert Frames(payloads) + rest == Frame(payloads[0]) + tail;
      NextOfFrame(payloads[0], tail);
      DeframeFrames(payloads[1..], rest);
    }
  }

  /* ---------- the server ---------- */

  datatype Request = Request(id: Option<Json>, op: string, params: Option<Json>)

  datatype Response = Response(id: Option<Json>, success: bool, result: Option<Json>, error: Option<string>)

  datatype Answer = Ok(result: Json) | Err(error: string)

  /** What the server depends on but the frames do not determine: the decoding of requests (an error is a text),
      what the n-th request of the connection is answered, and the encoding of responses. */
  datatype Service = Service(decode: Bytes -> Result, perform: (nat, Request) -> Answer, encode: Response -> Bytes)

  datatype Result = Parsed(request: Request) | Malformed(reason: string)

  function Dispatch(s: Service, n: nat, request: Request): Response
  {
    match s.perform(n, request)
    case Ok(result) => Response(request.id, true, Some(result), None)
    case Err(error) => Response(request.id, false, None, Some(error))
  }

  function ResponseTo(s: Service, n: nat, payload: Bytes): Response
  {
    match s.decode(payload)
    case Parsed(request) => Dispatch(s, n, request)
    case Malformed(reason) => Response(None, false, None, Some("Invalid MessagePack request: " + reason))
  }

  function Encoded(s: Service, n: nat, payload: Bytes): Bytes
  {
    s.encode(ResponseTo(s, n, payload))
  }

  datatype Session = Session(output: Bytes, answered: nat, ok: bool)

  /** What the server writes, how many requests it answers, and whether it ends without an error. */
  function Serve(s: Service, input: Bytes, n: nat): Session
    decreases |input|
  {
    match NextFrame(input)
    case NoLength => Session([], 0, true)
    case BadLength(_) => Session([], 0, false)
    case CutOff => Session([], 0, false)
    case Whole(payload, rest) =>
      if |Encoded(s, n, payload)| > MAX_FRAME_BYTES then Session([], 0, false)
      else
        var more := Serve(s, rest, n + 1);
        Session(Frame(Encoded(s, n, payload)) + more.output, more.answered + 1, more.ok)
  }

  /** The encoded responses to a run of requests. */
  function Replies(s: Service, payloads: seq<Bytes>, n: nat): (r: seq<Bytes>)
    ensures |r| == |payloads| && forall i :: 0 <= i < |r| ==> r[i] == Encoded(s, n + i, payloads[i])
  {
    if payloads == [] then [] else [Encoded(s, n, payloads[0])] + Replies(s, payloads[1..], n + 1)
  }

  predicate Fits(encoded: Bytes)
  {
    |encoded| <= MAX_FRAME_BYTES
  }

  /** The first responses fit, and the one after them, if there is one, does not. */
  ghost predicate StopsAt(replies: seq<Bytes>, answered: nat)
  {
    && answered <= |replies|
    && (forall i :: 0 <= i < answered ==> Fits(replies[i]))
    && (answered < |replies| ==> !Fits(replies[answered]))
  }

  /** What a session says of the replies due: it wrote the first of them, and ended well when these were all and
      nothing was left over. */
  ghost predicate Delivers(r: Session, replies: seq<Bytes>, nothingLeft: bool)
  {
    && StopsAt(replies, r.answered)
    && r.output == Frames(replies[..r.answered])
    && (r.ok <==> r.answered == |replies| && nothingLeft)
  }

  lemma DeliversLater(replies: seq<Bytes>, more: Session, nothingLeft: bool)
    requires replies != [] && Fits(replies[0]) && Delivers(more, replies[1..], nothingLeft)
    ensures Delivers(Session(Frame(replies[0]) + more.output, more.answered + 1, more.ok), replies, nothingLeft)
  {
    assert replies[..more.answered + 1][1..] == replies[1..][..more.answered];
  }

  lemma DeliversNone(replies: seq<Bytes>, ok: bool, nothingLeft: bool)
    requires if replies == [] then ok == nothingLeft else !Fits(replies[0]) && !ok
    ensures Delivers(Session([], 0, ok), replies, nothingLeft)
  {
  }

  /** What the server makes of a stream that starts with a frame, and of one that does not. */
  lemma ServeStarts(s: Service, input: Bytes, n: nat)
    ensures var next, d, r := NextFrame(input), Deframe(input), Serve(s, input, n);
      if !next.Whole? then d == Deframed([], input) && r == Session([], 0, |input| < 4)
      else
        var more, first := Deframe(next.rest), Encoded(s, n, next.payload);
        var replies := Replies(s, d.frames, n);
        && d.rest == more.rest && replies != [] && replies[0] == first
        && replies[1..] == Replies(s, more.frames, n + 1)
        && if !Fits(first) then r == Session([], 0, false)
           else
             var later := Serve(s, next.rest, n + 1);
             r == Session(Frame(first) + later.output, later.answered + 1, later.ok)
  {
  }

  /** On any input the server answers the frames in order, one response each, up to the first response that is
      too large; it ends well exactly when it answered them all and less than a length was left. */
  lemma {:induction false} ServeLaw(s: Service, input: Bytes, n: nat)
    ensures var d := Deframe(input);
      Delivers(Serve(s, input, n), Replies(s, d.frames, n), |d.rest| < 4)
    decreases |input|
  {
    var next, d := NextFrame(input), Deframe(input);
    var replies := Replies(s, d.frames, n);
    ServeStarts(s, input, n);
    if next.Whole? && Fits(Encoded(s, n, next.payload)) {
      ServeLaw(s, next.rest, n + 1);
      DeliversLater(replies, Serve(s, next.rest, n + 1), |d.rest| < 4);
    } else {
      DeliversNone(replies, |input| < 4 && !next.Whole?, |d.rest| < 4);
    }
  }

  /** What the client reads off the responses to acceptable requests: as many as were answered, in order. */
  lemma AnswersLaw(s: Service, payloads: seq<Bytes>)
    requires (forall p <- payloads :: Acceptable(p)) && forall r :: s.encode(r) != []
    ensures var r, replies := Serve(s, Frames(payloads), 0), Replies(s, payloads, 0);
      && StopsAt(replies, r.answered)
      && Deframe(r.output) == Deframed(replies[..r.answered], [])
      && (r.ok <==> r.answered == |payloads|)
  {
    DeframeFrames(payloads, []);
    assert Frames(payloads) + [] == Frames(payloads);
    ServeLaw(s, Frames(payloads), 0);
    var r, replies := Serve(s, Frames(payloads), 0), Replies(s, payloads, 0);
    forall p <- replies[..r.answered] ensures Acceptable(p) {
      var i :| 0 <= i < r.answered && replies[i] == p;
      assert Fits(replies[i]);
    }
    DeframeFrames(replies[..r.answered], []);
    assert r.output + [] == r.output;
  }

  /** The answer to the n-th request of a connection: under its id, what performing it gave, as a result or as an error;
      or without an id, that it could not be read. */
  ghost predicate IsAnswer(s: Service, n: nat, payload: Bytes, r: Response)
  {
    match s.decode(payload)
    case Malformed(reason) =>
      !r.success && r.id == None && r.result == None && r.error == Some("Invalid MessagePack request: " + reason)
    case Parsed(request) =>
      && r.id == request.id
      && match s.perform(n, request)
         case Ok(result) => r.success && r.result == Some(result) && r.error == None
         case Err(error) => !r.success && r.result == None && r.error == Some(error)
  }

  ghost predicate Reads(read: Bytes -> Option<Response>, frame: Bytes, s: Service, n: nat, payload: Bytes)
  {
    read(frame).Some? && IsAnswer(s, n, payload, read(frame).value)
  }

  /** A conversation: whatever acceptable payloads are sent, the client that deframes the answer and decodes each
      frame finds the answers to the requests in order; and it finds one for every request exactly when every response
      fits. */
  lemma ConversationLaw(s: Service, payloads: seq<Bytes>, read: Bytes -> Option<Response>)
    requires forall p <- payloads :: Acceptable(p)
    requires forall r :: s.encode(r) != [] && read(s.encode(r)) == Some(r)
    ensures var answers := Deframe(Serve(s, Frames(payloads), 0).output);
      && answers.rest == [] && |answers.frames| <= |payloads|
      && (|answers.frames| == |payloads| <==> forall reply <- Replies(s, payloads, 0) :: Fits(reply))
      && forall i :: 0 <= i < |answers.frames| ==> Reads(read, answers.frames[i], s, i, payloads[i])
  {
    AnswersLaw(s, payloads);
    var replies := Replies(s, payloads, 0);
    var frames := Deframe(Serve(s, Frames(payloads), 0).output).frames;
    assert |frames| < |payloads| ==> replies[|frames|] in replies;
    forall i | 0 <= i < |frames| ensures Reads(read, frames[i], s, i, payloads[i]) {
      ReadsOwnAnswer(s, payloads[i], i, read);
    }
  }

  lemma ReadsOwnAnswer(s: Service, payload: Bytes, n: nat, read: Bytes -> Option<Response>)
    requires forall r :: read(s.encode(r)) == Some(r)
    ensures Reads(read, Encoded(s, n, payload), s, n, payload)
  {
  }

  /* ---------- the clients ---------- */

  /** What the command-line client takes from a stream. */
  function CliReceive(input: Bytes): Option<Bytes>
  {
    match NextFrame(input)
    case Whole(payload, _) => Some(payload)
    case _ => None
  }

  /** What the Python client takes from a stream that arrives in these chunks: its first read may not return
      fewer than four bytes, and it accepts any length. */
  function PythonReceive(chunks: seq<Bytes>): Option<Bytes>
  {
    if chunks == [] || |chunks[0]| < 4 then None
    else
      var input := Joined(chunks);
      var length := FromBe32(input[..4]);
      if |input| < 4 + length then None else Some(input[4..4 + length])
  }

  /** Chunks are what single reads can return, so none is empty. */
  function Joined(chunks: seq<Bytes>): (r: Bytes)
    ensures chunks != [] ==> |r| >= |chunks[0]| && r[..|chunks[0]|] == chunks[0]
  {
    if chunks == [] then [] else chunks[0] + Joined(chunks[1..])
  }

  /** Against the server, on a request that fits: both clients get exactly the bytes of the response. The Python
      client does so if and only if the first chunk holds the length, and otherwise reports an error. */
  lemma ClientsReceive(s: Service, payload: Bytes, chunks: seq<Bytes>)
    requires Acceptable(payload) && Acceptable(Encoded(s, 0, payload))
    requires Joined(chunks) == Serve(s, Frame(payload), 0).output
    ensures CliReceive(Joined(chunks)) == Some(Encoded(s, 0, payload))
    ensures PythonReceive(chunks) == if |chunks[0]| >= 4 then Some(Encoded(s, 0, payload)) else None
  {
    NextOfFrame(payload, []);
    assert Frame(payload) + [] == Frame(payload);
    var encoded := Encoded(s, 0, payload);
    assert Serve(s, [], 1) == Session([], 0, true);
    assert Joined(chunks) == Frame(encoded) + [];
    NextOfFrame(encoded, []);
  }

  /** A service that answers everything alike. */
  function Monotone(): Service
  {
    Service(payload => Malformed("no"), (n, request) => Ok(""), response => [7])
  }

  lemma JoinedPair(a: Bytes, b: Bytes)
    ensures Joined([a, b]) == a + b
  {
    assert Joined([b]) == b + [] == b;
    assert [a, b][1..] == [b];
  }

  lemma ByteFrame(a: Bytes, b: Bytes, x: Byte)
    requires a == [0, 0] && b == [0, 1, x]
    ensures a + b == Frame([x])
  {
    assert Be32(1) == [0, 0, 0, 1];
  }

  lemma MonotoneServes(payload: Bytes)
    requires Acceptable(payload)
    ensures Encoded(Monotone(), 0, payload) == [7]
    ensures Serve(Monotone(), Frame(payload), 0).output == Frame([7])
  {
    NextOfFrame(payload, []);
    assert Frame(payload) + [] == Frame(payload);
    assert Serve(Monotone(), [], 1) == Session([], 0, true);
    assert Frame([7]) + [] == Frame([7]);
  }

  /** A response whose length arrives in two chunks: the Python client gives up, the other one reads it. */
  lemma ShortFirstRead(payload: Bytes)
    requires Acceptable(payload)
    ensures var chunks := [[0, 0], [0, 1, 7]];
      && Acceptable(Encoded(Monotone(), 0, payload))
      && Joined(chunks) == Serve(Monotone(), Frame(payload), 0).output
      && CliReceive(Joined(chunks)) == Some([7]) && PythonReceive(chunks) == None
  {
    var chunks: seq<Bytes> := [[0, 0], [0, 1, 7]];
    MonotoneServes(payload);
    assert chunks == [chunks[0], chunks[1]];
    JoinedPair(chunks[0], chunks[1]);
    ByteFrame(chunks[0], chunks[1], 7);
    NextOfFrame([7], []);
    assert Frame([7]) + [] == Frame([7]);
  }

  /** A request longer than the limit gets no answer: the server ends with an error. */
  lemma OversizedRequestIsRefused(s: Service, payload: Bytes, n: nat)
    requires MAX_FRAME_BYTES < |payload| < U32
    ensures Serve(s, Frame(payload), n) == Session([], 0, false)
  {
    FrameLength(payload, []);
    assert Frame(payload) + [] == Frame(payload);
  }

  /** On any stream the Python client never returns a truncated or over-read payload. */
  lemma PythonReceivesWhole(chunks: seq<Bytes>)
    requires PythonReceive(chunks).Some?
    ensures var payload := PythonReceive(chunks).value;
      |payload| < U32 && Frame(payload) <= Joined(chunks)
  {
    var input := Joined(chunks);
    var payload := PythonReceive(chunks).value;
    LengthAndPayload(input, |payload|);
    Cut(input, Frame(payload), input[4 + |payload|..]);
  }

  /* ---------- streams ---------- */

  lemma Regroup(a: Bytes, b: Bytes, c: Bytes)
    ensures a + (b + c) == a + b + c
  {
  }

  lemma Cut(whole: Bytes, a: Bytes, b: Bytes)
    requires whole == a + b
    ensures whole[..|a|] == a && whole[|a|..] == b
  {
  }

  lemma CutTwice(whole: Bytes, a: nat, b: nat)
    requires a + b <= |whole|
    ensures whole[a..][..b] == whole[a..a + b] && whole[a..][b..] == whole[a + b..]
  {
  }

  /** One end of a connected socket: the chunks still to be read, and what was written. */
  class Stream {
    var chunks: seq<Bytes>
    var sent: Bytes

    ghost predicate Valid()
      reads this
    {
      forall i :: 0 <= i < |chunks| ==> chunks[i] != []
    }

    ghost function Pending(): Bytes
      reads this
    {
      Joined(chunks)
    }

    /** One read: at most this many bytes of the first chunk; nothing only at the end of the stream. */
    method Read(most: nat) returns (got: Bytes)
      requires Valid() && most > 0
      modifies this`chunks
      ensures Valid()
      ensures old(Pending()) == got + Pending() && |got| <= most
      ensures got == [] <==> old(chunks) == []
      ensures old(chunks) != [] ==> |got| == if |old(chunks)[0]| < most then |old(chunks)[0]| else most
    {
      if chunks == [] { return []; }
      var first := chunks[0];
      assert first != [];
      if |first| <= most {
        got, chunks := first, chunks[1..];
      } else {
        got, chunks := first[..most], [first[most..]] + chunks[1..];
        assert chunks[1..] == old(chunks)[1..];
        assert first == got + first[most..];
      }
    }

    /** Reads until this many bytes have come; at the end of the stream it fails. */
    method ReadExact(n: nat) returns (r: Option<Bytes>)
      requires Valid()
      modifies this`chunks
      ensures Valid()
      ensures |old(Pending())| >= n ==> r == Some(old(Pending())[..n]) && Pending() == old(Pending())[n..]
      ensures |old(Pending())| < n ==> r == None && Pending() == []
    {
      var data: Bytes := [];
      ghost var whole := Pending();
      while |data| < n
        invariant Valid() && |data| <= n
        invariant whole == data + Pending()
        decreases n - |data|
      {
        var chunk := Read(n - |data|);
        if chunk == [] { return None; }
        Regroup(data, chunk, Pending());
        data := data + chunk;
      }
      Cut(whole, data, Pending());
      r := Some(data);
    }

    method WriteAll(bytes: Bytes)
      modifies this`sent
      ensures sent == old(sent) + bytes
    {
      sent := sent + bytes;
    }
  }

  lemma Associate(sent: Bytes, length: Bytes, encoded: Bytes, more: Bytes)
    ensures sent + (length + encoded + more) == sent + length + encoded + more
  {
  }

  /** The server loop on a connection. */
  method HandleUnixConnection(s: Service, stream: Stream) returns (answered: nat, ok: bool)
    requires stream.Valid()
    modifies stream
    ensures stream.Valid()
    ensures Session(stream.sent, answered, ok) ==
      var r := Serve(s, old(stream.Pending()), 0); Session(old(stream.sent) + r.output, r.answered, r.ok)
  {
    answered := 0;
    ghost var whole := Serve(s, stream.Pending(), 0);
    while true
      invariant stream.Valid()
      invariant var r := Serve(s, stream.Pending(), answered);
        && whole.ok == r.ok && whole.answered == answered + r.answered
        && old(stream.sent) + whole.output == stream.sent + r.output
      decreases |stream.Pending()|
    {
      ghost var input := stream.Pending();
      var header := stream.ReadExact(4);
      if header.None? { return answered, true; }
      var length := FromBe32(header.value);
      if length == 0 || length > MAX_FRAME_BYTES { return answered, false; }
      var payload := stream.ReadExact(length);
      if payload.None? { return answered, false; }
      CutTwice(input, 4, length);
      assert NextFrame(input) == Whole(payload.value, stream.Pending());
      var encoded := Encoded(s, answered, payload.value);
      if |encoded| > MAX_FRAME_BYTES { return answered, false; }
      ghost var more := Serve(s, stream.Pending(), answered + 1);
      Associate(stream.sent, Be32(|encoded| % U32), encoded, more.output);
      stream.WriteAll(Be32(|encoded| % U32));
      stream.WriteAll(encoded);
      answered := answered + 1;
    }
  }

  /** The Python client's exchange; packing a length of more than 32 bits raises an error. */
  method SendRequest(stream: Stream, encoded: Bytes) returns (r: Option<Bytes>)
    requires stream.Valid()
    modifies stream
    ensures |encoded| >= U32 ==> r == None && stream.sent == old(stream.sent)
    ensures |encoded| < U32 ==>
      r == PythonReceive(old(stream.chunks)) && stream.sent == old(stream.sent) + Frame(encoded)
  {
    if |encoded| >= U32 { return None; }
    stream.WriteAll(Frame(encoded));
    ghost var chunks, input := stream.chunks, stream.Pending();
    var lenBytes := stream.Read(4);
    if |lenBytes| < 4 { return None; }
    assert lenBytes == input[..4];
    var respLen := FromBe32(lenBytes);
    var data: Bytes := [];
    while |data| < respLen
      invariant stream.Valid() && |data| <= respLen
      invariant input == lenBytes + (data + stream.Pending())
      invariant stream.sent == old(stream.sent) + Frame(encoded)
      decreases respLen - |data|
    {
      var chunk := stream.Read(respLen - |data|);
      if chunk == [] { break; }
      Regroup(data, chunk, stream.Pending());
      data := data + chunk;
    }
    if |data| < respLen { return None; }
    assert data == input[4..4 + respLen];
    r := Some(data);
  }

  /** The command-line client's exchange. */
  method Call(stream: Stream, payload: Bytes) returns (r: Option<Bytes>)
    requires stream.Valid()
    modifies stream
    ensures Fits(payload) ==> r == CliReceive(old(stream.Pending())) && stream.sent == old(stream.sent) + Frame(payload)
    ensures !Fits(payload) ==> r == None && stream.sent == old(stream.sent)
  {
    if |payload| > MAX_FRAME_BYTES { return None; }
    stream.WriteAll(Be32(|payload| % U32));
    stream.WriteAll(payload);
    ghost var input := stream.Pending();
    var header := stream.ReadExact(4);
    if header.None? { return None; }
    var length := FromBe32(header.value);
    if length == 0 || length > MAX_FRAME_BYTES { return None; }
    r := stream.ReadExact(length);
    if r.Some? { assert r.value == input[4..4 + length]; }
  }
}
