/** The chat entry points of the daemon: the critical sections on the shared conversations, and the
    bounded tool loop that runs between them (aisd/src/inference/mod.rs). */
module Inference {
  import opened Options
  import opened Text
  import opened ChatState

  const OPENING := "<tool_call>"
  const CLOSING := "</tool_call>"

  /* ---------- searching ---------- */

  /** The tag stands at this place of the text. */
  predicate At(text: string, tag: string, i: nat)
  {
    i + |tag| <= |text| && text[i..i + |tag|] == tag
  }

  /** Where the tag first occurs. */
  function FindTag(text: string, tag: string): (r: Option<nat>)
    ensures r.Some? ==> At(text, tag, r.value) && forall j: nat :: j < r.value ==> !At(text, tag, j)
    ensures r.None? ==> forall j: nat :: !At(text, tag, j)
  {
    FindFrom(text, tag, 0)
  }

  function FindFrom(text: string, tag: string, i: nat): (r: Option<nat>)
    requires forall j: nat :: j < i ==> !At(text, tag, j)
    ensures r.Some? ==> At(text, tag, r.value) && forall j: nat :: j < r.value ==> !At(text, tag, j)
    ensures r.None? ==> forall j: nat :: !At(text, tag, j)
    decreases |text| - i
  {
    if At(text, tag, i) then Some(i)
    else if i >= |text| then None
    else FindFrom(text, tag, i + 1)
  }

  /* ---------- tool calls ---------- */

  /** The text between the tags; slicing panics when the closing tag lies too far left. */
  datatype ToolText = NoTags | Slice(json: string) | Panics

  function ToolTextOf(text: string): ToolText
  {
    match FindTag(text, OPENING)
    case None => NoTags
    case Some(start) =>
      match FindTag(text, CLOSING)
      case None => NoTags
      case Some(end) =>
        if start + |OPENING| <= end then Slice(text[start + |OPENING|..end]) else Panics
  }

  /** A tag in a slice is a tag in the whole. */
  lemma TagInSlice(text: string, a: nat, b: nat, tag: string, j: nat)
    requires a <= b <= |text| && At(text[a..b], tag, j)
    ensures At(text, tag, a + j)
  {
    var slice := text[a..b];
    forall k | 0 <= k < |tag| ensures text[a + j + k] == tag[k] {
      assert slice[j..j + |tag|][k] == tag[k];
    }
    assert text[a + j..a + j + |tag|] == tag;
  }

  /** Parsing a response panics exactly when both tags occur and the first closing one starts before the end
      of the first opening one; a slice it yields holds no closing tag. */
  lemma ToolTextLaw(text: string)
    ensures ToolTextOf(text) == Panics <==>
      exists i: nat, j: nat :: FirstAt(text, OPENING, i) && FirstAt(text, CLOSING, j) && j < i + |OPENING|
    ensures ToolTextOf(text).Slice? ==> FindTag(ToolTextOf(text).json, CLOSING) == None
  {
    var start, end := FindTag(text, OPENING), FindTag(text, CLOSING);
    if ToolTextOf(text) == Panics {
      assert FirstAt(text, OPENING, start.value) && FirstAt(text, CLOSING, end.value);
    }
    if ToolTextOf(text).Slice? {
      var json := ToolTextOf(text).json;
      var from := start.value + |OPENING|;
      forall j: nat ensures !At(json, CLOSING, j) {
        if At(json, CLOSING, j) { TagInSlice(text, from, end.value, CLOSING, j); }
      }
    }
  }

  ghost predicate FirstAt(text: string, tag: string, i: nat)
  {
    At(text, tag, i) && forall j: nat :: j < i ==> !At(text, tag, j)
  }

  lemma OpeningStarts(text: string, j: nat)
    ensures At(text, OPENING, j) ==> j + 1 < |text| && text[j] == '<' && text[j + 1] == 't'
  {
    if At(text, OPENING, j) {
      assert text[j..j + |OPENING|][0] == text[j] && text[j..j + |OPENING|][1] == text[j + 1];
    }
  }

  /** A response that names the tags in the wrong order makes the parser panic. */
  lemma ReversedTagsPanic()
    ensures ToolTextOf(CLOSING + OPENING) == Panics
  {
    var text := CLOSING + OPENING;
    assert text[|CLOSING|..|CLOSING| + |OPENING|] == OPENING && text[0..|CLOSING|] == CLOSING;
    forall j: nat | j < |CLOSING| ensures !At(text, OPENING, j) {
      assert text[j] == CLOSING[j] && text[1] == '/';
      OpeningStarts(text, j);
    }
    assert FirstAt(text, OPENING, |CLOSING|) && FirstAt(text, CLOSING, 0);
    ToolTextLaw(text);
  }

  /** The characters that Unicode calls white space. */
  predicate IsSpace(c: char)
  {
    var u := c as int;
    || 9 <= u <= 13 || u == 32 || u == 0x85 || u == 0xA0 || u == 0x1680
    || 0x2000 <= u <= 0x200A || u == 0x2028 || u == 0x2029 || u == 0x202F || u == 0x205F || u == 0x3000
  }

  /** The first place from `i` on that holds no space. */
  function SkipSpaces(s: string, i: nat): (r: nat)
    requires i <= |s|
    ensures i <= r <= |s|
    decreases |s| - i
  {
    if i < |s| && IsSpace(s[i]) then SkipSpaces(s, i + 1) else i
  }

  /** The end of the text from `start` on without the spaces that end it. */
  function DropSpaces(s: string, start: nat, end: nat): (r: nat)
    requires start <= end <= |s|
    ensures start <= r <= end
    decreases end
  {
    if start < end && IsSpace(s[end - 1]) then DropSpaces(s, start, end - 1) else end
  }

  function Strip(s: string): string
  {
    var start := SkipSpaces(s, 0);
    s[start..DropSpaces(s, start, |s|)]
  }

  /** What is kept of the final response: the text before the first opening tag, stripped. */
  function Clean(response: string): string
  {
    Strip(match FindTag(response, OPENING) case None => response case Some(i) => response[..i])
  }

  lemma StripIsSlice(s: string) returns (a: nat, b: nat)
    ensures a <= b <= |s| && Strip(s) == s[a..b]
  {
    a := SkipSpaces(s, 0);
    b := DropSpaces(s, a, |s|);
  }

  lemma SliceOfPrefix(text: string, cut: nat, a: nat, b: nat)
    requires a <= b <= cut <= |text|
    ensures text[..cut][a..b] == text[a..b]
  {
    forall i | 0 <= i < b - a ensures text[..cut][a..b][i] == text[a..b][i] {
      assert text[..cut][a + i] == text[a + i];
    }
  }

  /** The text before the first tag holds no tag, stripped or not. */
  lemma StripHoldsNoTag(text: string, cut: nat, tag: string)
    requires cut <= |text| && forall j: nat :: At(text, tag, j) ==> cut <= j
    requires tag != ""
    ensures FindTag(Strip(text[..cut]), tag) == None
  {
    var kept := text[..cut];
    var a, b := StripIsSlice(kept);
    SliceOfPrefix(text, cut, a, b);
    forall j: nat ensures !At(Strip(kept), tag, j) {
      if At(Strip(kept), tag, j) { TagInSlice(text, a, b, tag, j); }
    }
  }

  /** The response that is stored never holds an opening tag. */
  lemma CleanHoldsNoTag(response: string)
    ensures FindTag(Clean(response), OPENING) == None
  {
    var first := FindTag(response, OPENING);
    var cut := match first case None => |response| case Some(i) => i;
    StripHoldsNoTag(response, cut, OPENING);
    assert response[..|response|] == response;
  }

  /* ---------- the tool loop ---------- */

  /** What a chat depends on but does not determine: the model's completion of a prompt at its n-th request
      (None for an error), whether a tool text is a well-formed call, and what the tool answers. */
  datatype World = World(complete: (nat, string) -> Option<string>, wellFormed: string -> bool,
                         execute: string -> string)

  datatype ChatResult = Answer(text: string, requests: nat) | ModelError | Panicked

  function ToolPrompt(full: string, response: string, answer: string): string
  {
    full + response + "\n<tool_result>\n" + answer + "\n</tool_result>\n[assistant]:"
  }

  datatype Verdict = Final | Broken | Unanswered | Continue(response: string)

  /** What the loop does with a response: run the tool it calls, if any, and ask the model to go on. */
  function VerdictOn(w: World, full: string, response: string, asked: nat): Verdict
  {
    match ToolTextOf(response)
    case Panics => Broken
    case NoTags => Final
    case Slice(json) =>
      if !w.wellFormed(json) then Final
      else
        match w.complete(asked, ToolPrompt(full, response, w.execute(json)))
        case None => Unanswered
        case Some(continued) => Continue(continued)
  }

  /** At most `left` more rounds, after `asked` completions: whatever the model and the tools answer, the loop ends
      in that many, and a text it gives holds no tool call. */
  function Rounds(w: World, full: string, response: string, asked: nat, left: nat): (r: ChatResult)
    ensures r.Answer? ==> asked <= r.requests <= asked + left && FindTag(r.text, OPENING) == None
    decreases left, |full|
  {
    CleanHoldsNoTag(response);
    if left == 0 then Answer(Clean(response), asked)
    else
      match VerdictOn(w, full, response, asked)
      case Broken => Panicked
      case Final => Answer(Clean(response), asked)
      case Unanswered => ModelError
      case Continue(continued) => Rounds(w, full, continued, asked + 1, left - 1)
  }

  /** A chat asks the model at most four times, and an answer it gives holds no tool call. */
  function Converse(w: World, full: string): (r: ChatResult)
    ensures r.Answer? ==> 1 <= r.requests <= 4 && FindTag(r.text, OPENING) == None
  {
    match w.complete(0, full)
    case None => ModelError
    case Some(response) => Rounds(w, full, response, 1, 3)
  }

  /** What a turn makes of the rounds that are left. */
  lemma RoundsAfter(w: World, full: string, response: string, asked: nat, left: nat)
    requires left > 0
    ensures match VerdictOn(w, full, response, asked)
      case Broken => Rounds(w, full, response, asked, left) == Panicked
      case Unanswered => Rounds(w, full, response, asked, left) == ModelError
      case Final => Rounds(w, full, response, asked, left) == Answer(Clean(response), asked)
      case Continue(continued) =>
        Rounds(w, full, response, asked, left) == Rounds(w, full, continued, asked + 1, left - 1)
  {
  }

  /** Once the model stops calling tools its response is the answer, however many rounds were left. */
  lemma NoToolCallEndsLoop(w: World, full: string, response: string, asked: nat, left: nat)
    requires FindTag(response, OPENING) == None
    ensures Rounds(w, full, response, asked, left) == Answer(Strip(response), asked)
  {
  }

  /* ---------- the shared state ---------- */

  function RenderTurn(t: Turn): string
  {
    "[" + t.role + "]: " + t.content + "\n"
  }

  function Render(h: History): string
  {
    if h == [] then "" else Render(h[..|h| - 1]) + RenderTurn(h[|h| - 1])
  }

  class InferenceState {
    var conversations: Conversations

    constructor ()
      ensures conversations == map[]
    {
      conversations := map[];
    }

    /** The first critical section: trim the history and build the prompt from it. */
    method BeginChat(tools: string, prompt: string, session: string) returns (full: string)
      modifies this
      ensures conversations == old(conversations)[session := Trim(HistoryOf(old(conversations), session))]
      ensures full ==
        tools + "\n\n" + Render(Trim(HistoryOf(old(conversations), session))) + "[user]: " + prompt + "\n[assistant]:"
    {
      var history := if session in conversations then conversations[session] else [];
      if |history| > 20 {
        var drainCount := |history| - 20;
        history := history[drainCount..];
      }
      conversations := conversations[session := history];
      var turns := "";
      for i := 0 to |history|
        invariant turns == Render(history[..i])
      {
        assert history[..i + 1][..i] == history[..i];
        turns := turns + RenderTurn(history[i]);
      }
      assert history[..|history|] == history;
      full := tools + "\n\n" + turns + "[user]: " + prompt + "\n[assistant]:";
    }

    /** The second critical section: append the exchange. */
    method EndChat(prompt: string, response: string, session: string)
      modifies this
      ensures conversations ==
        old(conversations)[session := HistoryOf(old(conversations), session) + Exchange(prompt, response)]
    {
      var history := if session in conversations then conversations[session] else [];
      history := history + [Turn("user", prompt)];
      history := history + [Turn("assistant", response)];
      assert history == HistoryOf(conversations, session) + Exchange(prompt, response);
      conversations := conversations[session := history];
    }

    method ClearSession(session: string)
      modifies this
      ensures conversations == old(conversations) - {session}
    {
      conversations := conversations - {session};
    }
  }

  /** One turn of the loop: parse the response, run the tool, ask the model to go on. */
  method OneTurn(w: World, full: string, response: string, asked: nat) returns (v: Verdict)
    ensures v == VerdictOn(w, full, response, asked)
  {
    match ToolTextOf(response) {
      case Panics => return Broken;
      case NoTags => return Final;
      case Slice(json) =>
        if !w.wellFormed(json) { return Final; }
        var toolResult := w.execute(json);
        var continued := w.complete(asked, ToolPrompt(full, response, toolResult));
        if continued.None? { return Unanswered; }
        return Continue(continued.value);
    }
  }

  /** The loop between the two sections. */
  method RunTools(w: World, full: string) returns (r: ChatResult)
    ensures r == Converse(w, full)
  {
    var first := w.complete(0, full);
    if first.None? { return ModelError; }
    var response := first.value;
    var asked := 1;
    for iteration := 0 to 3
      invariant asked == 1 + iteration
      invariant Rounds(w, full, response, asked, 3 - iteration) == Converse(w, full)
    {
      RoundsAfter(w, full, response, asked, 3 - iteration);
      var verdict := OneTurn(w, full, response, asked);
      match verdict {
        case Broken => return Panicked;
        case Unanswered => return ModelError;
        case Final => break;
        case Continue(continued) =>
          response := continued;
          asked := asked + 1;
      }
    }
    r := Answer(Clean(response), asked);
  }
}
