/** What a chat's answer comes from: the transcript of the model's responses and the tools' answers, and the text of the
    prompt (aisd/src/inference/mod.rs). */
module ChatLaws {
  import opened Options
  import opened Text
  import opened ChatState
  import opened Inference

  /* ---------- what a response says ---------- */

  /** The response holds this text between its first opening and its first closing tag. */
  ghost predicate Holds(response: string, json: string)
  {
    exists i: nat, j: nat :: HoldsAt(response, json, i, j)
  }

  ghost predicate HoldsAt(response: string, json: string, i: nat, j: nat)
  {
    && FirstAt(response, OPENING, i) && FirstAt(response, CLOSING, j)
    && i + |OPENING| <= j <= |response| && json == response[i + |OPENING|..j]
  }

  /** Its first closing tag starts before its first opening tag ends. */
  ghost predicate Crosses(response: string)
  {
    exists i: nat, j: nat :: FirstAt(response, OPENING, i) && FirstAt(response, CLOSING, j) && j < i + |OPENING|
  }

  ghost predicate CallsTool(w: World, response: string)
  {
    exists json :: Holds(response, json) && w.wellFormed(json)
  }

  lemma FirstIsFound(text: string, tag: string, i: nat)
    ensures FirstAt(text, tag, i) <==> FindTag(text, tag) == Some(i)
  {
    if FirstAt(text, tag, i) {
      var r := FindTag(text, tag);
      assert r.Some?;
      assert !(i < r.value) && !(r.value < i);
    }
  }

  lemma SliceIsHeld(response: string, json: string)
    ensures ToolTextOf(response) == Slice(json) <==> Holds(response, json)
  {
    var start, end := FindTag(response, OPENING), FindTag(response, CLOSING);
    if ToolTextOf(response) == Slice(json) {
      FirstIsFound(response, OPENING, start.value);
      FirstIsFound(response, CLOSING, end.value);
      assert HoldsAt(response, json, start.value, end.value);
    }
    if Holds(response, json) {
      var i: nat, j: nat :| HoldsAt(response, json, i, j);
      FirstIsFound(response, OPENING, i);
      FirstIsFound(response, CLOSING, j);
    }
  }

  /* ---------- transcripts ---------- */

  /** The text the model is given after a response that called a tool. */
  ghost predicate Asks(w: World, full: string, response: string, prompt: string)
  {
    exists json :: Holds(response, json) && w.wellFormed(json) && prompt ==
      full + response + "\n<tool_result>\n" + w.execute(json) + "\n</tool_result>\n[assistant]:"
  }

  /** After so many responses, the last of which called a tool, the model gives this one, or none. */
  ghost predicate Continues(w: World, full: string, last: string, asked: nat, next: Option<string>)
  {
    exists prompt :: Asks(w, full, last, prompt) && w.complete(asked, prompt) == next
  }

  /** The responses of the model: the first to the prompt, each other one to the prompt, the response before it and the
      answer of the tool that it called. */
  ghost predicate Transcript(w: World, full: string, responses: seq<string>)
  {
    && 1 <= |responses| <= 4 && w.complete(0, full) == Some(responses[0])
    && forall i :: 1 <= i < |responses| ==> Continues(w, full, responses[i - 1], i, Some(responses[i]))
  }

  /** How a chat ends with these responses: with the last one cleaned, if it is the fourth or calls no tool; with an
      error, if the model does not go on after a call; with a panic, if the tags of the last one cross. */
  ghost predicate Ends(w: World, full: string, responses: seq<string>, r: ChatResult)
    requires responses != []
  {
    var n := |responses|;
    var last := responses[n - 1];
    match r
    case Answer(text, requests) =>
      requests == n && text == Clean(last) && (n == 4 || (!CallsTool(w, last) && !Crosses(last)))
    case ModelError => n < 4 && Continues(w, full, last, n, None)
    case Panicked => n < 4 && Crosses(last)
  }

  /** What the loop does with a response, in these terms. */
  lemma VerdictMeans(w: World, full: string, response: string, asked: nat)
    ensures match VerdictOn(w, full, response, asked)
      case Broken => Crosses(response)
      case Final => !CallsTool(w, response) && !Crosses(response)
      case Unanswered => Continues(w, full, response, asked, None)
      case Continue(next) => Continues(w, full, response, asked, Some(next))
  {
    ToolTextLaw(response);
    var text := ToolTextOf(response);
    forall json ensures text == Slice(json) <==> Holds(response, json) { SliceIsHeld(response, json); }
    if text.Slice? && w.wellFormed(text.json) {
      assert Asks(w, full, response, ToolPrompt(full, response, w.execute(text.json)));
    }
  }

  /** And the other way round. */
  lemma VerdictIs(w: World, full: string, response: string, asked: nat)
    ensures Crosses(response) ==> VerdictOn(w, full, response, asked) == Broken
    ensures !CallsTool(w, response) && !Crosses(response) ==> VerdictOn(w, full, response, asked) == Final
    ensures Continues(w, full, response, asked, None) ==> VerdictOn(w, full, response, asked) == Unanswered
    ensures forall next :: Continues(w, full, response, asked, Some(next)) ==>
      VerdictOn(w, full, response, asked) == Continue(next)
  {
    ToolTextLaw(response);
    var text := ToolTextOf(response);
    forall json ensures text == Slice(json) <==> Holds(response, json) { SliceIsHeld(response, json); }
    if text.Slice? { assert Holds(response, text.json); }
    forall next, prompt | Asks(w, full, response, prompt) && w.complete(asked, prompt) == next
      ensures VerdictOn(w, full, response, asked) == if next.None? then Unanswered else Continue(next.value)
    {
      assert prompt == ToolPrompt(full, response, w.execute(text.json));
    }
  }

  /** With a transcript so far, the chat ends as the rounds that are left do. */
  lemma {:induction false} TranscriptLeads(w: World, full: string, responses: seq<string>)
    requires Transcript(w, full, responses)
    ensures Converse(w, full) == Rounds(w, full, responses[|responses| - 1], |responses|, 4 - |responses|)
    decreases |responses|
  {
    var n := |responses|;
    if n > 1 {
      var init := responses[..n - 1];
      assert forall i :: 0 <= i < n - 1 ==> init[i] == responses[i];
      TranscriptLeads(w, full, init);
      VerdictIs(w, full, responses[n - 2], n - 1);
      RoundsAfter(w, full, responses[n - 2], n - 1, 4 - (n - 1));
    }
  }

  /** A chat can end in one way only. */
  lemma EndsAsItDoes(w: World, full: string, responses: seq<string>, r: ChatResult)
    requires Transcript(w, full, responses) && Ends(w, full, responses, r)
    ensures Converse(w, full) == r
  {
    var n := |responses|;
    TranscriptLeads(w, full, responses);
    if n < 4 {
      VerdictIs(w, full, responses[n - 1], n);
      RoundsAfter(w, full, responses[n - 1], n, 4 - n);
    }
  }

  /** A transcript goes on until the chat ends. */
  lemma {:induction false} TranscriptEnds(w: World, full: string, responses: seq<string>) returns (all: seq<string>)
    requires Transcript(w, full, responses)
    ensures Transcript(w, full, all) && Ends(w, full, all, Converse(w, full))
    decreases 4 - |responses|
  {
    var n := |responses|;
    var last := responses[n - 1];
    all := responses;
    TranscriptLeads(w, full, responses);
    if n < 4 {
      VerdictMeans(w, full, last, n);
      RoundsAfter(w, full, last, n, 4 - n);
      match VerdictOn(w, full, last, n) {
        case Continue(next) => all := TranscriptEnds(w, full, responses + [next]);
        case _ =>
      }
    }
  }

  /** A chat fails at once if the model does not answer the prompt. Otherwise it has an outcome exactly if the model and
      the tools lead to it: there are responses, the first to the prompt and each other one to the prompt with the
      response before it and the answer of the tool it called, and with them the chat ends that way. */
  lemma ConverseLaw(w: World, full: string, r: ChatResult)
    ensures w.complete(0, full) == None ==> Converse(w, full) == ModelError
    ensures w.complete(0, full).Some? ==>
      (Converse(w, full) == r <==>
         exists responses :: Transcript(w, full, responses) && Ends(w, full, responses, r))
  {
    if w.complete(0, full).Some? {
      var all := TranscriptEnds(w, full, [w.complete(0, full).value]);
      forall responses | Transcript(w, full, responses) && Ends(w, full, responses, r) ensures Converse(w, full) == r {
        EndsAsItDoes(w, full, responses, r);
      }
    }
  }

  /* ---------- cleaning ---------- */

  /** The text without the white space around it. */
  ghost predicate Trimmed(s: string, t: string)
  {
    exists a: nat, b: nat :: TrimmedAt(s, t, a, b)
  }

  ghost predicate TrimmedAt(s: string, t: string, a: nat, b: nat)
  {
    && a <= b <= |s| && t == s[a..b]
    && (forall i :: 0 <= i < a ==> IsSpace(s[i])) && (forall i :: b <= i < |s| ==> IsSpace(s[i]))
    && (t != "" ==> !IsSpace(t[0]) && !IsSpace(t[|t| - 1]))
  }

  lemma {:induction false} SkipsSpaces(s: string, i: nat)
    requires i <= |s|
    ensures var a := SkipSpaces(s, i); (forall k :: i <= k < a ==> IsSpace(s[k])) && (a < |s| ==> !IsSpace(s[a]))
    decreases |s| - i
  {
    if i < |s| && IsSpace(s[i]) { SkipsSpaces(s, i + 1); }
  }

  lemma {:induction false} DropsSpaces(s: string, start: nat, end: nat)
    requires start <= end <= |s|
    ensures var b := DropSpaces(s, start, end);
      (forall k :: b <= k < end ==> IsSpace(s[k])) && (start < b ==> !IsSpace(s[b - 1]))
    decreases end
  {
    if start < end && IsSpace(s[end - 1]) { DropsSpaces(s, start, end - 1); }
  }

  lemma StripTrims(s: string)
    ensures Trimmed(s, Strip(s))
  {
    var a := SkipSpaces(s, 0);
    var b := DropSpaces(s, a, |s|);
    SkipsSpaces(s, 0);
    DropsSpaces(s, a, |s|);
    assert TrimmedAt(s, Strip(s), a, b);
  }

  /** The answer is the text before the first opening tag, or all of it, without the white space around it. */
  lemma CleanLaw(response: string)
    ensures (forall i: nat :: !FirstAt(response, OPENING, i)) ==> Trimmed(response, Clean(response))
    ensures forall i: nat :: FirstAt(response, OPENING, i) && i <= |response| ==>
      Trimmed(response[..i], Clean(response))
  {
    match FindTag(response, OPENING)
    case None =>
      StripTrims(response);
    case Some(first) =>
      FirstIsFound(response, OPENING, first);
      StripTrims(response[..first]);
      forall i: nat | FirstAt(response, OPENING, i) ensures i == first { FirstIsFound(response, OPENING, i); }
  }

  /* ---------- the prompt ---------- */

  /** Exchanges as the prompt shows them, oldest first. */
  function Dialogue(pairs: seq<Pair>): string
  {
    if pairs == [] then ""
    else "[user]: " + pairs[0].0 + "\n[assistant]: " + pairs[0].1 + "\n" + Dialogue(pairs[1..])
  }

  lemma {:induction false} RenderConcat(a: History, b: History)
    ensures Render(a + b) == Render(a) + Render(b)
    decreases |b|
  {
    if b == [] {
      assert a + b == a;
    } else {
      var init := b[..|b| - 1];
      assert (a + b)[..|a + b| - 1] == a + init;
      RenderConcat(a, init);
    }
  }

  lemma {:induction false} RenderTurns(pairs: seq<Pair>)
    ensures Render(Turns(pairs)) == Dialogue(pairs)
  {
    if pairs != [] {
      RenderConcat(Exchange(pairs[0].0, pairs[0].1), Turns(pairs[1..]));
      RenderExchange(pairs[0].0, pairs[0].1);
      RenderTurns(pairs[1..]);
    }
  }

  lemma RenderTwo(a: Turn, b: Turn)
    ensures Render([a, b]) == RenderTurn(a) + RenderTurn(b)
  {
    assert [a, b][..1] == [a] && [a][..0] == [];
    assert Render([a]) == RenderTurn(a);
  }

  lemma TurnText(role: string, mark: string, content: string)
    requires mark == "[" + role + "]: "
    ensures RenderTurn(Turn(role, content)) == mark + content + "\n"
  {
  }

  lemma Labels()
    ensures "[user]: " == "[" + "user" + "]: "
    ensures "[assistant]: " == "[" + "assistant" + "]: "
  {
  }

  lemma Regroup(a: string, b: string, newline: string, c: string, d: string, middle: string)
    requires middle == newline + c
    ensures (a + b + newline) + (c + d + newline) == a + b + middle + d + newline
  {
  }

  lemma RenderExchange(prompt: string, response: string)
    ensures Render(Exchange(prompt, response)) == "[user]: " + prompt + "\n[assistant]: " + response + "\n"
  {
    RenderTwo(Turn("user", prompt), Turn("assistant", response));
    Labels();
    TurnText("user", "[user]: ", prompt);
    TurnText("assistant", "[assistant]: ", response);
    Regroup("[user]: ", prompt, "\n", "[assistant]: ", response, "\n[assistant]: ");
  }

  /** In every run the prompt of a chat shows the last ten exchanges completed since the last clear, or all of them,
      word for word and in order. */
  lemma PromptShowsRecentExchanges(states: seq<Daemon>, actions: seq<Action>, k: nat, n: nat, session: string)
    requires IsRun(states, actions, k) && n < |states|
    ensures Render(Trim(HistoryOf(states[n].conversations, session))) ==
      Dialogue(Latest(PairsOf(states[n].completed, session), 10))
  {
    PromptUsesRecentExchanges(states, actions, k, n, session);
    RenderTurns(Latest(PairsOf(states[n].completed, session), 10));
  }
}
