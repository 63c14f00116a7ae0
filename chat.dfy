/** The chat pane: the transcript of turns, the input box, and sending a
    question to the model while its streamed answer fills the newest turn. */
module Chat {
  import opened Wrappers
  import opened Strings
  import opened Prompt
  import opened Stream

  /** One exchange: the user's message and the model's answer so far. */
  datatype Turn = Turn(user: string, ai: string)

  /** The transcript with the newest turn's answer set to `ai`; an empty
      transcript has no turn to fill. */
  function WithAnswer(turns: seq<Turn>, ai: string): (r: seq<Turn>)
    ensures |r| == |turns|
    ensures forall i :: 0 <= i < |turns| - 1 ==> r[i] == turns[i]
    ensures turns != [] ==> r[|r| - 1] == Turn(turns[|turns| - 1].user, ai)
  {
    if turns == [] then [] else turns[..|turns| - 1] + [turns[|turns| - 1].(ai := ai)]
  }

  class Session {
    var messages: seq<Turn>
    var input: string
    var isChatting: bool
    /** Whether `abortControllerRef.current` holds a controller. */
    var controller: bool
    /** `streamedText` of the send in flight. */
    var streamed: string

    /** Between steps a send is in flight exactly when it can be stopped. */
    predicate Valid()
      reads this
    {
      isChatting == controller
    }

    constructor()
      ensures Valid()
      ensures messages == [] && input == "" && !isChatting && !controller
    {
      messages := [];
      input := "";
      isChatting := false;
      controller := false;
      streamed := "";
    }

    /** Typing in the input box. */
    method Type(text: string)
      modifies this`input
      ensures input == text
    {
      input := text;
    }

    /** `handleSend` up to the request: a blank input or a send in flight
        refuses; otherwise a controller is made, the input is taken and
        cleared, an empty turn is added and the prompt is built from the
        pane's context. */
    method Begin(ctx: Context) returns (prompt: Option<string>)
      requires Valid()
      modifies this
      ensures Valid()
      ensures prompt.None? <==> IsBlank(old(input)) || old(isChatting)
      ensures prompt.None? ==> unchanged(this)
      ensures prompt.Some? ==>
        && prompt.value == ModelPrompt(old(input), ctx, false)
        && messages == old(messages) + [Turn(old(input), "")]
        && input == "" && isChatting && controller && streamed == ""
    {
      if IsBlank(input) || isChatting {
        return None;
      }
      controller := true;
      var userMsg := input;
      input := "";
      messages := messages + [Turn(userMsg, "")];
      isChatting := true;
      prompt := Some(ModelPrompt(userMsg, ctx, false));
      streamed := "";
    }

    /** One fragment of the answer: it is added to the text so far, which
        becomes the newest turn's answer; every other turn stays as it was. */
    method Take(fragment: string)
      modifies this`messages, this`streamed
      ensures streamed == old(streamed) + fragment
      ensures messages == WithAnswer(old(messages), streamed)
    {
      streamed := streamed + fragment;
      messages := WithAnswer(messages, streamed);
    }

    /** The stream's `finally`: nothing is in flight any more. */
    method Finish()
      modifies this`isChatting, this`controller
      ensures Valid() && !isChatting && !controller
    {
      isChatting := false;
      controller := false;
    }

    /** `handleStop`: with a controller, it is aborted and the send is no
        longer in flight; without one nothing happens. */
    method Stop() returns (aborted: bool)
      requires Valid()
      modifies this`isChatting, this`controller
      ensures Valid()
      ensures aborted == old(controller)
      ensures !isChatting && !controller
    {
      aborted := controller;
      if controller {
        isChatting := false;
        controller := false;
      }
    }

    /** The whole of `handleSend`: `ask` is the model server's reply to a
        prompt and `abortAt` the read before which a stop is seen, if any.
        A refused send changes nothing; otherwise exactly one turn is added,
        and its answer is everything the stream yielded, in order. */
    method Send(ctx: Context, ask: string -> Reply, abortAt: Option<nat>, parse: Parser)
      returns (sent: bool)
      requires Valid()
      modifies this
      ensures Valid()
      ensures sent <==> !IsBlank(old(input)) && !old(isChatting)
      ensures !sent ==> unchanged(this)
      ensures sent ==>
        && messages == old(messages)
           + [Turn(old(input), Concat(Fragments(ask(ModelPrompt(old(input), ctx, false)), abortAt, parse)))]
        && input == "" && !isChatting && !controller
    {
      ghost var before := messages;
      ghost var userMsg := input;
      var prompt := Begin(ctx);
      if prompt.None? {
        return false;
      }
      sent := true;
      var fragments := CallStream(ask(prompt.value), abortAt, parse);
      Fill(fragments, before, userMsg);
      Finish();
    }

    /** The `for await` loop: each fragment in turn is taken into the
        newest turn, which ends up holding all of them, in order. */
    method Fill(fragments: seq<string>, ghost before: seq<Turn>, ghost userMsg: string)
      requires messages == before + [Turn(userMsg, "")] && streamed == ""
      modifies this`messages, this`streamed
      ensures messages == before + [Turn(userMsg, Concat(fragments))]
      ensures streamed == Concat(fragments)
    {
      var i := 0;
      while i < |fragments|
        invariant 0 <= i <= |fragments|
        invariant streamed == Concat(fragments[..i])
        invariant messages == before + [Turn(userMsg, streamed)]
      {
        assert fragments[..i + 1][..i] == fragments[..i];
        Take(fragments[i]);
        i := i + 1;
      }
      assert fragments[..i] == fragments;
    }
  }

  /** Filling the turn just added gives that turn the answer and leaves the
      rest of the transcript alone. */
  lemma WithAnswerAdded(turns: seq<Turn>, user: string, previous: string, ai: string)
    ensures WithAnswer(turns + [Turn(user, previous)], ai) == turns + [Turn(user, ai)]
  {
    var t := turns + [Turn(user, previous)];
    assert t[..|t| - 1] == turns;
  }
}
