/** ChatML prompt assembly: the single linear text the model is given, made
    of a system turn, a user turn and an opened assistant turn. */
module ChatMl {
  import opened Wrappers
  import opened PyStr

  const ImStart: string := "<|im_start|>"
  const ImEnd: string := "<|im_end|>"
  /** The token that primes the assistant turn of a classification request
      so the model reasons before it answers. */
  const Thinking: string := "<|thinking|>"

  /** One closed turn: `<|im_start|>{role}\n{text}<|im_end|>\n`. */
  function Turn(role: string, text: string): string {
    ImStart + role + "\n" + text + ImEnd + "\n"
  }

  /** The text before the user's words in every envelope. */
  function Head(system: string): string {
    Turn("system", system) + ImStart + "user\n"
  }

  /** The opened assistant turn, primed with `primer` (the thinking token,
      or nothing). */
  function Opener(primer: string): string {
    ImStart + "assistant\n" + primer
  }

  /** The text after the user's words: the user turn closes and the
      assistant turn opens. */
  function Tail(primer: string): string {
    ImEnd + "\n" + Opener(primer)
  }

  /** The full prompt: system turn, user turn, opened assistant turn. The
      user text is inserted verbatim, without escaping. */
  function Envelope(system: string, user: string, primer: string): (p: string)
    ensures StartsWith(p, Turn("system", system))
    ensures EndsWith(p, Opener(primer))
  {
    var turn := Turn("system", system);
    var p := Head(system) + user + Tail(primer);
    assert StartsWith(p, turn) by {
      assert StartsWith(turn, turn);
      StartsWithExtend(turn, turn, ImStart);
      StartsWithExtend(turn + ImStart, turn, "user\n");
      StartsWithExtend(Head(system), turn, user);
      StartsWithExtend(Head(system) + user, turn, Tail(primer));
    }
    assert EndsWith(p, Opener(primer)) by {
      assert EndsWith(Opener(primer), Opener(primer));
      EndsWithExtend(ImEnd + "\n", Opener(primer), Opener(primer));
      EndsWithExtend(Head(system) + user, Tail(primer), Opener(primer));
    }
    p
  }

  /** The prompt of `/classify` and `/classify-pdf`. */
  function ClassificationPrompt(system: string, user: string): string {
    Envelope(system, user, Thinking)
  }

  /** The prompt of `/generate-text`: the assistant turn is left empty. */
  function GenerationPrompt(system: string, user: string): string {
    Envelope(system, user, "")
  }

  /** Reads the user turn back out of a prompt, given the system message and
      the primer it was built with. */
  function UserTurnOf(prompt: string, system: string, primer: string): (r: Option<string>)
    ensures r.Some? ==> Envelope(system, r.value, primer) == prompt
  {
    var head, tail := Head(system), Tail(primer);
    if |head| + |tail| <= |prompt| && StartsWith(prompt, head) && EndsWith(prompt, tail) then
      var user := prompt[|head|..|prompt| - |tail|];
      assert prompt == prompt[..|head|] + user + prompt[|prompt| - |tail|..];
      Some(user)
    else None
  }

  /** The user turn is recovered exactly from the prompt: nothing is lost or
      escaped in assembly. */
  lemma {:induction false} UserTurnRoundTrip(system: string, user: string, primer: string)
    ensures UserTurnOf(Envelope(system, user, primer), system, primer) == Some(user)
  {
    var p := Envelope(system, user, primer);
    var head, tail := Head(system), Tail(primer);
    assert p[..|head|] == head;
    assert p[|p| - |tail|..] == tail;
    assert p[|head|..|p| - |tail|] == user;
  }

  /** Two classification prompts with the same system message are equal only
      when their user turns are. */
  lemma ClassificationPromptInjective(system: string, u1: string, u2: string)
    requires ClassificationPrompt(system, u1) == ClassificationPrompt(system, u2)
    ensures u1 == u2
  {
    UserTurnRoundTrip(system, u1, Thinking);
    UserTurnRoundTrip(system, u2, Thinking);
  }
}
