/** Drawing a suggestion after the input line and accepting it into the
    input.  The terminal width is a parameter and the bytes written to
    standard output are the result. */
module Render {
  import opened Text
  import LlmClient

  const MAX_INPUT_LEN: int := 4096

  const CLEAR_LINE: string := "\U{1b}[K"
  const SAVE_CURSOR: string := "\U{1b}[s"
  const RESTORE_CURSOR: string := "\U{1b}[u"
  const COLOR_GRAY: string := "\U{1b}[90m"
  const COLOR_RESET: string := "\U{1b}[0m"
  const PROMPT: string := "$ "

  datatype Rendered = Rendered(code: int, output: string)

  /** The suggestion text shown in `available` columns: the stored C
      string (at most 1023 bytes), cut to `available - 2` bytes when it
      would not fit after the one-byte kind indicator. */
  function Shown(text: string, available: int): (r: string)
    requires available > 2
    ensures r <= CStrOf(text)
    ensures 1 + |r| <= available
    ensures 1 + |CStrOf(text)| <= available && |CStrOf(text)| < LlmClient.MAX_SUGGESTION_LEN ==> r == CStrOf(text)
  {
    var t := Prefix(CStrOf(text), LlmClient.MAX_SUGGESTION_LEN - 1);
    if |t| > available - 1 then t[..available - 2] else t
  }

  /** The grey part after the input: the kind indicator and what fits of
      the suggestion, drawn only with more than two columns to spare.
      Between the colour codes stand the kind and a prefix of the
      suggestion that, with the kind, fits the columns left, and the whole
      suggestion when it fits. */
  function GreyPart(s: LlmClient.Suggestion, input: string, width: int): (r: string)
    ensures var available := width - (|PROMPT| + |input|);
            r == [] <==> available <= 2
    ensures var available := width - (|PROMPT| + |input|);
            available > 2 ==>
              && |r| >= |COLOR_GRAY| + 1 + |COLOR_RESET|
              && r[..|COLOR_GRAY|] == COLOR_GRAY && r[|COLOR_GRAY|] == s.kind
              && r[|r| - |COLOR_RESET|..] == COLOR_RESET
              && var shown := r[|COLOR_GRAY| + 1..|r| - |COLOR_RESET|];
                 && shown <= CStrOf(s.text) && 1 + |shown| <= available
                 && (1 + |CStrOf(s.text)| <= available && |CStrOf(s.text)| < LlmClient.MAX_SUGGESTION_LEN ==> shown == CStrOf(s.text))
  {
    var available := width - (|PROMPT| + |input|);
    if available > 2 then
      var shown := Shown(s.text, available);
      var r := COLOR_GRAY + [s.kind] + shown + COLOR_RESET;
      assert r[|COLOR_GRAY| + 1..|r| - |COLOR_RESET|] == shown;
      r
    else []
  }

  /** render_suggestion (`None` is a NULL pointer). */
  function RenderSuggestion(s: Option<LlmClient.Suggestion>, input: Option<string>, width: int): (r: Rendered)
    ensures r.code == 0 || r.code == -1
    ensures r.code == -1 <==> s.None? || input.None?
    ensures r.code == -1 ==> r.output == []
    ensures r.code == 0 && (!s.value.visible || CStrOf(s.value.text) == []) ==> r.output == CLEAR_LINE
    ensures r.code == 0 && s.value.visible && CStrOf(s.value.text) != [] ==>
              var line := CStrOf(input.value);
              r.output == SAVE_CURSOR + CLEAR_LINE + PROMPT + line + GreyPart(s.value, line, width) + RESTORE_CURSOR
  {
    if s.None? || input.None? then Rendered(-1, [])
    else if !s.value.visible || CStrOf(s.value.text) == [] then Rendered(0, CLEAR_LINE)
    else
      var line := CStrOf(input.value);
      Rendered(0, SAVE_CURSOR + CLEAR_LINE + PROMPT + line + GreyPart(s.value, line, width) + RESTORE_CURSOR)
  }

  /** What a drawn line occupies: the prompt, the input, the indicator and
      the shown suggestion never run past the terminal's width, and a
      suggestion that fits is shown whole. */
  lemma RenderedLineFitsWidth(s: LlmClient.Suggestion, input: string, width: int)
    requires '\0' !in input
    requires width - (|PROMPT| + |input|) > 2
    ensures var shown := Shown(s.text, width - (|PROMPT| + |input|));
            |PROMPT| + |input| + 1 + |shown| <= width
            && shown <= CStrOf(s.text)
            && (|PROMPT| + |input| + 1 + |CStrOf(s.text)| <= width && |CStrOf(s.text)| < LlmClient.MAX_SUGGESTION_LEN ==> shown == CStrOf(s.text))
  {
  }

  // ---------------------------------------------------------------------
  // Accepting

  datatype Accepted = Accepted(code: int, input: string)

  /** accept_suggestion on the input's C string: '+' appends the suggestion
      when the result stays under 4095 bytes, '=' replaces the input with
      at most 4095 bytes of it, any other kind leaves the input alone.  A
      missing argument or an invisible suggestion is refused. */
  function AcceptSuggestion(input: Option<string>, s: Option<LlmClient.Suggestion>): (r: Accepted)
    requires input.Some? ==> '\0' !in input.value
    ensures r.code == 0 || r.code == -1
    ensures r.code == -1 <==> input.None? || s.None? || !s.value.visible
    ensures r.code == -1 ==> r.input == (if input.Some? then input.value else [])
    ensures r.code == 0 && s.value.kind == '+' ==>
              r.input == (if |input.value| + |CStrOf(s.value.text)| < MAX_INPUT_LEN - 1 then input.value + CStrOf(s.value.text) else input.value)
    ensures r.code == 0 && s.value.kind == '=' ==> r.input == Prefix(CStrOf(s.value.text), MAX_INPUT_LEN - 1)
    ensures r.code == 0 && s.value.kind != '+' && s.value.kind != '=' ==> r.input == input.value
    ensures '\0' !in r.input && |r.input| <= Max(|if input.Some? then input.value else []|, MAX_INPUT_LEN - 1)
  {
    if input.None? then Accepted(-1, [])
    else if s.None? || !s.value.visible then Accepted(-1, input.value)
    else
      var text := CStrOf(s.value.text);
      if s.value.kind == '+' then
        if |input.value| + |text| < MAX_INPUT_LEN - 1 then Accepted(0, input.value + text) else Accepted(0, input.value)
      else if s.value.kind == '=' then Accepted(0, Prefix(text, MAX_INPUT_LEN - 1))
      else Accepted(0, input.value)
  }

  /** Accepting a replacement twice leaves the same input as accepting it
      once; accepting a completion that fits makes the input end with the
      suggestion, with the typed text before it. */
  lemma AcceptanceEffects(input: string, s: LlmClient.Suggestion)
    requires '\0' !in input && s.visible
    ensures s.kind == '=' ==>
              var once := AcceptSuggestion(Some(input), Some(s)).input;
              AcceptSuggestion(Some(once), Some(s)).input == once
    ensures s.kind == '+' && |input| + |CStrOf(s.text)| < MAX_INPUT_LEN - 1 ==>
              var after := AcceptSuggestion(Some(input), Some(s)).input;
              after[..|input|] == input && after[|input|..] == CStrOf(s.text)
  {
    if s.kind == '+' && |input| + |CStrOf(s.text)| < MAX_INPUT_LEN - 1 {
      var after := input + CStrOf(s.text);
      assert after[..|input|] == input && after[|input|..] == CStrOf(s.text);
    }
  }

  /** A suggestion produced from an answer "=<command>" replaces the input
      with the command; one from "+<rest>" appends that rest. */
  lemma AnsweredSuggestionAccepted(input: string, command: string)
    requires '\0' !in input && '\0' !in command && '\n' !in command
    requires |command| < LlmClient.MAX_SUGGESTION_LEN - 1
    ensures AcceptSuggestion(Some(input), LlmClient.SuggestionOf("=" + command)).input == command
    ensures |input| + |command| < MAX_INPUT_LEN - 1 ==>
              AcceptSuggestion(Some(input), LlmClient.SuggestionOf("+" + command)).input == input + command
  {
    LlmClient.SuggestionLineRoundTrip('=', command, []);
    LlmClient.SuggestionLineRoundTrip('+', command, []);
    CStrOfNoNul(command);
  }

  /** The system prompt asks for '+' followed by the entire completed
      command, while accepting appends the suggestion to what was typed: a
      completion answered as the prompt asks repeats the typed text (the
      prompt's own example turns "git commi" into "git commigit commit"). */
  lemma WholeCommandCompletionRepeatsInput(input: string, rest: string)
    requires input != [] && '\0' !in input && '\0' !in rest && '\n' !in input && '\n' !in rest
    requires |input| + |rest| < LlmClient.MAX_SUGGESTION_LEN - 1 && 2 * |input| + |rest| < MAX_INPUT_LEN - 1
    ensures var after := AcceptSuggestion(Some(input), LlmClient.SuggestionOf("+" + (input + rest))).input;
            after == input + (input + rest) && after != input + rest
  {
    var command := input + rest;
    assert '\0' !in command && '\n' !in command by {
      forall k | 0 <= k < |command| ensures command[k] != '\0' && command[k] != '\n' {
        if k < |input| { assert command[k] == input[k]; } else { assert command[k] == rest[k - |input|]; }
      }
    }
    AnsweredSuggestionAccepted(input, command);
    assert |input + command| != |command|;
  }
}
