/** The LLM client: the provider whitelist, the request it builds (system
    prompt, URL, headers, body) and how the reply text becomes a
    suggestion.  The HTTP exchange is a parameter, and the reply is taken
    as already parsed into the text member the provider's format puts the
    answer in. */
module LlmClient {
  import opened Text
  import Config
  import BasicContext

  const MAX_SUGGESTION_LEN: int := 1024
  const SYSTEM_PROMPT_SIZE: int := 4096
  const FULL_PROMPT_SIZE: int := 8192
  const URL_SIZE: int := 512
  const AUTH_HEADER_SIZE: int := 512
  const MAX_TOKENS: int := 100

  const CONTENT_TYPE_HEADER: string := "Content-Type: application/json"
  const GEMINI_KEY_HEADER: string := "x-goog-api-key: "
  const BEARER_HEADER: string := "Authorization: Bearer "
  const GEMINI_METHOD: string := ":generateContent"
  const UNKNOWN: string := "unknown"

  const PROMPT_INTRO: string := "You are an AI command-line assistant. Your goal is to complete the user's command or suggest the next one.\n\nCONTEXT:\n"
  const HISTORY_TITLE: string := "Command History:\n"
  const PROMPT_RULES: string :=
    "\nRULES:\n"
    + "1. Your response must be a single command-line suggestion.\n"
    + "2. If you are completing the user's partial command, your response MUST start with '+' followed by the ENTIRE completed command. Example: If the user input is 'git commi', your response should be '+git commit'.\n"
    + "3. If you are suggesting a new command (not a completion of partial input), your response MUST start with '='. Example: '=git status'.\n"
    + "4. Do NOT add any explanation. Your entire output must be just the prefix ('+' or '=') and the command.\n"

  /** suggestion_t: the text, the kind ('+' completes the input, '='
      replaces it) and whether it is shown. */
  datatype Suggestion = Suggestion(text: string, kind: char, visible: bool)

  /** A suggestion after memset to zero. */
  function Cleared(): Suggestion
  {
    Suggestion([], '\0', false)
  }

  predicate Supported(provider: string)
  {
    provider == "openai" || provider == "openrouter" || provider == "gemini"
  }

  // ---------------------------------------------------------------------
  // The system prompt

  /** The strings build_system_prompt is handed (`None` is a NULL
      pointer). */
  datatype PromptContext = PromptContext(username: Option<string>, hostname: Option<string>, cwd: Option<string>, terminalBuffer: Option<string>)

  function OrUnknown(s: Option<string>): string
  {
    if s.Some? then s.value else UNKNOWN
  }

  function PromptHead(ctx: PromptContext): string
  {
    PROMPT_INTRO + "User: " + OrUnknown(ctx.username) + "@" + OrUnknown(ctx.hostname) + "\nDirectory: " + OrUnknown(ctx.cwd) + "\n"
  }

  function PromptHistory(ctx: PromptContext): string
  {
    if ctx.terminalBuffer.Some? && ctx.terminalBuffer.value != [] then HISTORY_TITLE + ctx.terminalBuffer.value + "\n" else []
  }

  /** The prompt as it would read with room for all of it. */
  function FullPrompt(ctx: PromptContext): string
  {
    PromptHead(ctx) + PromptHistory(ctx) + PROMPT_RULES
  }

  /** Three snprintf calls into one buffer of `size` bytes, each made only
      while the running total of what was asked for stays below the buffer
      size. */
  function WriteThree(head: string, middle: string, tail: string, size: int): (r: string)
    requires size >= 1
  {
    if |head| >= size then Prefix(head, size - 1)
    else
      var withMiddle := head + Prefix(middle, size - |head| - 1);
      if |head| + |middle| < size then withMiddle + Prefix(tail, size - |head| - |middle| - 1) else withMiddle
  }

  /** However the three calls fall, the buffer holds the three strings
      together cut once to its size. */
  lemma WriteThreeIsOneCut(head: string, middle: string, tail: string, size: int)
    requires size >= 1
    ensures WriteThree(head, middle, tail, size) == Prefix(head + middle + tail, size - 1)
  {
    var full := head + middle + tail;
    var r := WriteThree(head, middle, tail, size);
    if |head| >= size {
      assert full[..size - 1] == head[..size - 1];
    } else if |head| + |middle| >= size {
      assert r == head + middle[..size - |head| - 1];
      assert full[..size - 1] == (head + middle)[..size - 1];
    } else {
      var t := Prefix(tail, size - |head| - |middle| - 1);
      assert r == head + middle + t;
      assert |r| == Min(|full|, size - 1);
      assert r == full[..|r|];
    }
  }

  /** build_system_prompt into a buffer of `size` bytes. */
  function BuildSystemPrompt(ctx: PromptContext, size: int): (r: string)
    requires size >= 1
    ensures r == Prefix(FullPrompt(ctx), size - 1)
  {
    WriteThreeIsOneCut(PromptHead(ctx), PromptHistory(ctx), PROMPT_RULES, size);
    WriteThree(PromptHead(ctx), PromptHistory(ctx), PROMPT_RULES, size)
  }

  /** The prompt names the user, host and directory ("unknown" for a
      missing one) and carries the history section, right after them,
      exactly when the terminal buffer is non-empty; the rules close it. */
  lemma PromptSections(ctx: PromptContext)
    ensures ctx.username.None? ==> PROMPT_INTRO + "User: " + UNKNOWN <= FullPrompt(ctx)
    ensures ctx.terminalBuffer.Some? && ctx.terminalBuffer.value != [] ==>
              PromptHead(ctx) + HISTORY_TITLE + ctx.terminalBuffer.value + "\n" <= FullPrompt(ctx)
    ensures ctx.terminalBuffer.None? || ctx.terminalBuffer.value == [] ==> FullPrompt(ctx) == PromptHead(ctx) + PROMPT_RULES
    ensures |FullPrompt(ctx)| >= |PROMPT_RULES| && FullPrompt(ctx)[|FullPrompt(ctx)| - |PROMPT_RULES|..] == PROMPT_RULES
  {
    var user, host, cwd := OrUnknown(ctx.username), OrUnknown(ctx.hostname), OrUnknown(ctx.cwd);
    ThreeParts(PromptHead(ctx), PromptHistory(ctx), PROMPT_RULES);
    if ctx.username.None? {
      HeadLead(PROMPT_INTRO + "User: " + user, "@", host, "\nDirectory: ", cwd, "\n", PromptHistory(ctx), PROMPT_RULES);
    }
    if ctx.terminalBuffer.Some? && ctx.terminalBuffer.value != [] {
      HistoryLeads(PromptHead(ctx), HISTORY_TITLE, ctx.terminalBuffer.value, "\n", PROMPT_RULES);
    }
  }

  /** Three pieces joined: the first two lead, the last one closes. */
  lemma ThreeParts(a: string, b: string, c: string)
    ensures a + b <= a + b + c
    ensures |a + b + c| >= |c| && (a + b + c)[|a + b + c| - |c|..] == c
    ensures b == [] ==> a + b + c == a + c
  {
    assert (a + b + c)[..|a + b|] == a + b;
    assert (a + b + c)[|a + b + c| - |c|..] == c;
    if b == [] {
      assert a + b == a;
    }
  }

  /** The first piece of a left-nested join leads it. */
  lemma HeadLead(x: string, y1: string, y2: string, y3: string, y4: string, y5: string, m: string, r: string)
    ensures x <= x + y1 + y2 + y3 + y4 + y5 + m + r
  {
    assert (x + y1 + y2 + y3 + y4 + y5 + m + r)[..|x|] == x;
  }

  /** A section joined after a head leads whatever follows it. */
  lemma HistoryLeads(h: string, t: string, b: string, n: string, r: string)
    ensures h + t + b + n <= h + (t + b + n) + r
  {
    assert h + t + b + n == h + (t + b + n);
    assert (h + (t + b + n) + r)[..|h + (t + b + n)|] == h + (t + b + n);
  }

  /** The context send_to_llm builds the prompt from: the session
      context's arrays are never NULL, so "unknown" never appears. */
  function PromptContextOf(ctx: BasicContext.SessionContext): PromptContext
  {
    PromptContext(Some(ctx.username), Some(ctx.hostname), Some(ctx.cwd), Some(ctx.terminalBuffer))
  }

  // ---------------------------------------------------------------------
  // The request

  /** The request body: a single text part for Gemini, a system and a user
      message for the chat-completions providers. */
  datatype Body =
    | GeminiBody(text: string)
    | ChatBody(model: string, system: string, user: string, maxTokens: int)

  datatype Request = Request(url: string, headers: seq<string>, body: Body)

  /** The URL: Gemini appends the model and the method to the endpoint,
      other providers use the endpoint as it is. */
  function Url(llm: Config.Llm): (r: string)
    ensures |r| < URL_SIZE
    ensures llm.provider == "gemini" ==> r <= llm.endpoint + llm.model + GEMINI_METHOD
    ensures llm.provider != "gemini" ==> r <= llm.endpoint
  {
    if llm.provider == "gemini" then Prefix(llm.endpoint + llm.model + GEMINI_METHOD, URL_SIZE - 1)
    else Prefix(llm.endpoint, URL_SIZE - 1)
  }

  /** With settings as load_config leaves them nothing is cut: the model
      and the method name can be read back off the Gemini URL. */
  lemma UrlOfLoadedSettings(file: Config.SettingsFile, env: map<string, string>)
    ensures var llm := Config.LoadConfig(file, env).settings.llm;
            var r := Url(llm);
            (llm.provider != "gemini" ==> r == llm.endpoint)
            && (llm.provider == "gemini" ==>
                  r == llm.endpoint + llm.model + GEMINI_METHOD
                  && r[|llm.endpoint|..|r| - |GEMINI_METHOD|] == llm.model)
  {
    var llm := Config.LoadConfig(file, env).settings.llm;
    var u := llm.endpoint + llm.model + GEMINI_METHOD;
    assert u[|llm.endpoint|..|u| - |GEMINI_METHOD|] == llm.model;
  }

  /** The authentication header, present only for a non-empty key. */
  function AuthHeader(provider: string, apiKey: string): (r: Option<string>)
    ensures r.None? <==> apiKey == []
    ensures r.Some? ==> |r.value| < AUTH_HEADER_SIZE
  {
    if apiKey == [] then None
    else if provider == "gemini" then Some(Prefix(GEMINI_KEY_HEADER + apiKey, AUTH_HEADER_SIZE - 1))
    else Some(Prefix(BEARER_HEADER + apiKey, AUTH_HEADER_SIZE - 1))
  }

  /** A key that fits is carried whole after the provider's header name. */
  lemma AuthHeaderCarriesKey(provider: string, apiKey: string)
    requires apiKey != [] && |apiKey| < Config.API_KEY_SIZE
    ensures var name := if provider == "gemini" then GEMINI_KEY_HEADER else BEARER_HEADER;
            var h := AuthHeader(provider, apiKey).value;
            name <= h && h[|name|..] == apiKey
  {
    var name := if provider == "gemini" then GEMINI_KEY_HEADER else BEARER_HEADER;
    assert (name + apiKey)[|name|..] == apiKey;
  }

  function Headers(provider: string, apiKey: string): (r: seq<string>)
    ensures |r| >= 1 && r[0] == CONTENT_TYPE_HEADER
    ensures |r| == 2 <==> apiKey != []
  {
    match AuthHeader(provider, apiKey)
    case None => [CONTENT_TYPE_HEADER]
    case Some(h) => [CONTENT_TYPE_HEADER, h]
  }

  /** What joins the system prompt and the input in a Gemini prompt. */
  const GEMINI_INPUT_LABEL: string := "\n\nUser input: "

  /** create_llm_request with the system prompt built into 4096 bytes.  A
      Gemini request carries one text, the system prompt and the input cut
      to 8192 bytes; the others carry both apart. */
  function RequestBody(input: string, ctx: BasicContext.SessionContext, llm: Config.Llm): (r: Body)
    ensures r.GeminiBody? <==> llm.provider == "gemini"
    ensures r.ChatBody? ==> r.model == llm.model && r.user == input && r.maxTokens == MAX_TOKENS
    ensures r.ChatBody? ==> r.system == Prefix(FullPrompt(PromptContextOf(ctx)), SYSTEM_PROMPT_SIZE - 1)
    ensures r.GeminiBody? ==>
              var whole := Prefix(FullPrompt(PromptContextOf(ctx)), SYSTEM_PROMPT_SIZE - 1) + GEMINI_INPUT_LABEL + input;
              r.text <= whole && |r.text| == Min(|whole|, FULL_PROMPT_SIZE - 1)
  {
    var system := BuildSystemPrompt(PromptContextOf(ctx), SYSTEM_PROMPT_SIZE);
    if llm.provider == "gemini" then GeminiBody(Prefix(system + GEMINI_INPUT_LABEL + input, FULL_PROMPT_SIZE - 1))
    else ChatBody(llm.model, system, input, MAX_TOKENS)
  }

  /** The system prompt takes at most 4095 bytes, so any input up to 4082
      bytes reaches Gemini whole, at the end of the prompt. */
  lemma GeminiKeepsShortInput(input: string, ctx: BasicContext.SessionContext, llm: Config.Llm)
    requires llm.provider == "gemini"
    requires |input| <= FULL_PROMPT_SIZE - SYSTEM_PROMPT_SIZE - |GEMINI_INPUT_LABEL|
    ensures var text := RequestBody(input, ctx, llm).text;
            |text| >= |input| && text[|text| - |input|..] == input
            && text == Prefix(FullPrompt(PromptContextOf(ctx)), SYSTEM_PROMPT_SIZE - 1) + GEMINI_INPUT_LABEL + input
  {
  }

  // ---------------------------------------------------------------------
  // The reply

  /** The reply as parsed: `candidates[0].content.parts[0].text` (Gemini)
      and `choices[0].message.content` (the others), each `None` when the
      path is missing. */
  datatype Reply = NotJson | Json(candidateText: Option<string>, choiceContent: Option<string>)

  /** The tail of parse_llm_response: the first character is the kind, the
      rest up to the first newline (at most 1023 bytes) the suggestion. */
  function SuggestionOf(text: string): (r: Option<Suggestion>)
    ensures r.Some? <==> |text| > 0
    ensures r.Some? ==> r.value.kind == text[0] && r.value.visible
    ensures r.Some? ==> r.value.text <= text[1..] && '\n' !in r.value.text && |r.value.text| < MAX_SUGGESTION_LEN
  {
    if |text| == 0 then None
    else
      var copied := Prefix(text[1..], MAX_SUGGESTION_LEN - 1);
      Some(Suggestion(BasicContext.StripNewline(copied), text[0], true))
  }

  /** A one-line answer "<kind><command>" gives back exactly the kind and
      the command, whatever lines follow it. */
  lemma SuggestionLineRoundTrip(kind: char, command: string, rest: string)
    requires '\n' !in command && |command| <= MAX_SUGGESTION_LEN - 1
    ensures SuggestionOf([kind] + command) == Some(Suggestion(command, kind, true))
    ensures SuggestionOf([kind] + command + "\n" + rest) == Some(Suggestion(command, kind, true))
  {
    NoNewlineStrips(command);
    var t := [kind] + command + "\n" + rest;
    var copied := Prefix(t[1..], MAX_SUGGESTION_LEN - 1);
    if |command| < MAX_SUGGESTION_LEN - 1 {
      assert copied == command + "\n" + Prefix(rest, MAX_SUGGESTION_LEN - 2 - |command|);
      StripAtNewline(command, Prefix(rest, MAX_SUGGESTION_LEN - 2 - |command|));
    } else {
      assert t[1..] == command + ("\n" + rest);
      assert copied == command;
    }
    assert ([kind] + command)[1..] == command;
  }

  lemma {:induction false} NoNewlineStrips(s: string)
    requires '\n' !in s
    ensures BasicContext.StripNewline(s) == s
  {
    if |s| > 0 {
      NoNewlineStrips(s[1..]);
      assert s == [s[0]] + s[1..];
    }
  }

  lemma StripAtNewline(s: string, rest: string)
    requires '\n' !in s
    ensures BasicContext.StripNewline(s + "\n" + rest) == s
  {
    assert s + "\n" + rest == s + ("\n" + rest);
    StripBeforeNewline(s, "\n" + rest);
  }

  lemma {:induction false} StripBeforeNewline(s: string, u: string)
    requires '\n' !in s && |u| > 0 && u[0] == '\n'
    ensures BasicContext.StripNewline(s + u) == s
  {
    if |s| > 0 {
      assert (s + u)[0] == s[0] && (s + u)[1..] == s[1..] + u;
      StripBeforeNewline(s[1..], u);
      assert s == [s[0]] + s[1..];
    } else {
      assert s + u == u;
    }
  }

  datatype Parsed = Parsed(code: int, suggestion: Suggestion)

  /** The reply text of the provider's format, as the C string
      json_object_get_string hands back. */
  function ReplyText(reply: Reply, provider: string): Option<string>
  {
    match reply
    case NotJson => None
    case Json(candidate, choice) =>
      var member := if provider == "gemini" then candidate else choice;
      if member.Some? then Some(CStrOf(member.value)) else None
  }

  /** parse_llm_response: the suggestion is written only on success. */
  function ParseLlmResponse(reply: Reply, provider: string, prior: Suggestion): (r: Parsed)
    ensures r.code == 0 || r.code == -1
    ensures r.code == -1 ==> r.suggestion == prior
    ensures r.code == 0 <==> ReplyText(reply, provider).Some? && ReplyText(reply, provider).value != []
    ensures r.code == 0 ==> Some(r.suggestion) == SuggestionOf(ReplyText(reply, provider).value) && '\0' !in r.suggestion.text
  {
    match ReplyText(reply, provider)
    case None => Parsed(-1, prior)
    case Some(text) =>
      match SuggestionOf(text)
      case None => Parsed(-1, prior)
      case Some(s) => Parsed(0, s)
  }

  // ---------------------------------------------------------------------
  // send_to_llm

  /** What the HTTP exchange produced: no reply (transport failure or an
      empty body), or a reply. */
  datatype Exchange = NoReply | Answered(reply: Reply)

  /** The return code, the suggestion slot afterwards (`None`: the NULL
      pointer) and the request sent, if any. */
  datatype Sent = Sent(code: int, suggestion: Option<Suggestion>, request: Option<Request>)

  /** send_to_llm (`None` arguments are NULL pointers): an unsupported
      provider fails before anything is built; otherwise the suggestion is
      cleared, the request is built and sent, and the reply parsed. */
  function SendToLlm(input: Option<string>, ctx: Option<BasicContext.SessionContext>, llm: Option<Config.Llm>, prior: Option<Suggestion>, exchange: Exchange): (r: Sent)
    ensures r.code == 0 || r.code == -1
    ensures input.None? || ctx.None? || llm.None? || prior.None? ==> r == Sent(-1, prior, None)
    ensures llm.Some? && !Supported(llm.value.provider) ==> r == Sent(-1, prior, None)
    ensures r.request.Some? <==> input.Some? && ctx.Some? && llm.Some? && prior.Some? && Supported(llm.value.provider)
    ensures r.request.Some? ==>
              r.request.value.url == Url(llm.value) && r.request.value.headers == Headers(llm.value.provider, llm.value.apiKey)
              && r.request.value.body == RequestBody(input.value, ctx.value, llm.value)
    ensures r.request.Some? && r.code == -1 ==> r.suggestion == Some(Cleared())
    ensures r.code == 0 ==> exchange.Answered? && r.suggestion.Some? && r.suggestion.value.visible
    ensures r.request.Some? && exchange.Answered? ==>
              var p := ParseLlmResponse(exchange.reply, llm.value.provider, Cleared());
              r.code == p.code && r.suggestion == Some(p.suggestion)
  {
    if input.None? || ctx.None? || llm.None? || prior.None? then Sent(-1, prior, None)
    else if !Supported(llm.value.provider) then Sent(-1, prior, None)
    else
      var cfg := llm.value;
      var request := Request(Url(cfg), Headers(cfg.provider, cfg.apiKey), RequestBody(input.value, ctx.value, cfg));
      match exchange
      case NoReply => Sent(-1, Some(Cleared()), Some(request))
      case Answered(reply) =>
        var p := ParseLlmResponse(reply, cfg.provider, Cleared());
        Sent(p.code, Some(p.suggestion), Some(request))
  }

  /** End to end: a provider answering "<kind><command>" on the first line
      of its reply text yields that suggestion. */
  lemma AnswerBecomesSuggestion(input: string, ctx: BasicContext.SessionContext, llm: Config.Llm, prior: Suggestion, kind: char, command: string, rest: string)
    requires Supported(llm.provider)
    requires kind != '\0' && '\n' !in command && '\0' !in command && |command| < MAX_SUGGESTION_LEN - 1
    ensures var answer := [kind] + command + "\n" + rest;
            var reply := if llm.provider == "gemini" then Json(Some(answer), None) else Json(None, Some(answer));
            var r := SendToLlm(Some(input), Some(ctx), Some(llm), Some(prior), Answered(reply));
            r.code == 0 && r.suggestion == Some(Suggestion(command, kind, true))
  {
    var answer := [kind] + command + "\n" + rest;
    var reply := if llm.provider == "gemini" then Json(Some(answer), None) else Json(None, Some(answer));
    AnswerParses(kind, command, rest, reply, llm.provider);
  }

  lemma AnswerParses(kind: char, command: string, rest: string, reply: Reply, provider: string)
    requires kind != '\0' && '\n' !in command && '\0' !in command && |command| < MAX_SUGGESTION_LEN - 1
    requires reply == if provider == "gemini" then Json(Some([kind] + command + "\n" + rest), None) else Json(None, Some([kind] + command + "\n" + rest))
    ensures ParseLlmResponse(reply, provider, Cleared()) == Parsed(0, Suggestion(command, kind, true))
  {
    var head := [kind] + command + "\n";
    CStrOfAppend(head, rest);
    assert [kind] + command + "\n" + rest == head + rest;
    assert ReplyText(reply, provider) == Some(head + CStrOf(rest));
    SuggestionLineRoundTrip(kind, command, CStrOf(rest));
  }
}
