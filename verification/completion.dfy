/** The completion back end: the hand-written extractor that reads the
    context line a shell integration sends, the count of suggestions
    asked for, and the JSON-facing helpers of the main binary.  JSON that
    json-c parses is taken as its already-extracted members. */
module Completion {
  import opened Text
  import Config
  import BasicContext
  import LlmClient

  const INPUT_SIZE: int := 4096
  const CWD_SIZE: int := 512
  const USERNAME_SIZE: int := 64
  const HOSTNAME_SIZE: int := 256
  const GIT_BRANCH_SIZE: int := 128
  const OUTPUT_SIZE: int := LlmClient.MAX_SUGGESTION_LEN + 2

  const COMMAND_LINE_KEY: string := "\"command_line\":"
  const CWD_KEY: string := "\"cwd\":"
  const GIT_KEY: string := "\"git\":"
  const BRANCH_KEY: string := "\"branch\":"
  const DIRTY_TRUE: string := "\"dirty\":true"

  /** completion_context_t. */
  datatype CompletionContext = CompletionContext(input: string, cwd: string, username: string, hostname: string, gitBranch: string, gitDirty: bool)

  /** What the process environment answers: getcwd (`None` when it
      fails), the passwd entry's name (`None` without one) and the host
      name. */
  datatype Local = Local(cwd: Option<string>, passwdName: Option<string>, hostname: string)

  /** The zeroed context with the local defaults filled in; getcwd fails
      (leaving the field empty) when the directory does not fit in 511
      bytes with its terminator. */
  function Defaults(local: Local): (r: CompletionContext)
    ensures r.input == [] && r.gitBranch == [] && !r.gitDirty
    ensures |r.cwd| < CWD_SIZE - 1 && |r.username| < USERNAME_SIZE && |r.hostname| < HOSTNAME_SIZE
    ensures local.cwd.Some? && |local.cwd.value| < CWD_SIZE - 1 ==> r.cwd == local.cwd.value
    ensures local.passwdName.None? ==> r.username == []
  {
    var cwd := if local.cwd.Some? && |local.cwd.value| < CWD_SIZE - 1 then local.cwd.value else [];
    var username := if local.passwdName.Some? then Prefix(local.passwdName.value, USERNAME_SIZE - 1) else [];
    CompletionContext([], cwd, username, Prefix(local.hostname, HOSTNAME_SIZE - 1), [], false)
  }

  // ---------------------------------------------------------------------
  // The string extractor

  /** strchr(s + from, c): the index of the first `c` at or after `from`. */
  function CharFrom(s: string, c: char, from: nat): (r: Option<nat>)
    decreases |s| - from
    ensures r.Some? ==> from <= r.value < |s| && s[r.value] == c
    ensures r.Some? ==> forall j | from <= j < r.value :: s[j] != c
    ensures r.None? ==> forall j | from <= j < |s| :: s[j] != c
  {
    if from >= |s| then None
    else if s[from] == c then Some(from)
    else CharFrom(s, c, from + 1)
  }

  /** The first `c` at or after `from` is at `k` when `s[k]` is `c` and none
      comes between. */
  lemma CharFromAt(s: string, c: char, from: nat, k: nat)
    requires from <= k < |s| && s[k] == c
    requires forall j | from <= j < k :: s[j] != c
    ensures CharFrom(s, c, from) == Some(k)
  {
  }

  /** One extraction: the value found (if any) and the buffer afterwards. */
  datatype Extracted = Extracted(value: Option<string>, buffer: string)

  /** One extraction as written: find the key, step to the quote at its
      start, then to the next quote (the one closing the key's name), take
      what follows up to the next quote, and write a NUL over that quote. */
  function ExtractField(json: string, key: string): (r: Extracted)
    ensures r.value.None? ==> r.buffer == json
    ensures r.value.Some? ==> r.buffer <= json && '"' !in r.value.value
    ensures r.value.Some? ==> |r.buffer| < |json| && json[|r.buffer|] == '"'
  {
    match IndexOf(json, key)
    case None => Extracted(None, json)
    case Some(p) =>
      match CharFrom(json, '"', p)
      case None => Extracted(None, json)
      case Some(q1) =>
        match CharFrom(json, '"', q1 + 1)
        case None => Extracted(None, json)
        case Some(q2) =>
          match CharFrom(json, '"', q2 + 1)
          case None => Extracted(None, json)
          case Some(e) =>
            Extracted(Some(json[q2 + 1..e]), json[..e])
  }

  /** The extraction the comments intend: skip the key, read the quoted
      value that follows, and leave the buffer whole. */
  function ExtractFieldFixed(json: string, key: string): (r: Option<string>)
    ensures r.Some? ==> '"' !in r.value
  {
    match IndexOf(json, key)
    case None => None
    case Some(p) =>
      match CharFrom(json, '"', p + |key|)
      case None => None
      case Some(q) =>
        match CharFrom(json, '"', q + 1)
        case None => None
        case Some(e) =>
          Some(json[q + 1..e])
  }

  /** A JSON key: a quoted name followed by a colon. */
  predicate IsKey(key: string)
  {
    |key| >= 3 && key[0] == '"' && key[|key| - 2] == '"' && key[|key| - 1] == ':' && '"' !in key[1..|key| - 2]
  }

  /** Where a key first occurs with a quoted string value after it, the
      extractor as written reads the ':' between the two, and cuts the
      buffer just before the value. */
  lemma AsWrittenReadsColon(json: string, key: string, k: nat, v: string, post: string)
    requires IsKey(key) && '"' !in v
    requires IndexOf(json, key) == Some(k)
    requires json[k..] == key + "\"" + v + "\"" + post
    ensures ExtractField(json, key) == Extracted(Some(":"), json[..k + |key|])
  {
    Layout(key, v, post);
    assert json[k..k + |key|] == json[k..][..|key|];
    assert json[k + |key|] == json[k..][|key|];
    KeyQuotes(json, key, k);
    assert json[k + |key| - 1..k + |key|] == [key[|key| - 1]];
  }

  /** With a key at `k` and a quote right after it, the three quotes the
      extractor as written looks for are the key's two and that one. */
  lemma KeyQuotes(json: string, key: string, k: nat)
    requires IsKey(key) && k + |key| < |json|
    requires json[k..k + |key|] == key && json[k + |key|] == '"'
    ensures CharFrom(json, '"', k) == Some(k)
    ensures CharFrom(json, '"', k + 1) == Some(k + |key| - 2)
    ensures CharFrom(json, '"', k + |key| - 1) == Some(k + |key|)
  {
    var q2 := k + |key| - 2;
    assert json[k] == key[0];
    CharFromAt(json, '"', k, k);
    forall j | k + 1 <= j < q2 ensures json[j] != '"' {
      assert json[j] == key[j - k] == key[1..|key| - 2][j - k - 1];
    }
    assert json[q2] == key[|key| - 2];
    CharFromAt(json, '"', k + 1, q2);
    assert json[q2 + 1] == key[|key| - 1] == ':';
    CharFromAt(json, '"', q2 + 1, q2 + 2);
  }

  /** Where the pieces of `key"value"post` sit. */
  lemma Layout(key: string, v: string, post: string)
    ensures var at := key + "\"" + v + "\"" + post;
            |at| == |key| + |v| + 2 + |post| && at[..|key|] == key && at[|key|] == '"' &&
            at[|key| + 1..|key| + 1 + |v|] == v && at[|key| + 1 + |v|] == '"'
  {
    var at := key + "\"" + v + "\"" + post;
    assert at == key + ("\"" + v + "\"" + post);
    assert at[|key|..][1..1 + |v|] == v;
  }

  /** Where a key first occurs with a quoted string value after it, the
      corrected extractor reads that value. */
  lemma FixedReadsValue(json: string, key: string, k: nat, v: string, post: string)
    requires '"' !in v
    requires IndexOf(json, key) == Some(k)
    requires json[k..] == key + "\"" + v + "\"" + post
    ensures ExtractFieldFixed(json, key) == Some(v)
  {
    var at := json[k..];
    var q := k + |key|;
    assert json[q] == at[|key|] == '"';
    CharFromAt(json, '"', q, q);
    var e := q + 1 + |v|;
    forall j | q + 1 <= j < e ensures json[j] != '"' {
      assert json[j] == at[j - k] == v[j - q - 1];
    }
    assert json[e] == at[|key| + 1 + |v|] == '"';
    CharFromAt(json, '"', q + 1, e);
    assert json[q + 1..e] == at[|key| + 1..|key| + 1 + |v|] == v;
  }

  // ---------------------------------------------------------------------
  // parse_context_json

  /** The field after an extraction: the value cut to the field's size, or
      what it held before. */
  function FieldOr(value: Option<string>, size: int, otherwise: string): string
  {
    if value.Some? then Prefix(value.value, size - 1) else otherwise
  }

  /** parse_context_json as written.  Each extraction cuts the shared copy,
      so a key is searched for only in what the earlier ones left. */
  function ParseContextJson(json: Option<string>, local: Local): (r: CompletionContext)
    ensures json.None? ==> r == Defaults(local)
    ensures |r.input| < INPUT_SIZE && |r.gitBranch| < GIT_BRANCH_SIZE
    ensures r.username == Defaults(local).username && r.hostname == Defaults(local).hostname
  {
    var d := Defaults(local);
    if json.None? then d
    else
      var command := ExtractField(json.value, COMMAND_LINE_KEY);
      var cwd := ExtractField(command.buffer, CWD_KEY);
      var rest := cwd.buffer;
      var input := FieldOr(command.value, INPUT_SIZE, d.input);
      var dir := FieldOr(cwd.value, CWD_SIZE, d.cwd);
      match IndexOf(rest, GIT_KEY)
      case None => d.(input := input, cwd := dir)
      case Some(g) =>
        var branch := ExtractField(rest[g..], BRANCH_KEY);
        d.(input := input, cwd := dir, gitBranch := FieldOr(branch.value, GIT_BRANCH_SIZE, d.gitBranch),
           gitDirty := Contains(branch.buffer, DIRTY_TRUE))
  }

  /** parse_context_json as intended: every key is looked for in the whole
      line. */
  function ParseContextJsonFixed(json: Option<string>, local: Local): (r: CompletionContext)
    ensures json.None? ==> r == Defaults(local)
    ensures |r.input| < INPUT_SIZE && |r.gitBranch| < GIT_BRANCH_SIZE
    ensures r.username == Defaults(local).username && r.hostname == Defaults(local).hostname
  {
    var d := Defaults(local);
    if json.None? then d
    else
      var input := FieldOr(ExtractFieldFixed(json.value, COMMAND_LINE_KEY), INPUT_SIZE, d.input);
      var dir := FieldOr(ExtractFieldFixed(json.value, CWD_KEY), CWD_SIZE, d.cwd);
      match IndexOf(json.value, GIT_KEY)
      case None => d.(input := input, cwd := dir)
      case Some(g) =>
        var section := json.value[g..];
        d.(input := input, cwd := dir, gitBranch := FieldOr(ExtractFieldFixed(section, BRANCH_KEY), GIT_BRANCH_SIZE, d.gitBranch),
           gitDirty := Contains(section, DIRTY_TRUE))
  }

  lemma CommandLineKeyIsKey()
    ensures IsKey(COMMAND_LINE_KEY)
  {
    assert COMMAND_LINE_KEY[1..|COMMAND_LINE_KEY| - 2] == "command_line";
  }

  /** A key first occurring after the command-line key is not in the
      buffer the command-line extraction leaves: it would have to start
      at a quote inside the command-line key's name. */
  lemma CutHidesLaterKey(json: string, k: nat, later: string)
    requires |later| >= 3 && later[0] == '"'
    requires OccursAt(json, COMMAND_LINE_KEY, k)
    requires forall j | 0 <= j <= k :: !OccursAt(json, later, j)
    ensures !Contains(json[..k + |COMMAND_LINE_KEY|], later)
  {
    CommandLineKeyIsKey();
    var name := COMMAND_LINE_KEY[1..|COMMAND_LINE_KEY| - 2];
    var cut := json[..k + |COMMAND_LINE_KEY|];
    forall i | 0 <= i <= |cut| ensures !OccursAt(cut, later, i) {
      if i + |later| <= |cut| {
        if i > k {
          assert cut[i] == json[i] == COMMAND_LINE_KEY[i - k] == name[i - k - 1];
          assert cut[i..i + |later|][0] == cut[i] != later[0];
        } else {
          assert !OccursAt(json, later, i);
          assert cut[i..i + |later|] == json[i..i + |later|];
        }
      }
    }
  }

  /** A line whose command_line field comes first: as written the command
      read is ":" and the cwd and git fields after it are lost. */
  lemma CommandLineFirstHidesTheRest(json: string, k: nat, v: string, post: string, local: Local)
    requires '"' !in v
    requires IndexOf(json, COMMAND_LINE_KEY) == Some(k)
    requires json[k..] == COMMAND_LINE_KEY + "\"" + v + "\"" + post
    requires forall j | 0 <= j <= k :: !OccursAt(json, CWD_KEY, j) && !OccursAt(json, GIT_KEY, j)
    ensures var r := ParseContextJson(Some(json), local);
            r.input == ":" && r.cwd == Defaults(local).cwd && r.gitBranch == [] && !r.gitDirty
  {
    CommandLineKeyIsKey();
    AsWrittenReadsColon(json, COMMAND_LINE_KEY, k, v, post);
    var cut := json[..k + |COMMAND_LINE_KEY|];
    CutHidesLaterKey(json, k, CWD_KEY);
    CutHidesLaterKey(json, k, GIT_KEY);
    assert ExtractField(cut, CWD_KEY) == Extracted(None, cut);
    assert IndexOf(cut, GIT_KEY).None?;
  }

  /** The corrected parser reads the command wherever its key first
      occurs, with what follows left in place for the other fields. */
  lemma FixedReadsCommand(json: string, k: nat, v: string, post: string, local: Local)
    requires '"' !in v && |v| < INPUT_SIZE
    requires IndexOf(json, COMMAND_LINE_KEY) == Some(k)
    requires json[k..] == COMMAND_LINE_KEY + "\"" + v + "\"" + post
    ensures ParseContextJsonFixed(Some(json), local).input == v
  {
    FixedReadsValue(json, COMMAND_LINE_KEY, k, v, post);
  }

  /** With the corrected parser a field is read wherever it stands. */
  lemma FixedReadsCwdAnywhere(json: string, c: nat, d: string, post: string, local: Local)
    requires '"' !in d && |d| < CWD_SIZE
    requires IndexOf(json, CWD_KEY) == Some(c)
    requires json[c..] == CWD_KEY + "\"" + d + "\"" + post
    ensures ParseContextJsonFixed(Some(json), local).cwd == d
  {
    FixedReadsValue(json, CWD_KEY, c, d, post);
  }

  // ---------------------------------------------------------------------
  // get_multiple_suggestions

  /** get_multiple_suggestions: at most one request is made, so the count
      is 0 or 1 (`sendCode` is what send_to_llm returned for it; `None`
      arguments are NULL pointers). */
  function GetMultipleSuggestions(input: Option<string>, ctx: Option<CompletionContext>, llm: Option<Config.Llm>, slots: Option<seq<LlmClient.Suggestion>>, maxSuggestions: int, sendCode: int): (r: int)
    ensures r == -1 <==> input.None? || ctx.None? || llm.None? || slots.None? || maxSuggestions <= 0
    ensures r != -1 ==> 0 <= r <= 1 && r <= maxSuggestions
    ensures r == 1 <==> r != -1 && sendCode == 0
  {
    if input.None? || ctx.None? || llm.None? || slots.None? || maxSuggestions <= 0 then -1
    else if sendCode == 0 then 1
    else 0
  }

  // ---------------------------------------------------------------------
  // The main binary's JSON helpers

  /** The context document as json-c parses it: its cwd, user and host
      members' strings. */
  datatype ContextDoc = NotJson | Json(cwd: Option<string>, user: Option<string>, host: Option<string>)

  datatype ContextUpdate = ContextUpdate(code: int, ctx: BasicContext.SessionContext)

  /** A member's string copied into a field of `size` bytes. */
  function Copied(member: Option<string>, size: int, otherwise: string): string
  {
    if member.Some? then Prefix(CStrOf(member.value), size - 1) else otherwise
  }

  /** parse_completion_context: a NULL or unparsable line is refused; the
      members present replace the fields with as much of their C string as
      the field holds before its last byte (strncpy with the field's size
      less one), the others keep their values. */
  function ParseCompletionContext(doc: Option<ContextDoc>, ctx: BasicContext.SessionContext): (r: ContextUpdate)
    ensures r.code == 0 || r.code == -1
    ensures r.code == -1 <==> doc.None? || doc.value.NotJson?
    ensures r.code == -1 ==> r.ctx == ctx
    ensures r.ctx.lastCommand == ctx.lastCommand && r.ctx.terminalBuffer == ctx.terminalBuffer
    ensures r.code == 0 && doc.value.cwd.None? ==> r.ctx.cwd == ctx.cwd
    ensures r.code == 0 && doc.value.user.None? ==> r.ctx.username == ctx.username
    ensures r.code == 0 && doc.value.host.None? ==> r.ctx.hostname == ctx.hostname
    ensures r.code == 0 && doc.value.cwd.Some? ==>
              r.ctx.cwd <= CStrOf(doc.value.cwd.value)
              && |r.ctx.cwd| == Min(|CStrOf(doc.value.cwd.value)|, BasicContext.CWD_SIZE - 1)
    ensures r.code == 0 && doc.value.user.Some? ==>
              r.ctx.username <= CStrOf(doc.value.user.value)
              && |r.ctx.username| == Min(|CStrOf(doc.value.user.value)|, BasicContext.USERNAME_SIZE - 1)
    ensures r.code == 0 && doc.value.host.Some? ==>
              r.ctx.hostname <= CStrOf(doc.value.host.value)
              && |r.ctx.hostname| == Min(|CStrOf(doc.value.host.value)|, BasicContext.HOSTNAME_SIZE - 1)
  {
    match doc
    case None => ContextUpdate(-1, ctx)
    case Some(NotJson) => ContextUpdate(-1, ctx)
    case Some(Json(cwd, user, host)) =>
      ContextUpdate(0, ctx.(cwd := Copied(cwd, BasicContext.CWD_SIZE, ctx.cwd),
                            username := Copied(user, BasicContext.USERNAME_SIZE, ctx.username),
                            hostname := Copied(host, BasicContext.HOSTNAME_SIZE, ctx.hostname)))
  }

  /** Members that fit are taken whole. */
  lemma ContextMembersTakenWhole(cwd: string, user: string, host: string, ctx: BasicContext.SessionContext)
    requires '\0' !in cwd && '\0' !in user && '\0' !in host
    requires |cwd| < BasicContext.CWD_SIZE && |user| < BasicContext.USERNAME_SIZE && |host| < BasicContext.HOSTNAME_SIZE
    ensures var r := ParseCompletionContext(Some(Json(Some(cwd), Some(user), Some(host))), ctx).ctx;
            r.cwd == cwd && r.username == user && r.hostname == host
  {
    CStrOfNoNul(cwd);
    CStrOfNoNul(user);
    CStrOfNoNul(host);
  }

  /** format_completion_output: the one element of the "suggestions" array,
      the kind character and the text in a buffer of 1026 bytes, read back
      as a C string. */
  function FormatCompletionOutput(s: Option<LlmClient.Suggestion>): (r: Option<seq<string>>)
    ensures r.None? <==> s.None?
    ensures r.Some? ==> |r.value| == 1 && |r.value[0]| < OUTPUT_SIZE && '\0' !in r.value[0]
    ensures r.Some? && s.value.kind != '\0' ==> r.value[0] != [] && r.value[0][0] == s.value.kind
  {
    if s.None? then None
    else
      var full := Prefix([s.value.kind] + CStrOf(s.value.text), OUTPUT_SIZE - 1);
      Some([CStrOf(full)])
  }

  /** The element read back as a reply gives the suggestion it came from. */
  lemma OutputRoundTrip(s: LlmClient.Suggestion)
    requires s.kind != '\0' && '\0' !in s.text && '\n' !in s.text
    requires |s.text| <= LlmClient.MAX_SUGGESTION_LEN - 1
    ensures LlmClient.SuggestionOf(FormatCompletionOutput(Some(s)).value[0]) == Some(s.(visible := true))
  {
    CStrOfNoNul(s.text);
    CStrOfNoNul([s.kind] + s.text);
    LlmClient.SuggestionLineRoundTrip(s.kind, s.text, []);
  }
}
