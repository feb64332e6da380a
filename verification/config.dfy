/** The user configuration: how a trigger key name becomes a key code, how
    the settings file, its provider sections and the environment are layered
    over the built-in defaults, and the per-call temporary file path.  The
    settings file is taken as already parsed: each JSON member is an
    optional string or boolean. */
module Config {
  import opened Text
  import Session

  const DEFAULT_TRIGGER_KEY: string := "ctrl+o"
  const DEFAULT_TRIGGER: int := 15
  const DEFAULT_PROVIDER: string := "openai"
  const DEFAULT_MODEL: string := "gpt-4.1-nano"
  const DEFAULT_OPENAI_ENDPOINT: string := "https://api.openai.com/v1/chat/completions"
  const DEFAULT_GEMINI_ENDPOINT: string := "https://generativelanguage.googleapis.com/v1beta/models"
  const DEFAULT_OPENROUTER_ENDPOINT: string := "https://openrouter.ai/api/v1/chat/completions"

  // Sizes of the character arrays the settings are printed into.
  const PROVIDER_SIZE: int := 32
  const API_KEY_SIZE: int := 256
  const MODEL_SIZE: int := 64
  const ENDPOINT_SIZE: int := 256
  const TRIGGER_KEY_SIZE: int := 8
  const SELECTED_PROVIDER_SIZE: int := 64

  /** The buffer generate_session_id writes into for a temporary path. */
  const TEMP_ID_SIZE: int := 32

  // ---------------------------------------------------------------------
  // Key bindings

  /** The code of "ctrl+<c>": Ctrl+A is 1, ..., Ctrl+Z is 26. */
  function CtrlCode(c: char): int
  {
    1 + (ToLower(c) as int - 'a' as int)
  }

  /** The code of function key `n`: F1 is -101, ..., F12 is -112. */
  function FunctionCode(n: int): int
  {
    -(100 + n)
  }

  /** parse_keybinding (`None` is a NULL name).  Negative results name
      function keys, every other result is a byte value. */
  function ParseKeybinding(key: Option<string>): (r: int)
    ensures key.None? ==> r == DEFAULT_TRIGGER
    ensures r < 0 ==> -112 <= r <= -101
    ensures r >= 0 ==> r < 256
    ensures r < 0 ==> key.Some? && 2 <= |key.value| <= 3 && key.value[0] == 'f'
  {
    if key.None? then DEFAULT_TRIGGER
    else
      var s := key.value;
      if |s| == 6 && "ctrl+" <= s && 'a' <= ToLower(s[5]) <= 'z' then CtrlCode(s[5])
      else if 2 <= |s| <= 3 && s[0] == 'f' && 1 <= Atoi(s[1..]) <= 12 then FunctionCode(Atoi(s[1..]))
      else if s == "escape" then 27
      else if s == "enter" then 13
      else if s == "tab" then 9
      else if s == "space" then 32
      else if s == "backspace" then 127
      else if |s| == 1 then s[0] as int % 256
      else DEFAULT_TRIGGER
  }

  /** "ctrl+x" and "ctrl+X" both bind the control code of the letter. */
  lemma CtrlLetterBinds(c: char)
    requires 'a' <= c <= 'z'
    ensures ParseKeybinding(Some("ctrl+" + [c])) == c as int - 'a' as int + 1
    ensures ParseKeybinding(Some("ctrl+" + [(c as int - 32) as char])) == c as int - 'a' as int + 1
  {
    assert "ctrl+" <= "ctrl+" + [c];
    assert "ctrl+" <= "ctrl+" + [(c as int - 32) as char];
  }

  /** Every function key name "f1" ... "f12" parses to its own code, and
      the code gives the key number back. */
  lemma FunctionKeyBinds(n: int)
    requires 1 <= n <= 12
    ensures ParseKeybinding(Some("f" + Decimal(n))) == FunctionCode(n)
    ensures -(FunctionCode(n) + 100) == n
  {
    var s := "f" + Decimal(n);
    KeyNumber(n);
    assert s[0] == 'f' && s[1..] == Decimal(n);
    assert !("ctrl+" <= s) by { assert |s| <= 3; }
  }

  /** The number of a function key is one or two digits and reads back. */
  lemma KeyNumber(n: int)
    requires 1 <= n <= 12
    ensures 1 <= |Decimal(n)| <= 2 && Atoi(Decimal(n)) == n
  {
    ScanDecimal(n, "");
    assert Decimal(n) + "" == Decimal(n);
    if n >= 10 {
      assert Decimal(n) == Digits(n / 10) + [DigitChar(n % 10)];
    }
  }

  /** The default binding is the one "ctrl+o" names. */
  lemma DefaultBindingIsCtrlO()
    ensures ParseKeybinding(Some(DEFAULT_TRIGGER_KEY)) == DEFAULT_TRIGGER
  {
    CtrlLetterBinds('o');
  }

  // ---------------------------------------------------------------------
  // Loading the settings

  datatype Llm = Llm(provider: string, apiKey: string, model: string, endpoint: string)

  datatype Settings = Settings(llm: Llm, triggerKey: string, triggerValue: int, proxyMode: bool, startupMessages: bool)

  /** The members of the settings file the loader looks at. */
  datatype LlmSection = LlmSection(provider: Option<string>, model: Option<string>, endpoint: Option<string>, apiKey: Option<string>)

  datatype ProviderSection = ProviderSection(model: Option<string>, endpoint: Option<string>)

  datatype Document = Document(
    llm: Option<LlmSection>,
    providers: Option<map<string, ProviderSection>>,
    triggerKey: Option<string>,
    enableProxy: Option<bool>,
    showStartup: Option<bool>)

  /** The settings file as the loader finds it. */
  datatype SettingsFile = Missing | Malformed | Parsed(doc: Document)

  datatype Loaded = Loaded(code: int, settings: Settings)

  function Defaults(): (d: Settings)
    ensures d.triggerValue == ParseKeybinding(Some(d.triggerKey))
  {
    DefaultBindingIsCtrlO();
    Settings(Llm(DEFAULT_PROVIDER, "", DEFAULT_MODEL, DEFAULT_OPENAI_ENDPOINT), DEFAULT_TRIGGER_KEY, DEFAULT_TRIGGER, true, true)
  }

  /** The provider the file selects, as held in its 64-byte buffer. */
  function SelectedProvider(doc: Document): string
  {
    if doc.llm.Some? && doc.llm.value.provider.Some? then Prefix(doc.llm.value.provider.value, SELECTED_PROVIDER_SIZE - 1)
    else DEFAULT_PROVIDER
  }

  /** The "providers" entry of the selected provider. */
  function SectionOf(doc: Document): Option<ProviderSection>
  {
    var selected := SelectedProvider(doc);
    if doc.providers.Some? && selected in doc.providers.value then Some(doc.providers.value[selected]) else None
  }

  function SectionModel(doc: Document): Option<string>
  {
    if SectionOf(doc).Some? then SectionOf(doc).value.model else None
  }

  function SectionEndpoint(doc: Document): Option<string>
  {
    if SectionOf(doc).Some? then SectionOf(doc).value.endpoint else None
  }

  function LlmModel(doc: Document): Option<string>
  {
    if doc.llm.Some? then doc.llm.value.model else None
  }

  function LlmEndpoint(doc: Document): Option<string>
  {
    if doc.llm.Some? then doc.llm.value.endpoint else None
  }

  function LlmApiKey(doc: Document): Option<string>
  {
    if doc.llm.Some? then doc.llm.value.apiKey else None
  }

  /** The environment variable holding the API key of a known provider. */
  function ApiKeyVariable(provider: string): Option<string>
  {
    if provider == "openai" then Some("OPENAI_API_KEY")
    else if provider == "gemini" then Some("GEMINI_API_KEY")
    else if provider == "openrouter" then Some("OPENROUTER_API_KEY")
    else None
  }

  /** The provider's API key from the environment, when set and non-empty. */
  function EnvApiKey(env: map<string, string>, provider: string): (r: Option<string>)
    ensures r.Some? ==> r.value != []
  {
    match ApiKeyVariable(provider)
    case None => None
    case Some(name) => if name in env && env[name] != [] then Some(env[name]) else None
  }

  /** One snprintf of an optional member over the current value. */
  function Override(current: string, member: Option<string>, size: int): string
  {
    if member.Some? then Prefix(member.value, size - 1) else current
  }

  /** load_config: defaults first; a missing or malformed file leaves them
      and reports -1.  Otherwise the selected provider's section is laid
      over the defaults, the "llm" members over that, and a non-empty
      API key from the environment over everything. */
  function LoadConfig(file: SettingsFile, env: map<string, string>): (r: Loaded)
    ensures r.code == 0 || r.code == -1
    ensures r.code == 0 <==> file.Parsed?
    ensures r.code == -1 ==> r.settings == Defaults()
    ensures file.Parsed? ==> r.settings.llm.provider == Prefix(SelectedProvider(file.doc), PROVIDER_SIZE - 1)
    ensures |r.settings.llm.model| < MODEL_SIZE && |r.settings.llm.endpoint| < ENDPOINT_SIZE
    ensures |r.settings.llm.apiKey| < API_KEY_SIZE && |r.settings.triggerKey| < TRIGGER_KEY_SIZE
    ensures file.Parsed? && file.doc.triggerKey.Some? ==> r.settings.triggerValue == ParseKeybinding(file.doc.triggerKey)
    ensures file.Parsed? && file.doc.triggerKey.None? ==> r.settings.triggerKey == DEFAULT_TRIGGER_KEY && r.settings.triggerValue == DEFAULT_TRIGGER
  {
    if !file.Parsed? then Loaded(-1, Defaults())
    else
      var doc := file.doc;
      var d := Defaults();
      var provider := Prefix(SelectedProvider(doc), PROVIDER_SIZE - 1);
      var model := Override(Override(d.llm.model, SectionModel(doc), MODEL_SIZE), LlmModel(doc), MODEL_SIZE);
      var endpoint := Override(Override(d.llm.endpoint, SectionEndpoint(doc), ENDPOINT_SIZE), LlmEndpoint(doc), ENDPOINT_SIZE);
      var apiKey := Override(Override(d.llm.apiKey, LlmApiKey(doc), API_KEY_SIZE), EnvApiKey(env, provider), API_KEY_SIZE);
      var triggerKey := Override(d.triggerKey, doc.triggerKey, TRIGGER_KEY_SIZE);
      var triggerValue := if doc.triggerKey.Some? then ParseKeybinding(doc.triggerKey) else d.triggerValue;
      var proxy := if doc.enableProxy.Some? then doc.enableProxy.value else d.proxyMode;
      var startup := if doc.showStartup.Some? then doc.showStartup.value else d.startupMessages;
      Loaded(0, Settings(Llm(provider, apiKey, model, endpoint), triggerKey, triggerValue, proxy, startup))
  }

  /** The value of the highest-priority layer that is present (layers
      listed highest first), or the fallback when none is. */
  function Highest(layers: seq<Option<string>>, fallback: string): (r: string)
    ensures (forall i :: 0 <= i < |layers| ==> layers[i].None?) ==> r == fallback
    ensures |layers| > 0 && layers[0].Some? ==> r == layers[0].value
  {
    if |layers| == 0 then fallback
    else if layers[0].Some? then layers[0].value
    else Highest(layers[1..], fallback)
  }

  lemma PrefixTwice(s: string, n: int)
    ensures Prefix(Prefix(s, n), n) == Prefix(s, n)
  {
  }

  /** Overwriting twice keeps the later layer when present, else the
      earlier one, else the starting value. */
  lemma OverrideTwice(start: string, lo: Option<string>, hi: Option<string>, size: int)
    requires |start| <= size - 1
    ensures Override(Override(start, lo, size), hi, size) == Prefix(Highest([hi, lo], start), size - 1)
  {
    var rest := [hi, lo][1..];
    assert rest == [lo];
    if hi.None? && lo.None? {
      assert Highest([lo], start) == Highest([lo][1..], start);
      assert [lo][1..] == [];
    }
  }

  /** The layers of a loaded file, highest priority first: the user's
      "llm" member beats the provider section, which beats the built-in
      default; a non-empty key in the provider's environment variable beats
      the "llm" api_key. */
  lemma {:induction false} LoadConfigPrecedence(doc: Document, env: map<string, string>)
    ensures var s := LoadConfig(Parsed(doc), env).settings;
            s.llm.model == Prefix(Highest([LlmModel(doc), SectionModel(doc)], DEFAULT_MODEL), MODEL_SIZE - 1)
            && s.llm.endpoint == Prefix(Highest([LlmEndpoint(doc), SectionEndpoint(doc)], DEFAULT_OPENAI_ENDPOINT), ENDPOINT_SIZE - 1)
            && s.llm.apiKey == Prefix(Highest([EnvApiKey(env, s.llm.provider), LlmApiKey(doc)], ""), API_KEY_SIZE - 1)
  {
    OverrideTwice(DEFAULT_MODEL, SectionModel(doc), LlmModel(doc), MODEL_SIZE);
    OverrideTwice(DEFAULT_OPENAI_ENDPOINT, SectionEndpoint(doc), LlmEndpoint(doc), ENDPOINT_SIZE);
    var provider := Prefix(SelectedProvider(doc), PROVIDER_SIZE - 1);
    OverrideTwice("", LlmApiKey(doc), EnvApiKey(env, provider), API_KEY_SIZE);
  }

  /** The environment's key is consulted only once a file has loaded: with
      no settings file the key stays empty whatever the environment holds. */
  lemma NoFileIgnoresEnvironment(env: map<string, string>)
    ensures LoadConfig(Missing, env).settings.llm.apiKey == []
    ensures LoadConfig(Missing, env).code == -1
  {
  }

  /** A key exported for a different provider is not used. */
  lemma OtherProvidersKeyIgnored(doc: Document, env: map<string, string>, key: string)
    requires SelectedProvider(doc) == "openai"
    requires "OPENAI_API_KEY" !in env
    ensures LoadConfig(Parsed(doc), env[("GEMINI_API_KEY") := key]).settings.llm.apiKey
            == Override("", LlmApiKey(doc), API_KEY_SIZE)
  {
    assert Prefix("openai", PROVIDER_SIZE - 1) == "openai";
  }

  // ---------------------------------------------------------------------
  // Temporary file paths

  /** get_temp_file_path: "<tmp>/smart-cmd.<prefix>.<id>" with a session id
      made on this call, where <tmp> is TMPDIR when it is set (even empty)
      and /tmp otherwise; `None` when no id could be made. */
  function GetTempFilePath(prefix: string, envTmpdir: Option<string>, clock: Option<Session.Clock>, pid: int): (r: Option<string>)
    ensures r.Some? <==> clock.Some?
    ensures r.Some? ==> var head := TempDir(envTmpdir) + "/" + Session.SMART_CMD_PREFIX + "." + prefix + ".";
                        |r.value| == |head| + 16 && head <= r.value && Session.IsSessionId(r.value[|head|..])
  {
    match Session.NewSessionId(TEMP_ID_SIZE, clock, pid)
    case None => None
    case Some(id) =>
      var head := TempDir(envTmpdir) + "/" + Session.SMART_CMD_PREFIX + "." + prefix + ".";
      assert (head + id)[|head|..] == id;
      Some(head + id)
  }

  function TempDir(envTmpdir: Option<string>): string
  {
    if envTmpdir.Some? then envTmpdir.value else "/tmp"
  }

  /** The path is generate_temp_file_path's for the same id, uncut. */
  lemma TempPathAgreesWithGenerator(prefix: string, envTmpdir: Option<string>, clock: Session.Clock, pid: int, size: int)
    requires size > |TempDir(envTmpdir)| + |prefix| + 28
    ensures var id := Session.NewSessionId(TEMP_ID_SIZE, Some(clock), pid).value;
            GetTempFilePath(prefix, envTmpdir, Some(clock), pid) == Some(Session.TempFilePath(TempDir(envTmpdir), prefix, id, size))
  {
    var id := Session.NewSessionId(TEMP_ID_SIZE, Some(clock), pid).value;
    var head := TempDir(envTmpdir) + "/" + Session.SMART_CMD_PREFIX + "." + prefix + ".";
    assert head + id == TempDir(envTmpdir) + "/" + Session.SMART_CMD_PREFIX + "." + prefix + "." + id;
  }

  /** Two calls whose clocks give different session hashes name different
      files: each call has a path of its own. */
  lemma FreshPathsDiffer(prefix: string, envTmpdir: Option<string>, c1: Session.Clock, c2: Session.Clock, pid: int)
    requires Session.SessionHash(c1, pid) as int != Session.SessionHash(c2, pid) as int
    ensures GetTempFilePath(prefix, envTmpdir, Some(c1), pid) != GetTempFilePath(prefix, envTmpdir, Some(c2), pid)
  {
    IdsDiffer(c1, c2, pid);
    var head := TempDir(envTmpdir) + "/" + Session.SMART_CMD_PREFIX + "." + prefix + ".";
    var id1 := Session.NewSessionId(TEMP_ID_SIZE, Some(c1), pid).value;
    var id2 := Session.NewSessionId(TEMP_ID_SIZE, Some(c2), pid).value;
    assert GetTempFilePath(prefix, envTmpdir, Some(c1), pid) == Some(head + id1);
    assert GetTempFilePath(prefix, envTmpdir, Some(c2), pid) == Some(head + id2);
    if head + id1 == head + id2 {
      SameHeadSameTail(head, id1, id2);
    }
  }

  lemma IdsDiffer(c1: Session.Clock, c2: Session.Clock, pid: int)
    requires Session.SessionHash(c1, pid) as int != Session.SessionHash(c2, pid) as int
    ensures Session.NewSessionId(TEMP_ID_SIZE, Some(c1), pid) != Session.NewSessionId(TEMP_ID_SIZE, Some(c2), pid)
  {
    Session.SessionIdDenotesHash(TEMP_ID_SIZE, c1, pid);
    Session.SessionIdDenotesHash(TEMP_ID_SIZE, c2, pid);
  }

  lemma SameHeadSameTail(head: string, a: string, b: string)
    requires head + a == head + b
    ensures a == b
  {
    assert a == (head + a)[|head|..];
    assert b == (head + b)[|head|..];
  }
}
