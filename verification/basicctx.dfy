/** Context for basic mode, gathered straight from the user's shell: who
    and where the user is, the first few harmless lines of the shell
    history, the terminal multiplexer, a few environment variables and the
    git branch.  Every lookup (password entry, host name, working
    directory, history file, git output) is a parameter. */
module BasicContext {
  import opened Text

  // Sizes of the session context's character arrays.
  const USERNAME_SIZE: int := 64
  const HOSTNAME_SIZE: int := 256
  const CWD_SIZE: int := 512
  const LAST_COMMAND_SIZE: int := 4096
  const TERMINAL_BUFFER_SIZE: int := 8192

  /** Longest text the bounded appends leave in the terminal buffer: each
      append is given the space left minus one, and snprintf keeps one
      byte of that for the terminator. */
  const TERMINAL_CAP: int := TERMINAL_BUFFER_SIZE - 2

  /** fgets line buffer and the number of history lines kept. */
  const LINE_SIZE: int := 4096
  const HISTORY_LINES: int := 3
  const GIT_BRANCH_SIZE: int := 128

  const HISTORY_HEADER: string := "Recent history: "
  const DEFAULT_HISTFILE: string := "~/.bash_history"

  datatype SessionContext = SessionContext(username: string, hostname: string, cwd: string, lastCommand: string, terminalBuffer: string)

  // ---------------------------------------------------------------------
  // Sensitive commands

  const SENSITIVE_KEYWORDS: seq<string> := [
    "password", "passwd", "pass", "pwd",
    "secret", "key", "token", "api_key",
    "auth", "login", "credential", "credentials",
    ".env", ".pem", ".key", ".p12", ".pfx",
    "sudo", "su ", "root"]

  /** The text the keywords are looked for in: the command's first
      MAX_INPUT_LEN - 1 bytes, lower-cased. */
  function Folded(command: string): string
  {
    Lower(Prefix(command, LINE_SIZE - 1))
  }

  predicate MentionsKeyword(text: string)
  {
    exists i :: 0 <= i < |SENSITIVE_KEYWORDS| && Contains(text, SENSITIVE_KEYWORDS[i])
  }

  /** is_sensitive_command (`None` is a NULL command). */
  function IsSensitive(command: Option<string>): (r: bool)
    ensures command.None? || command == Some([]) ==> !r
  {
    if command.None? || |command.value| == 0 then false
    else MentionsKeyword(Folded(command.value))
  }

  lemma ToLowerIdempotent(c: char)
    ensures ToLower(ToLower(c)) == ToLower(c)
  {
  }

  /** Case does not matter: a command and its lower-case form are judged
      alike. */
  lemma SensitiveIgnoresCase(command: string)
    ensures IsSensitive(Some(command)) == IsSensitive(Some(Lower(command)))
  {
    var a := Prefix(command, LINE_SIZE - 1);
    var b := Prefix(Lower(command), LINE_SIZE - 1);
    assert b == Lower(a);
    forall i | 0 <= i < |a|
      ensures Lower(b)[i] == Lower(a)[i]
    {
      ToLowerIdempotent(a[i]);
    }
    assert Lower(b) == Lower(a);
  }

  /** Typing more after a sensitive command keeps it sensitive, as long as
      the whole stays within the examined length. */
  lemma SensitiveStaysSensitive(command: string, more: string)
    requires IsSensitive(Some(command))
    requires |command| + |more| <= LINE_SIZE - 1
    ensures IsSensitive(Some(command + more))
  {
    var f := Folded(command);
    var g := Folded(command + more);
    assert g[..|f|] == f;
    var i :| 0 <= i < |SENSITIVE_KEYWORDS| && Contains(f, SENSITIVE_KEYWORDS[i]);
    var k :| 0 <= k <= |f| && OccursAt(f, SENSITIVE_KEYWORDS[i], k);
    assert g[k..k + |SENSITIVE_KEYWORDS[i]|] == f[k..k + |SENSITIVE_KEYWORDS[i]|];
    assert OccursAt(g, SENSITIVE_KEYWORDS[i], k);
  }

  /** Any command that mentions "sudo" is kept out of the context. */
  lemma SudoIsSensitive(rest: string)
    requires |rest| <= LINE_SIZE - 5
    ensures IsSensitive(Some("sudo" + rest))
  {
    var f := Folded("sudo" + rest);
    assert f[..4] == "sudo";
    assert SENSITIVE_KEYWORDS[17] == "sudo";
    assert OccursAt(f, SENSITIVE_KEYWORDS[17], 0);
  }

  // ---------------------------------------------------------------------
  // History selection

  /** A line as fgets returned it, without its newline. */
  function StripNewline(line: string): (r: string)
    ensures r <= line && '\n' !in r
    ensures |r| < |line| ==> line[|r|] == '\n'
  {
    if |line| == 0 || line[0] == '\n' then [] else [line[0]] + StripNewline(line[1..])
  }

  /** A history line worth showing: non-empty and not sensitive. */
  predicate Usable(line: string)
  {
    |line| > 0 && !IsSensitive(Some(line))
  }

  /** Reference: every usable line of the file, in file order. */
  function UsableLines(chunks: seq<string>): (r: seq<string>)
    ensures forall i :: 0 <= i < |r| ==> Usable(r[i])
  {
    if |chunks| == 0 then []
    else
      var rest := UsableLines(chunks[..|chunks| - 1]);
      var line := StripNewline(chunks[|chunks| - 1]);
      if Usable(line) then rest + [line] else rest
  }

  lemma UsableLinesGrow(chunks: seq<string>, i: int)
    requires 0 <= i < |chunks|
    ensures UsableLines(chunks[..i + 1]) == UsableLines(chunks[..i]) + (if Usable(StripNewline(chunks[i])) then [StripNewline(chunks[i])] else [])
  {
    assert chunks[..i + 1][..i] == chunks[..i];
  }

  /** UsableLines only grows as more of the file is read. */
  lemma {:induction false} UsableLinesPrefix(chunks: seq<string>, i: int, j: int)
    requires 0 <= i <= j <= |chunks|
    ensures UsableLines(chunks[..i]) <= UsableLines(chunks[..j])
    decreases j - i
  {
    if i < j {
      UsableLinesPrefix(chunks, i, j - 1);
      UsableLinesGrow(chunks, j - 1);
    }
  }

  /** Once the loop stops (the file is done or three lines are kept), the
      lines kept are the first three usable lines of the whole file. */
  lemma SelectionComplete(chunks: seq<string>, i: int)
    requires 0 <= i <= |chunks|
    requires i == |chunks| || |UsableLines(chunks[..i])| == HISTORY_LINES
    requires |UsableLines(chunks[..i])| <= HISTORY_LINES
    ensures var all := UsableLines(chunks);
            UsableLines(chunks[..i]) == all[..Min(HISTORY_LINES, |all|)]
  {
    assert chunks[..|chunks|] == chunks;
    UsableLinesPrefix(chunks, i, |chunks|);
  }

  /** The loop of get_command_history: read lines until three usable
      ones are found, keeping them in file order. */
  method SelectHistory(text: string) returns (selected: seq<string>)
    ensures var all := UsableLines(FgetsChunks(text, LINE_SIZE));
            selected == all[..Min(HISTORY_LINES, |all|)]
  {
    var chunks := FgetsChunks(text, LINE_SIZE);
    selected := [];
    var i := 0;
    while i < |chunks| && |selected| < HISTORY_LINES
      invariant 0 <= i <= |chunks|
      invariant selected == UsableLines(chunks[..i])
      invariant |selected| <= HISTORY_LINES
    {
      UsableLinesGrow(chunks, i);
      var line := StripNewline(chunks[i]);
      if Usable(line) {
        selected := selected + [line];
      }
      i := i + 1;
    }
    SelectionComplete(chunks, i);
  }

  /** The lines after the header, most recent first, "; " between them. */
  function NewestFirstPieces(selected: seq<string>): (r: seq<string>)
    ensures |r| == |selected|
    ensures forall i :: 0 <= i < |r| ==> selected[|selected| - 1 - i] <= r[i]
  {
    if |selected| == 0 then []
    else [selected[|selected| - 1] + (if |selected| > 1 then "; " else "")] + NewestFirstPieces(selected[..|selected| - 1])
  }

  // ---------------------------------------------------------------------
  // Bounded appends to the terminal buffer

  /** One snprintf at the end of the terminal buffer, given the space
      left minus one. */
  function Append(buffer: string, text: string): (r: string)
  {
    var remaining := TERMINAL_BUFFER_SIZE - |buffer| - 1;
    if remaining > 0 then buffer + Prefix(text, remaining - 1) else buffer
  }

  function AppendAll(buffer: string, pieces: seq<string>): string
    decreases |pieces|
  {
    if |pieces| == 0 then buffer else AppendAll(Append(buffer, pieces[0]), pieces[1..])
  }

  lemma AppendIsPrefix(full: string, text: string)
    ensures Append(Prefix(full, TERMINAL_CAP), text) == Prefix(full + text, TERMINAL_CAP)
  {
    var b := Prefix(full, TERMINAL_CAP);
    if |full| <= TERMINAL_CAP {
      assert b == full;
      var p := Prefix(text, TERMINAL_CAP - |full|);
      assert p == text[..|p|];
      assert (full + text)[..|full| + |p|] == full + p;
    } else {
      assert (full + text)[..TERMINAL_CAP] == full[..TERMINAL_CAP];
    }
  }

  /** Appending the pieces one bounded snprintf at a time leaves exactly
      the text a single cut of their concatenation would. */
  lemma {:induction false} AppendAllIsPrefix(full: string, pieces: seq<string>)
    ensures AppendAll(Prefix(full, TERMINAL_CAP), pieces) == Prefix(full + Concat(pieces), TERMINAL_CAP)
    decreases |pieces|
  {
    if |pieces| == 0 {
      assert full + Concat(pieces) == full;
    } else {
      var head, tail := pieces[0], Concat(pieces[1..]);
      AppendIsPrefix(full, head);
      AppendAllIsPrefix(full + head, pieces[1..]);
      ConcatFront(pieces);
      assert (full + head) + tail == full + (head + tail);
    }
  }

  lemma {:induction false} ConcatFront(pieces: seq<string>)
    requires |pieces| > 0
    ensures Concat(pieces) == pieces[0] + Concat(pieces[1..])
    decreases |pieces|
  {
    if |pieces| > 1 {
      var init := pieces[..|pieces| - 1];
      ConcatFront(init);
      assert init[1..] == pieces[1..][..|pieces[1..]| - 1];
    } else {
      assert pieces[1..] == [];
    }
  }

  // ---------------------------------------------------------------------
  // Collecting the whole context

  /** What the process environment and the host report. */
  datatype Host = Host(
    env: map<string, string>,
    passwdName: Option<string>,
    hostname: Option<string>,
    cwd: Option<string>,
    historyFile: Option<string>,
    gitOutput: Option<string>)

  const ENV_VARS: seq<string> := ["PWD", "USER", "HOME", "LANG"]

  /** "[tmux session] " when TMUX is set and non-empty, otherwise
      "[screen session] " when STY is. */
  function MultiplexerPieces(env: map<string, string>): seq<string>
  {
    if "TMUX" in env && env["TMUX"] != [] then ["[tmux session] "]
    else if "STY" in env && env["STY"] != [] then ["[screen session] "]
    else []
  }

  /** "NAME=value " for each of the variables that is set, in order. */
  function EnvPieces(env: map<string, string>, names: seq<string>): seq<string>
  {
    if |names| == 0 then []
    else (if names[0] in env then [names[0] + "=" + env[names[0]] + " "] else []) + EnvPieces(env, names[1..])
  }

  /** "[git:<branch>] " from the first line git printed, when it printed
      one. */
  function GitPieces(gitOutput: Option<string>): seq<string>
  {
    if gitOutput.None? || |gitOutput.value| == 0 then []
    else ["[git:" + StripNewline(FgetsChunks(gitOutput.value, GIT_BRANCH_SIZE)[0]) + "] "]
  }

  function HistoryPieces(selected: seq<string>): seq<string>
  {
    if |selected| == 0 then [] else [HISTORY_HEADER] + NewestFirstPieces(selected)
  }

  /** Everything collect_context writes to the terminal buffer, in order. */
  function ContextPieces(h: Host, selected: seq<string>): seq<string>
  {
    HistoryPieces(selected) + MultiplexerPieces(h.env) + EnvPieces(h.env, ENV_VARS) + GitPieces(h.gitOutput)
  }

  /** collect_context: zero the context, then user, host, directory,
      history, multiplexer, environment and git, in that order.  The host
      name is looked up only after the password entry was found. */
  method CollectContext(h: Host) returns (ctx: SessionContext)
    ensures ctx.terminalBuffer == Prefix(Concat(ContextPieces(h, KeptHistory(h))), TERMINAL_CAP)
    ensures KeptHistory(h) != [] ==> ctx.lastCommand == KeptHistory(h)[|KeptHistory(h)| - 1]
    ensures KeptHistory(h) == [] ==> ctx.lastCommand == []
    ensures h.passwdName.None? ==> ctx.username == [] && ctx.hostname == []
    ensures h.passwdName.Some? ==> ctx.username == Prefix(h.passwdName.value, USERNAME_SIZE - 1)
    ensures h.passwdName.Some? && h.hostname.None? ==> ctx.hostname == "localhost"
    ensures h.cwd.None? ==> ctx.cwd == "/unknown"
  {
    var username: string := [];
    var hostname: string := [];
    if h.passwdName.Some? {
      username := Prefix(h.passwdName.value, USERNAME_SIZE - 1);
      hostname := if h.hostname.Some? then h.hostname.value else "localhost";
    }
    var cwd := if h.cwd.Some? then h.cwd.value else "/unknown";
    var kept: seq<string> := [];
    if h.historyFile.Some? {
      kept := SelectHistory(h.historyFile.value);
    }
    var lastCommand: string := [];
    if |kept| > 0 {
      LineFits(h.historyFile.value, kept);
      lastCommand := Prefix(kept[|kept| - 1], LAST_COMMAND_SIZE - 1);
    }
    var buffer := TerminalBuffer(h, kept);
    ctx := SessionContext(username, hostname, cwd, lastCommand, buffer);
  }

  /** The history lines collect_context keeps. */
  function KeptHistory(h: Host): (r: seq<string>)
  {
    if h.historyFile.None? then []
    else
      var all := UsableLines(FgetsChunks(h.historyFile.value, LINE_SIZE));
      all[..Min(HISTORY_LINES, |all|)]
  }

  /** The terminal buffer after the appends, starting from the zeroed
      context. */
  function TerminalBuffer(h: Host, kept: seq<string>): (r: string)
    ensures r == Prefix(Concat(ContextPieces(h, kept)), TERMINAL_CAP)
  {
    AppendAllIsPrefix([], ContextPieces(h, kept));
    assert [] + Concat(ContextPieces(h, kept)) == Concat(ContextPieces(h, kept));
    AppendAll([], ContextPieces(h, kept))
  }

  /** Selected lines come from fgets with a 4096-byte buffer, so they fit
      last_command whole. */
  lemma LineFits(text: string, kept: seq<string>)
    requires var all := UsableLines(FgetsChunks(text, LINE_SIZE)); kept == all[..Min(HISTORY_LINES, |all|)]
    requires |kept| > 0
    ensures Prefix(kept[|kept| - 1], LAST_COMMAND_SIZE - 1) == kept[|kept| - 1]
  {
    var chunks := FgetsChunks(text, LINE_SIZE);
    ChunksShort(text, LINE_SIZE);
    UsableLinesShort(chunks);
  }

  lemma {:induction false} ChunksShort(text: string, size: nat)
    requires size >= 2
    ensures forall i :: 0 <= i < |FgetsChunks(text, size)| ==> |FgetsChunks(text, size)[i]| <= size - 1
    decreases |text|
  {
    if |text| > 0 {
      var n := LineLength(text, size);
      ChunksShort(text[n..], size);
    }
  }

  lemma {:induction false} UsableLinesShort(chunks: seq<string>)
    requires forall i :: 0 <= i < |chunks| ==> |chunks[i]| <= LINE_SIZE - 1
    ensures forall i :: 0 <= i < |UsableLines(chunks)| ==> |UsableLines(chunks)[i]| <= LINE_SIZE - 1
  {
    if |chunks| > 0 {
      UsableLinesShort(chunks[..|chunks| - 1]);
    }
  }

  /** When the history section fits, the terminal buffer opens with the
      header followed by the most recent selected line: the same line
      last_command holds. */
  lemma NewestLineLeadsBuffer(selected: seq<string>, h: Host)
    requires |selected| > 0
    requires |HISTORY_HEADER| + |selected[|selected| - 1]| <= TERMINAL_CAP
    ensures HISTORY_HEADER + selected[|selected| - 1] <= Prefix(Concat(ContextPieces(h, selected)), TERMINAL_CAP)
  {
    var pieces := ContextPieces(h, selected);
    var first := NewestFirstPieces(selected)[0];
    assert pieces[0] == HISTORY_HEADER && pieces[1] == first;
    ConcatFront(pieces);
    ConcatFront(pieces[1..]);
    var full := Concat(pieces);
    assert full == HISTORY_HEADER + (first + Concat(pieces[1..][1..]));
    var want := HISTORY_HEADER + selected[|selected| - 1];
    assert want <= HISTORY_HEADER + first;
    assert want <= full;
    assert Prefix(full, TERMINAL_CAP)[..|want|] == full[..|want|];
  }
}
