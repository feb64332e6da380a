/** The daemon's main loop: one iteration accepts at most one client,
    answers its request and then polls the pseudo-terminal once.  Also the
    recovery of a running daemon's session from its lock file.

    The command generator (configuration loading and the language-model
    call) is an input: its outcome is a parameter, and the model records
    what it would have been called with. */
module Daemon {
  import opened Text
  import History
  import Ipc
  import Pty
  import Session

  const REQUEST_BUFFER: int := Ipc.MAX_IPC_MESSAGE_SIZE
  const RESPONSE_BUFFER: int := Ipc.MAX_IPC_MESSAGE_SIZE
  /** The daemon's buffer for recent commands. */
  const RECENT_BUFFER: int := 1024
  const RECENT_COUNT: int := 3
  const RECENT_MAX_AGE: int := 3600
  const PTY_READ_BUFFER: int := 1024
  /** At most this much PTY output goes into a "context" reply. */
  const CONTEXT_REPLY_LIMIT: int := 4000

  const SUGGESTION_PREFIX: string := "suggestion:"
  const CONTEXT_PREFIX: string := "context"
  const RECENT_HEADER: string := "\n\nRecent user commands:\n"
  const ERROR_GENERATOR: string := "error:Failed to get AI suggestion"
  const ERROR_CONFIG: string := "error:Failed to load configuration"
  const ERROR_NO_PTY: string := "error:No active PTY session"
  const ERROR_UNKNOWN: string := "error:Unknown request"

  /** What load_config and send_to_llm produced for a suggestion request. */
  datatype Generated = ConfigFailed | GeneratorFailed | Suggested(kind: char, text: string)

  /** The arguments send_to_llm was called with: the input and the context's
      terminal buffer. */
  datatype GeneratorCall = GeneratorCall(input: string, context: string)

  datatype Handled = Handled(response: string, history: History.Store, call: Option<GeneratorCall>)

  // ---------------------------------------------------------------------
  // Context assembly

  /** The PTY output the suggestion context starts with: the tail the PTY
      hands out, read as a C string; nothing when the session is inactive. */
  function PtyTail(pty: Pty.Pty): (t: string)
    ensures !pty.active ==> t == []
    ensures '\0' !in t && |t| <= History.MAX_CONTEXT_LEN / 2
    ensures pty.active ==> t <= pty.buffer[|pty.buffer| - Min(|pty.buffer|, History.MAX_CONTEXT_LEN / 2)..]
  {
    if pty.active then CStrOf(Pty.Context(pty, History.MAX_CONTEXT_LEN).text) else []
  }

  /** The recent commands the daemon asks for: up to three from the last
      hour, newest first. */
  function RecentSelection(hist: History.Store, now: int): seq<string>
    requires History.Valid(hist)
  {
    History.Selection(hist, RECENT_COUNT, History.RetrievalCutoff(now, RECENT_MAX_AGE))
  }

  /** The daemon the loop runs: the code as written, or the code with the
      corrections listed under the Findings (history insertion, the size
      passed for the recent-commands buffer, the idle PTY poll). */
  datatype Build = AsWritten | Corrected

  /** The size get_recent_commands is told its buffer has: MAX_CONTEXT_LEN
      as written, the buffer's real 1024 bytes once corrected.  As written
      the text may run past the 1024-byte buffer; the model reads all of it
      back, as the snprintf that follows does while nothing else reuses
      that stack memory. */
  function RecentCap(build: Build): int
  {
    if build.AsWritten? then History.MAX_CONTEXT_LEN else RECENT_BUFFER
  }

  /** The terminal buffer handed to the generator: the PTY tail, then, when
      any recent command exists, the header and the recent commands, all
      cut to the 8192-byte terminal buffer.  Once corrected, nothing is
      ever cut off. */
  function SuggestionContext(build: Build, pty: Pty.Pty, hist: History.Store, now: int): (ctx: string)
    requires History.Valid(hist)
    ensures |ctx| < History.MAX_CONTEXT_LEN
    ensures |RecentSelection(hist, now)| == 0 ==> ctx == PtyTail(pty)
    ensures var full := PtyTail(pty) + RECENT_HEADER + History.RecentText(RecentSelection(hist, now), RecentCap(build));
            |RecentSelection(hist, now)| > 0 ==>
              ctx <= full && (|full| < History.MAX_CONTEXT_LEN ==> ctx == full)
    ensures build.Corrected? && |RecentSelection(hist, now)| > 0 ==>
              ctx == PtyTail(pty) + RECENT_HEADER + History.RecentText(RecentSelection(hist, now), RECENT_BUFFER)
  {
    var tail := PtyTail(pty);
    var sel := RecentSelection(hist, now);
    if |sel| > 0 then Prefix(tail + RECENT_HEADER + History.RecentText(sel, RecentCap(build)), History.MAX_CONTEXT_LEN - 1)
    else tail
  }

  // ---------------------------------------------------------------------
  // Dispatch

  /** How daemon_main_loop answers one received request (the C string the
      receive left in the request buffer).  As written the input goes into
      the history with add_command_to_history; corrected, with the
      corrected insertion. */
  function Dispatch(build: Build, request: string, pty: Pty.Pty, hist: History.Store, now: int, gen: Generated): (h: Handled)
    requires History.Valid(hist)
    ensures History.Valid(h.history)
    ensures |h.response| < RESPONSE_BUFFER
    ensures request == Ipc.PING ==> h == Handled(Ipc.PONG, hist, None)
    ensures SUGGESTION_PREFIX <= request ==>
              var input := request[|SUGGESTION_PREFIX|..];
              (build.AsWritten? ==> h.history == History.Add(hist, input, now).store)
              && (build.Corrected? ==> h.history == History.AddFixed(hist, input, now).store)
              && (h.call.Some? <==> !gen.ConfigFailed?)
              && (h.call.Some? ==> h.call.value == GeneratorCall(input, SuggestionContext(build, pty, h.history, now)))
              && (gen.ConfigFailed? ==> h.response == ERROR_CONFIG)
              && (gen.GeneratorFailed? ==> h.response == ERROR_GENERATOR)
              && (gen.Suggested? && |gen.text| < RESPONSE_BUFFER - 1 ==> h.response == [gen.kind] + gen.text)
    ensures !(SUGGESTION_PREFIX <= request) ==> h.history == hist && h.call.None?
    ensures request != Ipc.PING && !(SUGGESTION_PREFIX <= request) && CONTEXT_PREFIX <= request ==>
              (!pty.active ==> h.response == ERROR_NO_PTY)
              && (pty.active ==> |h.response| <= CONTEXT_REPLY_LIMIT && h.response <= PtyTail(pty))
              && (pty.active && |PtyTail(pty)| <= CONTEXT_REPLY_LIMIT ==> h.response == PtyTail(pty))
    ensures request != Ipc.PING && !(SUGGESTION_PREFIX <= request) && !(CONTEXT_PREFIX <= request) ==>
              h.response == ERROR_UNKNOWN
  {
    if request == Ipc.PING then Handled(Ipc.PONG, hist, None)
    else if SUGGESTION_PREFIX <= request then
      var input := request[|SUGGESTION_PREFIX|..];
      var added := if build.AsWritten? then History.Add(hist, input, now).store else History.AddFixed(hist, input, now).store;
      var call := GeneratorCall(input, SuggestionContext(build, pty, added, now));
      match gen
      case ConfigFailed => Handled(ERROR_CONFIG, added, None)
      case GeneratorFailed => Handled(ERROR_GENERATOR, added, Some(call))
      case Suggested(k, t) => Handled(Prefix([k] + t, RESPONSE_BUFFER - 1), added, Some(call))
    else if CONTEXT_PREFIX <= request then
      if !pty.active then Handled(ERROR_NO_PTY, hist, None)
      else
        var c := Pty.Context(pty, History.MAX_CONTEXT_LEN);
        Handled(if c.code > 0 then Prefix(CStrOf(c.text), CONTEXT_REPLY_LIMIT) else [], hist, None)
    else Handled(ERROR_UNKNOWN, hist, None)
  }

  /** The two daemons part ways on the history: with entries a (at time 0),
      b and c (at 4000), the request "suggestion:d" at 4000 leaves c, c, d
      as written and b, c, d corrected. */
  lemma DispatchHistoryDiffers(pty: Pty.Pty, gen: Generated)
    ensures var h := Dispatch(AsWritten, "suggestion:d", pty, History.ThreeEntryStore(), 4000, gen);
            History.OldestFirst(h.history) == [History.Entry("c", 4000), History.Entry("c", 4000), History.Entry("d", 4000)]
    ensures var h := Dispatch(Corrected, "suggestion:d", pty, History.ThreeEntryStore(), 4000, gen);
            History.OldestFirst(h.history) == [History.Entry("b", 4000), History.Entry("c", 4000), History.Entry("d", 4000)]
  {
    var request := "suggestion:d";
    assert SUGGESTION_PREFIX <= request && request[|SUGGESTION_PREFIX|..] == "d";
    History.AddAsWrittenDuplicatesAfterExpiry();
  }

  /** In the corrected daemon the input of a suggestion request reaches the
      generator twice: as the input, and as the newest recent command in its
      context, because it is added to the history before the generator is
      called. */
  lemma InputLeadsRecentCommands(request: string, pty: Pty.Pty, hist: History.Store, now: int, gen: Generated)
    requires History.Valid(hist)
    requires SUGGESTION_PREFIX <= request && !gen.ConfigFailed?
    requires !History.Rejected(request[|SUGGESTION_PREFIX|..])
    ensures var h := Dispatch(Corrected, request, pty, hist, now, gen);
            var input := request[|SUGGESTION_PREFIX|..];
            var sel := RecentSelection(h.history, now);
            h.call.Some? && |sel| > 0 && sel[0] == input
            && h.call.value.context == PtyTail(pty) + RECENT_HEADER + History.RecentText(sel, RECENT_BUFFER)
  {
    var input := request[|SUGGESTION_PREFIX|..];
    History.RetrievalSeesAddFixed(hist, input, now, RECENT_COUNT, RECENT_MAX_AGE);
  }

  /** As written, get_recent_commands bounds its output by MAX_CONTEXT_LEN
      while the daemon's buffer holds 1024 bytes: when the newest recent
      command is 1024 characters or longer, the text it writes, with its
      NUL, runs past the buffer. */
  lemma RecentTextOverrunsBuffer(sel: seq<string>)
    requires |sel| > 0 && |sel[0]| >= RECENT_BUFFER
    ensures |History.RecentText(sel, History.MAX_CONTEXT_LEN)| >= RECENT_BUFFER
  {
    JoinStartsWithFirst(sel, ", ");
  }

  /** Such a command arrives in an ordinary request: as written, a
      suggestion request whose input is 1024 to 4033 characters long and
      not a repeat of the newest command goes into the history with
      add_command_to_history and becomes the newest recent command of the
      very call that reads them. */
  lemma LongInputOverrunsRecentBuffer(request: string, pty: Pty.Pty, hist: History.Store, now: int, gen: Generated)
    requires History.Valid(hist) && now >= 0
    requires SUGGESTION_PREFIX <= request && |request| <= Ipc.MAX_PAYLOAD
    requires |request| - |SUGGESTION_PREFIX| >= RECENT_BUFFER
    requires !History.IsRepeat(History.Expire(hist, now), request[|SUGGESTION_PREFIX|..])
    ensures var h := Dispatch(AsWritten, request, pty, hist, now, gen);
            var sel := RecentSelection(h.history, now);
            |sel| > 0 && sel[0] == request[|SUGGESTION_PREFIX|..]
            && |History.RecentText(sel, RecentCap(AsWritten))| >= RECENT_BUFFER
  {
    var input := request[|SUGGESTION_PREFIX|..];
    var r := History.Add(hist, input, now).store;
    var cutoff := History.RetrievalCutoff(now, RECENT_MAX_AGE);
    History.RetrievalSeesInsert(hist, input, now, RECENT_MAX_AGE);
    var us := History.Usables(History.NewestFirst(r), cutoff);
    assert History.Take(us, 1) == [input];
    assert |us| >= 1 && us[0] == input;
    RecentTextOverrunsBuffer(RecentSelection(r, now));
  }

  /** With the buffer's real size the recent commands fit: the corrected
      call never writes more than 1023 characters and a NUL. */
  lemma RecentTextFitsBuffer(sel: seq<string>)
    ensures |History.RecentText(sel, RECENT_BUFFER)| < RECENT_BUFFER
  {
  }

  // ---------------------------------------------------------------------
  // Serving one client

  datatype Served = Served(written: string, handled: Option<Handled>)

  /** One accepted client: receive a request into a 4096-byte buffer,
      dispatch it when the receive returned a positive length, and send the
      response back.  The send validates the response like any message, so
      an empty or unsafe response is not sent at all. */
  function Serve(build: Build, clientFd: int, incoming: string, pty: Pty.Pty, hist: History.Store, now: int, gen: Generated, order: Ipc.ByteOrder): (r: Served)
    requires History.Valid(hist)
    ensures r.handled.Some? <==> Ipc.Receive(clientFd, incoming, REQUEST_BUFFER, order).code > 0
    ensures r.handled.None? ==> r.written == []
    ensures r.handled.Some? ==> History.Valid(r.handled.value.history)
    ensures r.written != [] ==> r.handled.Some? && Ipc.ValidPayload(CStrOf(r.handled.value.response))
  {
    var got := Ipc.Receive(clientFd, incoming, REQUEST_BUFFER, order);
    if got.code <= 0 then Served([], None)
    else
      var h := Dispatch(build, got.text, pty, hist, now, gen);
      Served(Ipc.Send(clientFd, Some(CStrOf(h.response)), now, order).written, Some(h))
  }

  /** A client's ping gets a pong: the daemon's answer to the frame of
      "ping" is a frame that ping_daemon accepts. */
  lemma PingIsAnswered(build: Build, clientFd: int, pty: Pty.Pty, hist: History.Store, now: int, gen: Generated, order: Ipc.ByteOrder, clientNow: int)
    requires History.Valid(hist) && clientFd > 0
    ensures var request := Ipc.Send(clientFd, Some(Ipc.PING), clientNow, order).written;
            var r := Serve(build, clientFd, request, pty, hist, now, gen, order);
            r.handled.Some? && r.handled.value.history == hist
            && Ipc.Ping(true, r.written, clientNow, order) == 0
  {
    Ipc.PingIsValid();
    Ipc.SendReceiveRoundTrip(clientFd, Ipc.PING, clientNow, order, REQUEST_BUFFER, []);
    var request := Ipc.Send(clientFd, Some(Ipc.PING), clientNow, order).written;
    assert request + [] == request;
    CStrOfNoNul(Ipc.PONG);
    ServesPing(build, clientFd, request, pty, hist, now, gen, order);
    var r := Serve(build, clientFd, request, pty, hist, now, gen, order);
    Ipc.PingAgainstDaemon(clientNow, order, Ipc.PONG, now, []);
    assert Ipc.Send(clientFd, Some(Ipc.PONG), now, order) == Ipc.Send(1, Some(Ipc.PONG), now, order);
    assert r.written + [] == r.written;
  }

  /** A request that reads "ping" is answered with a pong frame and leaves
      the history alone. */
  lemma ServesPing(build: Build, clientFd: int, incoming: string, pty: Pty.Pty, hist: History.Store, now: int, gen: Generated, order: Ipc.ByteOrder)
    requires History.Valid(hist)
    requires var got := Ipc.Receive(clientFd, incoming, REQUEST_BUFFER, order); got.code > 0 && got.text == Ipc.PING
    ensures var r := Serve(build, clientFd, incoming, pty, hist, now, gen, order);
            r.handled.Some? && r.handled.value.history == hist
            && r.written == Ipc.Send(clientFd, Some(Ipc.PONG), now, order).written
  {
    CStrOfNoNul(Ipc.PONG);
  }

  /** A suggestion that contains ".." (say "=cd ..") is dropped on the way
      back: the client gets no reply at all. */
  lemma UnsafeSuggestionIsDropped(build: Build, clientFd: int, incoming: string, pty: Pty.Pty, hist: History.Store, now: int, kind: char, text: string, order: Ipc.ByteOrder)
    requires History.Valid(hist)
    requires '\0' != kind && '\0' !in text && 1 + |text| < RESPONSE_BUFFER
    requires Contains(text, "..")
    requires SUGGESTION_PREFIX <= Ipc.Receive(clientFd, incoming, REQUEST_BUFFER, order).text
    ensures Serve(build, clientFd, incoming, pty, hist, now, Suggested(kind, text), order).written == []
  {
    var s := [kind] + text;
    ContainsShift(kind, text, "..");
    CStrOfNoNul(s);
  }

  lemma ContainsShift(c: char, s: string, pat: string)
    requires Contains(s, pat)
    ensures Contains([c] + s, pat)
  {
    var i :| 0 <= i <= |s| && OccursAt(s, pat, i);
    assert ([c] + s)[i + 1..i + 1 + |pat|] == s[i..i + |pat|];
    assert OccursAt([c] + s, pat, i + 1);
  }

  // ---------------------------------------------------------------------
  // Polling the PTY

  datatype Polled = Polled(pty: Pty.Pty, terminated: Option<int>)

  /** The PTY step of the loop as written: a read of 1023 bytes at most, and
      cleanup whenever the read returns 0 -- which includes a poll that
      simply found no output within 10 ms. */
  function PollPty(pty: Pty.Pty, outcome: Pty.ReadOutcome): (r: Polled)
    requires Pty.Valid(pty, History.MAX_CONTEXT_LEN)
    ensures Pty.Valid(r.pty, History.MAX_CONTEXT_LEN)
    ensures !pty.active ==> r == Polled(pty, None)
    ensures pty.active && Pty.Read(pty, History.MAX_CONTEXT_LEN, PTY_READ_BUFFER, outcome).code == 0 ==>
              !r.pty.active && r.pty.masterFd == -1
  {
    if !pty.active then Polled(pty, None)
    else
      var rd := Pty.Read(pty, History.MAX_CONTEXT_LEN, PTY_READ_BUFFER, outcome);
      if rd.code == 0 then
        var c := Pty.Cleanup(rd.pty);
        Polled(c.pty, c.terminated)
      else Polled(rd.pty, None)
  }

  /** The PTY step as evidently intended: only the end of the shell's
      output or a failed read ends the session; an idle poll leaves it
      alone. */
  function PollPtyFixed(pty: Pty.Pty, outcome: Pty.ReadOutcome): (r: Polled)
    requires Pty.Valid(pty, History.MAX_CONTEXT_LEN)
    ensures Pty.Valid(r.pty, History.MAX_CONTEXT_LEN)
    ensures !pty.active ==> r == Polled(pty, None)
    ensures outcome.NotReady? ==> r == Polled(pty, None)
    ensures pty.active && pty.masterFd != -1 && !outcome.NotReady? && Pty.Read(pty, History.MAX_CONTEXT_LEN, PTY_READ_BUFFER, outcome).code == 0 ==>
              !r.pty.active && r.pty.masterFd == -1 && (r.terminated.Some? <==> pty.childPid > 0)
    ensures r.pty.active ==> r.pty.masterFd == pty.masterFd && r.terminated.None?
  {
    if !pty.active then Polled(pty, None)
    else
      var rd := Pty.Read(pty, History.MAX_CONTEXT_LEN, PTY_READ_BUFFER, outcome);
      if rd.code == 0 && !outcome.NotReady? then
        var c := Pty.Cleanup(rd.pty);
        Polled(c.pty, c.terminated)
      else Polled(rd.pty, None)
  }

  /** The discrepancy: a live shell that is merely quiet for 10 ms loses its
      session, and its process is signalled, in the loop as written; the
      corrected step keeps it. */
  lemma IdlePollTearsDown(pty: Pty.Pty)
    requires Pty.Valid(pty, History.MAX_CONTEXT_LEN)
    requires pty.active && pty.masterFd != -1 && pty.childPid > 0
    ensures var r := PollPty(pty, Pty.NotReady);
            !r.pty.active && r.terminated == Some(pty.childPid)
    ensures PollPtyFixed(pty, Pty.NotReady) == Polled(pty, None)
  {
  }

  /** Both steps end the session when the shell's output ends. */
  lemma EndOfStreamEndsSession(pty: Pty.Pty)
    requires Pty.Valid(pty, History.MAX_CONTEXT_LEN)
    requires pty.active && pty.masterFd != -1
    ensures !PollPty(pty, Pty.Ready([])).pty.active
    ensures PollPtyFixed(pty, Pty.Ready([])) == PollPty(pty, Pty.Ready([]))
  {
    Pty.EndOfStreamDeactivates(pty, History.MAX_CONTEXT_LEN, PTY_READ_BUFFER);
  }

  /** Output keeps the session open in the corrected step and lands in the
      capture buffer. */
  lemma OutputKeepsSession(pty: Pty.Pty, pending: string)
    requires Pty.Valid(pty, History.MAX_CONTEXT_LEN)
    requires pty.active && pty.masterFd != -1 && |pending| > 0
    ensures var r := PollPtyFixed(pty, Pty.Ready(pending));
            r.pty.active && r.terminated.None?
            && r.pty == Pty.Read(pty, History.MAX_CONTEXT_LEN, PTY_READ_BUFFER, Pty.Ready(pending)).pty
  {
  }

  // ---------------------------------------------------------------------
  // One iteration of the loop

  datatype State = State(pty: Pty.Pty, history: History.Store)

  predicate ValidState(st: State)
  {
    History.Valid(st.history) && Pty.Valid(st.pty, History.MAX_CONTEXT_LEN)
  }

  /** The inputs of one iteration: what accept returned, the bytes the
      client sent, the clock, the generator's outcome and the PTY poll. */
  datatype Tick = Tick(accepted: int, incoming: string, now: int, gen: Generated, poll: Pty.ReadOutcome)

  datatype Stepped = Stepped(state: State, written: string, terminated: Option<int>, call: Option<GeneratorCall>)

  /** One pass of daemon_main_loop: a client is served only for a positive
      accept result, and the request sees the PTY as it was before this
      iteration's poll.  The PTY is then polled with the step of the
      build. */
  function Step(build: Build, st: State, t: Tick, order: Ipc.ByteOrder): (r: Stepped)
    requires ValidState(st)
    ensures ValidState(r.state)
    ensures t.accepted <= 0 ==> r.written == [] && r.call.None? && r.state.history == st.history
    ensures r.call.Some? ==> t.accepted > 0
    ensures build.AsWritten? ==>
              r.state.pty == PollPty(st.pty, t.poll).pty && r.terminated == PollPty(st.pty, t.poll).terminated
    ensures build.Corrected? ==>
              r.state.pty == PollPtyFixed(st.pty, t.poll).pty && r.terminated == PollPtyFixed(st.pty, t.poll).terminated
  {
    var served := if t.accepted > 0 then Serve(build, t.accepted, t.incoming, st.pty, st.history, t.now, t.gen, order) else Served([], None);
    var hist := if served.handled.Some? then served.handled.value.history else st.history;
    var call := if served.handled.Some? then served.handled.value.call else None;
    var polled := if build.AsWritten? then PollPty(st.pty, t.poll) else PollPtyFixed(st.pty, t.poll);
    Stepped(State(polled.pty, hist), served.written, polled.terminated, call)
  }

  /** With no client and no output, an iteration of the corrected loop
      changes nothing. */
  lemma QuietTickIsIdle(st: State, now: int, gen: Generated, order: Ipc.ByteOrder)
    requires ValidState(st)
    ensures Step(Corrected, st, Tick(0, [], now, gen, Pty.NotReady), order) == Stepped(st, [], None, None)
  {
  }

  /** The loop as written, on the same quiet iteration, ends a live shell's
      session and signals its process. */
  lemma QuietTickEndsShell(st: State, now: int, gen: Generated, order: Ipc.ByteOrder)
    requires ValidState(st)
    requires st.pty.active && st.pty.masterFd != -1 && st.pty.childPid > 0
    ensures var r := Step(AsWritten, st, Tick(0, [], now, gen, Pty.NotReady), order);
            !r.state.pty.active && r.terminated == Some(st.pty.childPid)
            && r.state.history == st.history && r.written == []
  {
    IdlePollTearsDown(st.pty);
  }

  // ---------------------------------------------------------------------
  // Finding a running daemon

  datatype DaemonInfo = DaemonInfo(pid: int, lockFile: string, sessionId: string, socketPath: string)

  const LOCK_ENTRY_PREFIX: string := Session.LOCK_FILE_PREFIX + "."

  /** A directory entry find_daemon_info settles on: a lock file name whose
      file opens and holds the pid of a live process. */
  predicate Qualifies(tmpdir: string, name: string, files: Session.Files, live: set<int>)
  {
    LOCK_ENTRY_PREFIX <= name && Session.LockHeld(files, live, tmpdir + "/" + name)
  }

  /** What find_daemon_info reports for a qualifying entry.  The session
      id is the text after the last '.'.  When that text is empty the id
      field is left as the caller zeroed it, and only the socket path falls
      back to the pid in decimal. */
  function InfoOf(tmpdir: string, name: string, files: Session.Files, live: set<int>): (r: DaemonInfo)
    requires Qualifies(tmpdir, name, files, live)
    ensures r.lockFile == tmpdir + "/" + name && r.pid in live
    ensures Session.StoredPid(files[r.lockFile]) == Some(r.pid)
    ensures '.' !in r.sessionId && |r.sessionId| < |name| && name[|name| - |r.sessionId| - 1..] == "." + r.sessionId
    ensures r.sessionId != [] ==> r.socketPath == tmpdir + "/" + Session.FileName(Session.SocketFile, r.sessionId)
    ensures r.sessionId == [] ==> r.socketPath == tmpdir + "/" + Session.FileName(Session.SocketFile, Decimal(r.pid))
  {
    var path := tmpdir + "/" + name;
    var pid := Session.StoredPid(files[path]).value;
    assert LOCK_ENTRY_PREFIX[|LOCK_ENTRY_PREFIX| - 1] == '.';
    assert name[|LOCK_ENTRY_PREFIX| - 1] == '.';
    var id := Session.SuffixAfterDot(name).value;
    var socketId := if id != [] then id else Decimal(pid);
    DaemonInfo(pid, path, id, tmpdir + "/" + Session.FileName(Session.SocketFile, socketId))
  }

  /** Index of the first qualifying entry in directory order. */
  function FirstQualifying(tmpdir: string, names: seq<string>, files: Session.Files, live: set<int>): (r: Option<nat>)
    ensures r.Some? ==> r.value < |names| && Qualifies(tmpdir, names[r.value], files, live)
    ensures r.Some? ==> forall j :: 0 <= j < r.value ==> !Qualifies(tmpdir, names[j], files, live)
    ensures r.None? ==> forall j :: 0 <= j < |names| ==> !Qualifies(tmpdir, names[j], files, live)
  {
    if |names| == 0 then None
    else if Qualifies(tmpdir, names[0], files, live) then Some(0)
    else
      match FirstQualifying(tmpdir, names[1..], files, live)
      case None => None
      case Some(k) => Some(k + 1)
  }

  /** find_daemon_info over the temporary directory's listing (`None` when
      the directory cannot be opened). */
  function FindDaemonInfo(tmpdir: string, listing: Option<seq<string>>, files: Session.Files, live: set<int>): (r: Option<DaemonInfo>)
    ensures listing.None? ==> r.None?
    ensures r.Some? ==> r.value.pid in live && r.value.lockFile in files
    ensures r.Some? <==> listing.Some? && exists i :: 0 <= i < |listing.value| && Qualifies(tmpdir, listing.value[i], files, live)
  {
    if listing.None? then None
    else
      match FirstQualifying(tmpdir, listing.value, files, live)
      case None => None
      case Some(k) => Some(InfoOf(tmpdir, listing.value[k], files, live))
  }

  /** The lock file the daemon writes at start-up, with fopen("w") and
      "%d": "<tmp>/smart-cmd.lock.<id>" holding the pid, where <tmp> is
      TMPDIR when set and /tmp otherwise. */
  function StartupLock(envTmpdir: Option<string>, id: string, pid: int): (r: (string, string))
    ensures r.1 == Decimal(pid)
  {
    var tmp := if envTmpdir.Some? then envTmpdir.value else "/tmp";
    (tmp + "/" + Session.FileName(Session.LockFile, id), Decimal(pid))
  }

  /** A daemon that started with a fresh session id and is still alive is
      found again from its lock file: same pid, same session id, and the
      socket it listens on -- provided TMPDIR was unset or a usable
      directory name, and no earlier entry of the listing qualifies. */
  lemma StartedDaemonIsFound(envTmpdir: Option<string>, id: string, pid: int, files: Session.Files, live: set<int>, before: seq<string>, after: seq<string>)
    requires Session.IsSessionId(id) && pid in live
    requires envTmpdir.Some? ==> envTmpdir.value != [] && |envTmpdir.value| < Session.TMPDIR_CACHE_SIZE
    requires var lock := StartupLock(envTmpdir, id, pid);
             lock.0 in files && files[lock.0] == lock.1
    requires var tmpdir := Session.Tmpdir([], envTmpdir).dir;
             forall j :: 0 <= j < |before| ==> !Qualifies(tmpdir, before[j], files, live)
    ensures var tmpdir := Session.Tmpdir([], envTmpdir).dir;
            var name := Session.FileName(Session.LockFile, id);
            FindDaemonInfo(tmpdir, Some(before + [name] + after), files, live)
              == Some(DaemonInfo(pid, StartupLock(envTmpdir, id, pid).0, id, tmpdir + "/" + Session.FileName(Session.SocketFile, id)))
  {
    var tmpdir := Session.Tmpdir([], envTmpdir).dir;
    Session.TmpdirChoice(envTmpdir);
    assert StartupLock(envTmpdir, id, pid).0 == tmpdir + "/" + Session.FileName(Session.LockFile, id);
    OwnLockIsFound(tmpdir, id, pid, files, live, before, after);
  }

  /** The search half of the lemma above, for any temporary directory. */
  lemma OwnLockIsFound(tmpdir: string, id: string, pid: int, files: Session.Files, live: set<int>, before: seq<string>, after: seq<string>)
    requires Session.IsSessionId(id) && pid in live
    requires var path := tmpdir + "/" + Session.FileName(Session.LockFile, id);
             path in files && files[path] == Decimal(pid)
    requires forall j :: 0 <= j < |before| ==> !Qualifies(tmpdir, before[j], files, live)
    ensures var name := Session.FileName(Session.LockFile, id);
            FindDaemonInfo(tmpdir, Some(before + [name] + after), files, live)
              == Some(DaemonInfo(pid, tmpdir + "/" + name, id, tmpdir + "/" + Session.FileName(Session.SocketFile, id)))
  {
    var name := Session.FileName(Session.LockFile, id);
    OwnLockEntry(tmpdir, id, pid, files, live);
    var names := before + [name] + after;
    assert names[|before|] == name;
    FirstAtIndex(tmpdir, names, files, live, |before|);
  }

  /** The lock entry a live daemon wrote qualifies and reads back as its
      pid, path, session id and socket. */
  lemma OwnLockEntry(tmpdir: string, id: string, pid: int, files: Session.Files, live: set<int>)
    requires Session.IsSessionId(id) && pid in live
    requires var path := tmpdir + "/" + Session.FileName(Session.LockFile, id);
             path in files && files[path] == Decimal(pid)
    ensures var name := Session.FileName(Session.LockFile, id);
            Qualifies(tmpdir, name, files, live) &&
            InfoOf(tmpdir, name, files, live) ==
              DaemonInfo(pid, tmpdir + "/" + name, id, tmpdir + "/" + Session.FileName(Session.SocketFile, id))
  {
    var name := Session.FileName(Session.LockFile, id);
    ScanDecimal(pid, "");
    assert Decimal(pid) + "" == Decimal(pid);
    assert Qualifies(tmpdir, name, files, live);
    Session.NameRecoversId(Session.LockFile, id);
  }

  lemma FirstAtIndex(tmpdir: string, names: seq<string>, files: Session.Files, live: set<int>, k: nat)
    requires k < |names| && Qualifies(tmpdir, names[k], files, live)
    requires forall j :: 0 <= j < k ==> !Qualifies(tmpdir, names[j], files, live)
    ensures FirstQualifying(tmpdir, names, files, live) == Some(k)
  {
  }
}
