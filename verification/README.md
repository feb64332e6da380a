# smart-cmd core, modelled in Dafny

smart-cmd is an AI command-completion helper for the shell.

In **daemon mode** a background daemon runs the user's shell on a pseudo-terminal (PTY). It keeps:
- the shell's recent output in a bounded capture buffer;
- a history of the commands it was asked about: 50 slots, one-hour lifetime.

The daemon answers requests on a local socket, framed with a 52-byte header. A suggestion request:
1. adds the typed command to the history;
2. builds a context from the PTY tail and the recent commands;
3. asks a language model (OpenAI, OpenRouter or Gemini) for a suggestion;
4. replies with a kind character and a command. '+' completes the input; '=' replaces it.

In **basic mode** the front end gathers context straight from the shell instead: user, host, directory, a few harmless history lines, multiplexer, environment and git branch.

A manager binary starts, stops and finds the daemon through its lock file, and toggles completion on and off.

This project models that core as pure functions over immutable data:
- The file system is a map from path to contents.
- Live processes are a set of pids.
- The clock, socket bytes, PTY read outcomes, directory listings, fork/kill outcomes, which unlinks succeed, the HTTP exchange and the parsed JSON documents are parameters.
- A C string is a `string` with one `char` per octet. A NULL pointer is `None`.
- `Text.CStrOf` is the C view of a buffer that may hold a NUL.

The modules follow the source files:

| module | file | source |
|---|---|---|
| `Text` | text.dfy | shared helpers: bounded prefix, searching, decimal and hex text, fgets chunks |
| `History` | history.dfy | src/daemon_history.c |
| `Ipc` | ipc.dfy | src/ipc.c |
| `Pty` | pty.dfy | src/pty_proxy.c |
| `Session` | session.dfy | src/utils.c |
| `Daemon` | daemon.dfy | src/smart_cmd_daemon.c |
| `DaemonCtl` | daemonctl.dfy | src/daemon.c |
| `Manager` | manager.dfy | src/manager.c |
| `Config` | config.dfy | src/config.c |
| `Keyboard` | keyboard.dfy | src/keyboard.c |
| `Render` | render.dfy | src/ui_renderer.c |
| `BasicContext` | basicctx.dfy | src/basic_context.c |
| `Completion` | completion.dfy | src/completion.c |
| `LlmClient` | llm.dfy | src/llm_client.c |
| `Args` | args.dfy | src/args.c |

Decisions made where the code and its descriptions differ. The model follows the code in each case, except where the last item says otherwise:
- The daemon writes its own lock file with a plain create-and-print (src/smart_cmd_daemon.c:425-429). It does not use the exclusive `create_lock_file_with_pid`, so `Daemon.StartupLock` models the plain write.
- `get_daemon_pty_context` checks only the active flag, not the master descriptor.
- The daemon's `main` does not replace an empty TMPDIR with /tmp, and neither does `get_temp_file_path`. `get_smart_cmd_tmpdir` does replace it.
- Two cases in the manager:
  - Without a settings file, `load_config` returns -1, so `cmd_start` refuses to start the daemon, although the defaults have daemon mode on.
  - In that case the API key from the environment is never read.
- `send_to_llm` never writes "unknown" into the prompt. The session context's arrays are never NULL, so that branch of `build_system_prompt` is dead.
- In `get_user_info`, the host name is looked up only after the password entry was found.
- The system prompt asks for '+' followed by the entire completed command. Yet accepting a '+' suggestion appends it to what was typed, so a completion answered as the prompt asks repeats the typed text. `Render.WholeCommandCompletionRepeatsInput` states this.
- The comment at src/basic_context.c:85 says the last three harmless history lines are kept. The loop reads the whole file from its start and stops after three, so the three oldest harmless lines are kept, and the model follows the loop.
- The daemon loop comes in two builds, chosen by `Daemon.Build`:
  - `AsWritten` is the code as it stands: `add_command_to_history`, recent commands written with the 8192-byte bound, and cleanup after every poll that returns 0.
  - `Corrected` applies the three fixes under Findings: `History.AddFixed`, the recent-commands buffer's real size of 1024, and `PollPtyFixed`.
  - `Daemon.Dispatch`, `Daemon.Serve` and `Daemon.Step` take the build as a parameter. `Daemon.DispatchHistoryDiffers` and `Daemon.QuietTickEndsShell` show where the two builds part ways.
- The manager finds lock files with `glob`, which returns them sorted. The daemon's own search uses `readdir`, which returns them in directory order. `Manager.GlobOf` ties the two listings by their contents only.

## Model

| member | source | states |
|---|---|---|
| History.EmptyStore | src/daemon_history.c:16 | the zeroed manager is a valid store with no entries in use |
| History.NewestFirst | src/daemon_history.c:99-100 | retrieval walks exactly `count` entries, from the slot before `current_index` backwards |
| History.OldestFirst | src/daemon_history.c:134-135 | the file lists exactly `count` entries, starting `count` slots before `current_index` |
| History.SaveOrderReversesRetrieval | src/daemon_history.c:134-135 | the file order is exactly the reverse of the retrieval order |
| History.Fresh | src/daemon_history.c:52-57 | the survivors of expiry are in their original order, and none is older than the cutoff |
| History.FreshMembers | src/daemon_history.c:52-57 | an entry survives expiry exactly when it was there and is not older than the cutoff |
| History.CompactInPlace | src/daemon_history.c:55-66 | the in-place loop shifts survivors of slots [0,count) down in order, drops count by the number removed, leaves the higher slots and does not touch current_index |
| History.Add | src/daemon_history.c:44-86 | an empty command or one of 4096+ characters returns -1 and changes nothing; any other command returns 0 and keeps the store valid |
| History.ExpireAllFresh | src/daemon_history.c:52-66 | expiry changes nothing when every entry in use is within the hour |
| History.AddRepeatIsSuppressed | src/daemon_history.c:69-73 | on a consistent, fresh ring, adding the same command twice leaves the store as the first add left it |
| History.RetrievalSeesInsert | src/daemon_history.c:76-83 | a command the add inserts is the first thing retrieval returns |
| History.GetRecent | src/daemon_history.c:88-122 | -1 for a non-positive count; otherwise the number taken is the newest-first selection of at most `n` non-empty entries not older than the cutoff (cutoff 0 for max_age ≤ 0), and the text is that selection joined by ", ", cut where the buffer ends |
| History.AddAsWrittenDuplicatesAfterExpiry | src/daemon_history.c:56-83 | the counterexample: after expiry the ring as written reads "c","c","d", while the chronological list is "b","c","d" |
| History.ExpireFixed | src/daemon_history.c:52-66 | corrected expiry keeps the store valid |
| History.AddFixed | src/daemon_history.c:44-86 | the corrected add has the same rejection rule and keeps the store valid |
| History.AddFixedChronology | src/daemon_history.c:44-86 | the corrected add keeps a chronological list: expired entries go; a repeat of the newest survivor is skipped; otherwise the command is appended and the oldest falls out beyond 50 |
| History.AddFixedNewest | src/daemon_history.c:76-78 | after the corrected add, the newest entry is the command, written within the last hour |
| History.RetrievalSeesAddFixed | src/daemon_history.c:99-118 | right after the corrected add, retrieval over at least an hour returns the command first |
| History.AddFixedRepeatIsSuppressed | src/daemon_history.c:69-73 | with the corrected add, a repeat at the same instant leaves the history as it was, on every store |
| History.AddFixedCounterexample | src/daemon_history.c:56-83 | on the counterexample store, the corrected add gives "b","c","d" |
| History.Save | src/daemon_history.c:124-142 | nothing is written exactly when the store is empty |
| History.LoadWith | src/daemon_history.c:144-183 | a missing file returns 0 and leaves the store; an unparsable header returns -1 and leaves it; otherwise the code equals count and current_index, none of the entries is older than an hour, and the entries are, in file order, the first min(header,50) fresh entries the file's lines parse to |
| History.LoadEntriesTakesFresh | src/daemon_history.c:165-178 | the load loop keeps, in file order, the first `room` fresh entries among those the lines parse to |
| History.Load | src/daemon_history.c:170 | the load as written, with the backslash-and-'n' scanset, keeps the store valid |
| History.LoadFixed | src/daemon_history.c:170 | the load with the scanset stopping at a newline keeps the store valid |
| History.LoadFixedRestoresSave | src/daemon_history.c:124-183 | round trip: loading what save wrote gives back the same entries in the same order, with the code equal to their count |
| History.LoadKeepsNewline | src/daemon_history.c:170-176 | as written, a command without '\\' or 'n' comes back with a newline appended |
| History.LoadDropsLeadingN | src/daemon_history.c:170-176 | as written, a command that starts with 'n' is not loaded at all |
| Ipc.ValidateMessage | src/ipc.c:37-59 | 0 exactly for a non-NULL message that is non-empty, at most 4044 bytes, free of control characters other than tab and newline, and free of "..", "~" and "$(" |
| Ipc.EncodeU32 | src/ipc.c:143-182 | a 32-bit field is four octets |
| Ipc.DecodeEncodeU32 | src/ipc.c:184-236 | decoding a field's four bytes in the same byte order gives the value back |
| Ipc.EncodeHeader | src/ipc.c:24-32 | a header is 52 bytes |
| Ipc.DecodeEncodeHeader | src/ipc.c:184-236 | decoding an encoded header gives the header back |
| Ipc.Send | src/ipc.c:143-182 | -1 and nothing written for a bad descriptor or an invalid message; otherwise 0, a header and then exactly the payload |
| Ipc.Receive | src/ipc.c:184-236 | a bad descriptor or a buffer too small for a header and a byte gives -1 and reads nothing; end of stream before the header gives 0; a short header gives -1; a positive code means the header has the magic and version, announces that length, and the text is the C view of the payload that followed it; a non-positive code leaves no text; only bytes from the front of the stream are consumed |
| Ipc.HeaderErrorsRejected | src/ipc.c:201-224 | a wrong magic or version, a length over 4044 and a length the buffer cannot hold are each refused with -1 before the payload is read; a payload cut short gives -1, or 0 when nothing followed the header |
| Ipc.SendReceiveRoundTrip | src/ipc.c:143-236 | round trip: for any valid message, receive after send returns its length and the same bytes, and leaves what follows unread |
| Ipc.BadMagicRejected | src/ipc.c:201-205 | a frame with the wrong magic is refused after the header, before its payload is read |
| Ipc.EmbeddedNulKeepsAnnouncedLength | src/ipc.c:217-235 | a payload with a NUL inside is validated by the part before the NUL, and the code is still the announced length |
| Ipc.Accept | src/ipc.c:105-141 | 0 when no client is waiting; -1 for a peer of another uid; the client's descriptor otherwise |
| Ipc.Ping | src/ipc.c:297-322 | ping succeeds only over a made connection |
| Ipc.PingIsValid | src/ipc.c:297-322 | "ping" and "pong" pass validation |
| Ipc.PingAgainstDaemon | src/ipc.c:297-322 | ping succeeds exactly when the answer frame carries "pong" |
| Pty.Setup | src/pty_proxy.c:6-71 | success exactly with a session id and a forked child; the session is then active with an empty buffer, and the master and the child recorded |
| Pty.Cleanup | src/pty_proxy.c:73-97 | inactive, both descriptors -1, buffer kept; a recorded child is signalled and forgotten |
| Pty.CleanupIdempotent | src/pty_proxy.c:73-97 | a second cleanup changes nothing and signals no one |
| Pty.Read | src/pty_proxy.c:99-143 | -1 unless active with a master; no output or a failed read gives 0 and changes nothing; end of stream gives 0 and deactivates; after data the code is the number of bytes returned, which are the first min(pending, size-1) pending bytes; the buffer is the old buffer plus the copied bytes, less its oldest half of the capacity when that is exceeded; no read activates a session |
| Pty.ContextAfterReadIsWholeBuffer | src/pty_proxy.c:152-171 | after a read with data, the context asked for with the capacity is the whole capture buffer |
| Pty.LargeReadCompacts | src/pty_proxy.c:118-132 | a read that takes the buffer past half the capacity drops exactly the oldest cap/2 bytes of what was captured |
| Pty.SmallReadAppends | src/pty_proxy.c:118-124 | a read that fits in half the buffer is appended whole and its length returned |
| Pty.EndOfStreamDeactivates | src/pty_proxy.c:135-139 | end of stream returns 0, marks the session inactive and leaves the buffer |
| Pty.Write | src/pty_proxy.c:145-150 | -1 unless active with a master, otherwise what write returned |
| Pty.Context | src/pty_proxy.c:152-170 | -1 when inactive; otherwise the last min(buffer length, size/2) bytes, never more than size-1, with that count returned |
| Pty.ContextSeesLatestRead | src/pty_proxy.c:99-170 | the bytes of a read that fits show up at the end of the next context, when the context asks for at least twice their length |
| Session.Tmpdir | src/utils.c:16-26 | the answer is never empty and is what the cache holds; once cached it is returned as is |
| Session.TmpdirIsFixed | src/utils.c:16-26 | once answered, the directory no longer follows TMPDIR |
| Session.TmpdirChoice | src/utils.c:16-26 | a set, non-empty TMPDIR that fits is used; an unset or empty one gives /tmp |
| Session.NewSessionId | src/utils.c:28-40 | an id exactly when the buffer holds 17 bytes and the clock answered; the id is 16 lower-case hex digits |
| Session.SessionIdDenotesHash | src/utils.c:28-40 | read back as hexadecimal, the id is seconds xor nanoseconds xor pid in 64 bits, with nothing lost |
| Session.SessionPath | src/utils.c:53-103 | the path is a prefix of "<tmpdir>/smart-cmd.<lock, socket or log>.<id>" of at most size-1 bytes, and the whole path when it fits |
| Session.TempFilePath | src/utils.c:105-113 | the path is a prefix of "<tmpdir>/smart-cmd.<prefix>.<id>" of at most size-1 bytes |
| Session.SuffixAfterDot | src/smart_cmd_daemon.c:75 | none exactly when the name has no '.'; otherwise the dot-free text after the last '.' |
| Session.NameRecoversId | src/smart_cmd_daemon.c:74-80 | reading the id back from a session file name gives the id written into it |
| Session.SafeCopy | src/utils.c:218-226 | -1 for size 0; otherwise the first size-1 characters of the source |
| Session.SafeAppend | src/utils.c:228-237 | -1 when the buffer is already full; otherwise the old text followed by as much of the source as fits; a size of 0 wraps and appends without bound |
| Session.CopyThenAppend | src/utils.c:218-237 | copy then append leaves exactly what fits of the concatenation |
| Session.CompareN | src/utils.c:239-244 | the sign of strncmp on C strings |
| Session.StartsWithIsPrefix | src/utils.c:239-244 | starts_with is true exactly when the prefix is a prefix of the string, and false for NULL |
| Session.ConcatRemaining | src/utils.c:258-278 | NULL exactly when no argument is left; otherwise the arguments joined by single spaces, filling the allocation exactly |
| Session.ConcatSplits | src/args.c:5-25 | round trip: splitting the joined text at spaces gives the arguments back when none has a space |
| Session.StoredPidOfLock | src/utils.c:195-206 | the pid written into a lock file reads back |
| Session.CreateLock | src/utils.c:160-207 | success exactly when the directory is ready, no live owner holds the lock, and create and write succeed; a live owner's lock is refused and untouched; success writes the pid |
| Session.LockExcludes | src/utils.c:160-207 | while the owner lives, nobody else gets the lock, and it stays as written |
| Session.StaleLockReclaimed | src/utils.c:180-191 | a lock left by a dead process is taken over |
| Session.CleanupLock | src/utils.c:213-216 | 0 exactly when the lock existed; it is gone afterwards |
| Session.LockThenCleanup | src/utils.c:160-216 | taking and then releasing a lock leaves the rest of the file system as it was |
| Daemon.PtyTail | src/smart_cmd_daemon.c:209-211 | nothing from an inactive PTY; otherwise a NUL-free prefix of the last half-context of the capture buffer |
| Daemon.SuggestionContext | src/smart_cmd_daemon.c:206-223 | the PTY tail, followed by the header and the recent commands exactly when any exist, shorter than the terminal buffer; a prefix of that text, and all of it when it fits; in the corrected build it always fits |
| Daemon.Dispatch | src/smart_cmd_daemon.c:194-251 | "ping" gets "pong"; a suggestion request adds its input to the history (with `add_command_to_history` as written, with the corrected insertion otherwise) and then calls the generator with the input and the context, answering with the kind and text or the matching error; "context" gets at most 4000 bytes of the tail or the no-PTY error; anything else gets "error:Unknown request" |
| Daemon.DispatchHistoryDiffers | src/smart_cmd_daemon.c:203 | with entries a (at 0), b and c (at 4000), "suggestion:d" at 4000 leaves c, c, d as written and b, c, d corrected |
| Daemon.InputLeadsRecentCommands | src/smart_cmd_daemon.c:203-223 | in the corrected build, the input reaches the generator twice: as input and as the newest recent command in its context |
| Daemon.RecentTextOverrunsBuffer | src/smart_cmd_daemon.c:218-219 | as written, a newest recent command of 1024+ characters yields 1024+ bytes for a 1024-byte buffer |
| Daemon.LongInputOverrunsRecentBuffer | src/smart_cmd_daemon.c:197-219 | as written, such a command arrives in an ordinary suggestion request of 1024 to 4033 characters that does not repeat the newest command: `add_command_to_history` makes it the newest recent command, and the recent text written for the same call is 1024 bytes or more |
| Daemon.RecentTextFitsBuffer | src/smart_cmd_daemon.c:218-219 | with the buffer's real size, the recent commands always fit |
| Daemon.Serve | src/smart_cmd_daemon.c:184-263 | a request is dispatched exactly when the receive returned a positive length; what is sent back is a valid payload |
| Daemon.PingIsAnswered | src/smart_cmd_daemon.c:195-196 | a client's ping frame gets a frame that ping_daemon accepts, and the history is unchanged |
| Daemon.UnsafeSuggestionIsDropped | src/smart_cmd_daemon.c:257-262 | a suggestion containing ".." gets no reply at all |
| Daemon.PollPty | src/smart_cmd_daemon.c:274-290 | as written, any poll of an active session that returns 0 tears it down |
| Daemon.PollPtyFixed | src/smart_cmd_daemon.c:274-290 | corrected: an idle poll changes nothing; end of stream tears down and signals the child; a live session keeps its master |
| Daemon.IdlePollTearsDown | src/smart_cmd_daemon.c:284-289 | the counterexample: a live shell that is quiet for 10 ms loses its session and is signalled; the corrected step keeps it |
| Daemon.EndOfStreamEndsSession | src/pty_proxy.c:135-139 | both steps end the session at end of stream, identically |
| Daemon.OutputKeepsSession | src/smart_cmd_daemon.c:275-283 | output keeps the session in the corrected step and lands in the capture buffer |
| Daemon.Step | src/smart_cmd_daemon.c:176-294 | a client is served only for a positive accept result; the PTY is then polled once, with `PollPty` as written and `PollPtyFixed` corrected |
| Daemon.QuietTickIsIdle | src/smart_cmd_daemon.c:176-294 | with no client and no output, an iteration of the corrected loop changes nothing |
| Daemon.QuietTickEndsShell | src/smart_cmd_daemon.c:274-290 | the loop as written, on the same quiet iteration, ends a live shell's session and signals its process, leaving the history alone |
| Daemon.InfoOf | src/smart_cmd_daemon.c:71-87 | the lock path and a live pid; the id is the dot-free text after the name's last '.', possibly empty; the socket path is made from the id, or from the pid in decimal when the id is empty |
| Daemon.FirstQualifying | src/smart_cmd_daemon.c:60-97 | the first entry, in directory order, that names a lock with a live pid, and none before it qualifies |
| Daemon.FindDaemonInfo | src/smart_cmd_daemon.c:50-101 | found exactly when the directory opens and some entry qualifies; the pid is live and the lock exists |
| Daemon.StartupLock | src/smart_cmd_daemon.c:425-429 | the lock holds the pid in decimal |
| Daemon.StartedDaemonIsFound | src/smart_cmd_daemon.c:359-429 | a started daemon that is still alive is found again with the same pid, session id and socket |
| DaemonCtl.CheckDaemonRunning | src/daemon.c:56-70 | 1 exactly when the lock opens, a pid parses and that process is alive |
| DaemonCtl.RunningMeansRefused | src/daemon.c:56-70 | a lock reported running is refused by an ordinary lock attempt; one not reported running is no obstacle |
| DaemonCtl.CreateLockForce | src/daemon.c:72-79 | NULL is refused; otherwise success depends only on the file system, never on an owner |
| DaemonCtl.ForceOverridesLiveOwner | src/daemon.c:72-79 | the forced lock succeeds over a live owner that the ordinary lock refuses |
| DaemonCtl.CheckSafeEnvironment | src/daemon.c:85-113 | -1 exactly when nested or setuid; otherwise the warnings are exactly tmux and a descriptor limit under 256 |
| DaemonCtl.WarningsDoNotRefuse | src/daemon.c:85-113 | the warnings never change the verdict: setting or removing TMUX and any descriptor limit leave the exit code as it was, and without the nesting marker and with matching ids the check passes |
| DaemonCtl.StopDaemonProcess | src/daemon.c:232-255 | a NULL or inactive record is refused; success exactly when kill and wait succeed, which removes the lock and socket and clears the active flag |
| DaemonCtl.StopIsFinal | src/daemon.c:232-255 | a stopped daemon cannot be stopped again |
| DaemonCtl.DaemonIsActive | src/daemon.c:257-268 | 1 exactly for an active record with a live pid; a dead one is marked inactive |
| DaemonCtl.DeadStaysInactive | src/daemon.c:257-268 | a record found dead stays inactive even if its pid is reused later |
| DaemonCtl.StaleTargets | src/daemon.c:270-306 | every path the sweep tries to unlink has a modification time before the cutoff |
| DaemonCtl.CleanupOldSessions | src/daemon.c:270-306 | -1 for NULL, 0 for a missing directory; otherwise it removes exactly the stale "smart-cmd." entries whose unlink succeeds and returns their number; a stale entry whose unlink fails stays and is not counted |
| DaemonCtl.SweepSparesOthers | src/daemon.c:283-286 | files that are not session files are never touched |
| DaemonCtl.StaleTargetsFrom | src/daemon.c:283-296 | every removed path belongs to a listed "smart-cmd." entry |
| DaemonCtl.SecureTempFile | src/daemon.c:37-50 | a name exactly when a session id could be made, within the buffer |
| DaemonCtl.SecureTempFileName | src/daemon.c:37-50 | with room, the name is "<tmpdir>/smart-cmd.<prefix>.<id>.<pid>" in full |
| Manager.SessionOf | src/manager.c:26-45 | active, with a live pid and the lock's path; the id is the dot-free text after the name's last '.', and the socket is made from it |
| Manager.FindRunningDaemon | src/manager.c:6-52 | found exactly when some match has a live pid; the record is active and its lock exists |
| Manager.SessionMatchesInfo | src/manager.c:26-45 | for one lock file, the manager and the daemon name the same pid, lock and id; the socket paths agree exactly when the id is not empty |
| Manager.ManagerAgreesWithDaemon | src/manager.c:6-52 | over glob's matches and readdir's entries with the same lock files, and at most one live lock, both find a daemon or neither does, with the same pid, lock and id |
| Manager.OrderDecidesBetweenLocks | src/manager.c:13-21 | with two live locks of different pids, listed by glob in one order and by readdir in the other, the manager and the daemon pick different daemons |
| Manager.StartedDaemonIsFound | src/manager.c:6-52 | a started, living daemon is found with its session id and socket |
| Manager.Toggle | src/manager.c:58-83 | an absent file means enabled; a parsed n means enabled exactly when n is 0; unparsable means enabled; the new state is written as "1" or "0" |
| Manager.CmdToggle | src/manager.c:54-87 | -1 exactly when no state path can be made, and then nothing changes |
| Manager.ToggleNeverDisables | src/manager.c:54-87 | as written, two toggles look at different files, so both report enabled |
| Manager.CmdToggleFixed | src/manager.c:54-87 | with a fixed state path, the toggle always reports, and the file exists afterwards |
| Manager.ToggleTwiceAlternates | src/manager.c:54-87 | with a fixed state path, the second toggle reports the opposite of the first |
| Manager.CmdStop | src/manager.c:166-183 | 0 when nothing runs; 1 exactly when the kill fails; otherwise the lock and the socket are removed |
| Manager.StopForgetsDaemon | src/manager.c:166-183 | after a stop the same search no longer settles on the stopped daemon's lock |
| Manager.CmdStart | src/manager.c:113-164 | 1 without forking when the settings fail or daemon mode is off, or the binary is unusable; 0 without forking when a daemon runs; after a fork, 0 exactly when the daemon is then found |
| Manager.NoSettingsNoStart | src/manager.c:115-118 | without a settings file start is refused, though the defaults have daemon mode on |
| Manager.StartIsIdempotent | src/manager.c:132-137 | starting while a daemon runs forks nothing and succeeds |
| Config.ParseKeybinding | src/config.c:17-51 | NULL gives 15; a negative code is a function key from -101 to -112, named "f" plus one or two characters; every other code is a byte |
| Config.CtrlLetterBinds | src/config.c:21-26 | "ctrl+x" and "ctrl+X" both give the letter's control code |
| Config.FunctionKeyBinds | src/config.c:29-35 | "f1" to "f12" each give -(100+n), and the code gives n back |
| Config.DefaultBindingIsCtrlO | src/config.c:61-62 | the default value is the one "ctrl+o" names |
| Config.Defaults | src/config.c:57-64 | the default trigger value agrees with the default key name |
| Config.EnvApiKey | src/config.c:148-160 | an environment key is used only when non-empty |
| Config.LoadConfig | src/config.c:53-184 | 0 exactly for a parsed file; otherwise -1 with the defaults; the provider is the selected one; every field fits its buffer; the trigger value is parsed from the file's key or is the default |
| Config.Highest | src/config.c:108-160 | the highest present layer wins, and the fallback applies when none is present |
| Config.OverrideTwice | src/config.c:108-145 | two overwrites keep the later present layer |
| Config.LoadConfigPrecedence | src/config.c:108-160 | model and endpoint: "llm" beats the provider section, which beats the default; API key: a non-empty environment key beats "llm" |
| Config.NoFileIgnoresEnvironment | src/config.c:70-72 | with no file the key stays empty whatever the environment holds |
| Config.OtherProvidersKeyIgnored | src/config.c:148-160 | a key exported for another provider is not used |
| Config.GetTempFilePath | src/config.c:210-224 | a path exactly when an id could be made: "<tmp>/smart-cmd.<prefix>." followed by a fresh 16-digit id |
| Config.TempPathAgreesWithGenerator | src/config.c:210-224 | the path is generate_temp_file_path's for the same id, uncut |
| Config.FreshPathsDiffer | src/config.c:210-224 | two calls with different session hashes name different files |
| Keyboard.ReadKeySequence | src/keyboard.c:6-13 | the bytes read are the first min(waiting, max) bytes of standard input |
| Keyboard.KeySequence | src/keyboard.c:18-29 | F1-F4 are two bytes starting 'O'; F5-F12 are four bytes "[..~" |
| Keyboard.IsFunctionKeyMatch | src/keyboard.c:15-36 | as written, a match exactly for F1-F4 with 'O' and 'P'+n-1; nothing else matches |
| Keyboard.HighFunctionKeysNeverMatch | src/keyboard.c:27-33 | F5-F12 never match, not even on their own key |
| Keyboard.FixedMatchesExactlyItsKey | src/keyboard.c:15-36 | corrected: each key's own sequence selects that key and no other |
| Keyboard.KeySequencesDistinct | src/keyboard.c:18-29 | no key's sequence starts another's |
| Keyboard.CheckTrigger | src/keyboard.c:38-55 | a positive binding compares the signed first byte and reads nothing; 0 never fires; bytes are consumed only for a function key after ESC |
| Keyboard.HighByteBindingNeverFires | src/keyboard.c:40-42 | as written, a binding to a byte of 128 or more never fires |
| Keyboard.CheckTriggerFixed | src/keyboard.c:38-55 | corrected: a positive binding compares the unsigned byte |
| Keyboard.BoundKeysFire | src/keyboard.c:38-55 | corrected: ctrl+letter, f1-f12 and single bytes each fire on their own key |
| Keyboard.HandleEscape | src/keyboard.c:57-75 | 2 exactly when the sequence starts "[C", otherwise -1 |
| Render.Shown | src/ui_renderer.c:51-62 | the shown text is a prefix of the suggestion that fits the columns left, and the whole suggestion when it fits |
| Render.GreyPart | src/ui_renderer.c:43-66 | nothing is drawn exactly when two columns or fewer remain; otherwise the grey code, the kind, a prefix of the suggestion that fits the remaining columns with the kind (the whole suggestion when it fits), then the reset code |
| Render.RenderSuggestion | src/ui_renderer.c:26-70 | -1 exactly for a NULL argument; an invisible or empty suggestion only clears the line; otherwise save, clear, prompt, input, grey part, restore |
| Render.RenderedLineFitsWidth | src/ui_renderer.c:43-62 | the drawn line never runs past the width, and a suggestion that fits is shown whole |
| Render.AcceptSuggestion | src/ui_renderer.c:111-141 | -1 exactly for NULL or invisible, with the input unchanged; '+' appends exactly when the result stays under 4095; '=' replaces with at most 4095 bytes; other kinds leave the input |
| Render.AcceptanceEffects | src/ui_renderer.c:114-138 | accepting a replacement twice equals accepting it once; an append that fits leaves the input followed by the suggestion |
| Render.AnsweredSuggestionAccepted | src/ui_renderer.c:111-141 | an answer "=cmd" replaces the input with cmd; "+rest" appends rest |
| Render.WholeCommandCompletionRepeatsInput | src/ui_renderer.c:114-127 | a completion answered as the system prompt asks ('+' and the entire command) repeats the typed text |
| BasicContext.IsSensitive | src/basic_context.c:46-66 | NULL and the empty command are never sensitive |
| BasicContext.SensitiveIgnoresCase | src/basic_context.c:53-56 | a command and its lower-case form are judged alike |
| BasicContext.SensitiveStaysSensitive | src/basic_context.c:58-63 | typing more after a sensitive command keeps it sensitive |
| BasicContext.SudoIsSensitive | src/basic_context.c:37-44 | any command that starts with "sudo" is kept out |
| BasicContext.StripNewline | src/basic_context.c:87 | the line is cut at its first newline |
| BasicContext.UsableLines | src/basic_context.c:89 | every line kept is non-empty and not sensitive |
| BasicContext.SelectHistory | src/basic_context.c:80-93 | the first three usable lines of the file, in file order |
| BasicContext.NewestFirstPieces | src/basic_context.c:101-110 | the selected lines in reverse order, each leading its piece |
| BasicContext.AppendAllIsPrefix | src/basic_context.c:103-108 | one bounded snprintf at a time leaves exactly one cut of the concatenation |
| BasicContext.CollectContext | src/basic_context.c:194-214 | the terminal buffer is the pieces in order (history, multiplexer, environment, git) cut once; last_command is the newest kept line; the user and host come from the password entry, "localhost" and "/unknown" as fallbacks |
| BasicContext.TerminalBuffer | src/basic_context.c:101-192 | the buffer is the pieces cut once to its size |
| BasicContext.LineFits | src/basic_context.c:81-98 | selected lines fit last_command whole |
| BasicContext.NewestLineLeadsBuffer | src/basic_context.c:96-110 | the buffer opens with the header and the newest selected line, the same line last_command holds |
| Completion.Defaults | src/completion.c:34-42 | empty input and branch, not dirty; the cwd when it fits, no user without a password entry |
| Completion.CharFrom | src/completion.c:52-56 | strchr: the first occurrence of the character from the start index |
| Completion.ExtractField | src/completion.c:50-62 | as written: a value has no quote; the buffer is cut at a quote |
| Completion.ExtractFieldFixed | src/completion.c:50-62 | corrected: a value has no quote |
| Completion.AsWrittenReadsColon | src/completion.c:50-62 | as written, a key followed by a quoted value reads ":" and cuts the buffer before the value |
| Completion.FixedReadsValue | src/completion.c:50-62 | corrected, the same key reads the quoted value |
| Completion.ParseContextJson | src/completion.c:31-105 | NULL gives the defaults; the fields fit; the user and host are always the local ones |
| Completion.ParseContextJsonFixed | src/completion.c:31-105 | the same guarantees for the corrected parser |
| Completion.CutHidesLaterKey | src/completion.c:58-80 | a key occurring only after the command-line key is not in the cut buffer |
| Completion.CommandLineFirstHidesTheRest | src/completion.c:50-99 | as written, a line whose command_line field comes first reads ":" and loses the cwd and git fields after it |
| Completion.FixedReadsCommand | src/completion.c:50-62 | corrected, the command is read in full |
| Completion.FixedReadsCwdAnywhere | src/completion.c:65-77 | corrected, the cwd is read wherever it stands |
| Completion.GetMultipleSuggestions | src/completion.c:107-124 | -1 exactly for a NULL argument or max ≤ 0; otherwise 0 or 1, and 1 exactly when the one request succeeded |
| Completion.ParseCompletionContext | src/completion.c:216-235 | -1 exactly for NULL or non-JSON, with the context unchanged; each present member's field becomes its C string cut to the field's size less one, as `strncpy` with that count leaves it; each absent member's field keeps its value |
| Completion.ContextMembersTakenWhole | src/completion.c:223-231 | members that fit are taken whole |
| Completion.FormatCompletionOutput | src/completion.c:237-252 | one element within 1026 bytes, starting with the kind |
| Completion.OutputRoundTrip | src/completion.c:237-252 | round trip: for every NUL- and newline-free suggestion of up to 1023 bytes, the longest a reply can give, reading the element back as a reply gives the suggestion it came from |
| LlmClient.WriteThreeIsOneCut | src/llm_client.c:38-62 | three snprintf calls guarded by the running total leave one cut of the three strings |
| LlmClient.BuildSystemPrompt | src/llm_client.c:38-62 | the prompt is the full prompt cut once to the buffer |
| LlmClient.PromptSections | src/llm_client.c:39-61 | "unknown" stands for a missing user; the history section follows the head exactly when the terminal buffer is non-empty; the rules close the prompt |
| LlmClient.Url | src/llm_client.c:296-302 | Gemini: a prefix of endpoint + model + ":generateContent"; others: a prefix of the endpoint; always under 512 bytes |
| LlmClient.UrlOfLoadedSettings | src/llm_client.c:296-302 | with loaded settings nothing is cut, and the model can be read back off the Gemini URL |
| LlmClient.AuthHeader | src/llm_client.c:243-255 | a header exactly for a non-empty key, under 512 bytes |
| LlmClient.AuthHeaderCarriesKey | src/llm_client.c:245-255 | the key is carried whole after "x-goog-api-key: " for Gemini, else after "Authorization: Bearer " |
| LlmClient.Headers | src/llm_client.c:243-255 | the content type always comes first, and a second header exactly for a non-empty key |
| LlmClient.RequestBody | src/llm_client.c:103-175 | a Gemini body exactly for Gemini, whose text is the prompt cut to 4095 bytes, then "\n\nUser input: " and the input, all cut to 8191 bytes; a chat body carries the model, the input, 100 tokens and the prompt cut to 4095 bytes |
| LlmClient.GeminiKeepsShortInput | src/llm_client.c:109-110 | any input up to 4082 bytes reaches Gemini whole, at the end of the prompt |
| LlmClient.SuggestionOf | src/llm_client.c:222-233 | a suggestion exactly for non-empty text: the kind is the first character; the text is a newline-free prefix of the rest, under 1024 bytes; visible |
| LlmClient.SuggestionLineRoundTrip | src/llm_client.c:222-233 | round trip: "<kind><command>" with a newline-free command of up to 1023 bytes, alone or followed by more lines, gives back that kind and command |
| LlmClient.ParseLlmResponse | src/llm_client.c:178-234 | 0 exactly when the provider's text member is present and non-empty, and the suggestion is then made from it; on -1 the prior suggestion is untouched |
| LlmClient.SendToLlm | src/llm_client.c:274-320 | -1 with nothing built for a NULL argument or a provider other than openai, openrouter or gemini; otherwise the request carries the URL, the headers and the body built for the input and context, a failure leaves the suggestion cleared, and an answer is parsed |
| LlmClient.AnswerBecomesSuggestion | src/llm_client.c:274-320 | end to end: an answer "<kind><command>" yields that suggestion for every supported provider |
| Args.ScanFlags | src/args.c:33-40 | without value options, each switch is set exactly when some argument names it |
| Args.ScanPositionals | src/args.c:49-55 | without value options, the command is the first positional argument and the input the second |
| Args.ParseCommandArgs | src/args.c:27-59 | -1 exactly for NULL, with the structure zeroed; otherwise, for any arguments, each switch is set exactly when named, the command is the first positional, the input is the last -i value or else the second positional, and the context is the last -x value; without value options, the input is the second positional and the context unset |
| Args.StepIsToken | src/args.c:33-55 | one pass of the loop body applies the token at the current argument and continues after what it consumed |
| Args.ScanIsApply | src/args.c:32-56 | the loop applies the arguments' tokens in order |
| Args.MeaningSnoc | src/args.c:33-55 | the meaning of one more token is that token applied to the meaning of those before it |
| Args.ApplyMeaning | src/args.c:30-56 | applying the tokens to the zeroed structure gives their meaning |
| Args.InputOptionWins | src/args.c:41-55 | an -i after two positionals replaces the input the second one set; after an -i, the second positional is dropped |
| Args.ValueOptionsConsume | src/args.c:41-48 | a value option takes the next argument whatever it is; with nothing after it, it is ignored |

## Left out

- Process plumbing is not modelled:
  - forking, exec and daemonization (`start_daemon_process`, the child side of `setup_daemon_pty`);
  - signal handlers;
  - the `main` functions of the three binaries;
  - `init_command_history` and `cleanup_command_history`, which only wrap load and save;
  - `create_ipc_socket`, `connect_to_daemon`, `send_daemon_request` and `cleanup_ipc_socket`, which are socket system calls;
  - `safe_write_file`, `safe_read_file` and `create_directory_if_not_exists`.
  These are system calls. Their outcomes enter the model as parameters.
- Output-only commands print and decide nothing, so they are left out: `cmd_status`, `cmd_mode`, `show_config`, `print_usage`, `print_version`, `show_completion_indicator`, `display_help`, `display_error`, `run_basic_tests`.
- `run_completion_mode` is a chain of the modelled steps and has no logic of its own.
- The HTTP transfer and JSON parsing are parameters, not code:
  - curl is represented by `LlmClient.Exchange`;
  - json-c documents are represented by their extracted members (`Config.Document`, `LlmClient.Reply`, `Completion.ContextDoc`).
- The request temperature is a floating-point constant and is not modelled.
- The terminal width is a parameter, because `get_terminal_width` is an ioctl.
- get_default_bin_path is not part of this model. The daemon binary's path is a parameter of `Manager.CmdStart`.
- The session context struct's header is out of date. Its buffer sizes are taken from how the C files use them.
- Limits that are not enforced in the model:
  - the MAX_PATH-sized path buffers in `find_daemon_info` and `find_running_daemon` are not applied, so session ids and paths are not cut there;
  - `cleanup_old_sessions` computes `max_age_hours * 3600` in int, and its overflow is not modelled;
  - directories among the swept entries are treated like files.
- Failure cases that are not modelled:
  - strdup and malloc failures;
  - the int overflow of `fscanf("%d")`;
  - an unterminated strncpy, whose last byte is taken to be NUL.
- Completion.GetMultipleSuggestions: passing the completion context to `send_to_llm` through a pointer cast reads a different struct. The model leaves that reading out and takes the request's outcome as the parameter `sendCode`.
- Completion.Defaults: a `gethostname` that does not fit is modelled as a cut.
- Ipc.Send: a `send` that fails or writes only part of the header or the payload makes the send return -1. The modelled socket accepts every byte, so the model never takes that path.
- History.Save: a history file that cannot be opened for writing makes the save return -1. The modelled file system always opens it, so that path is not modelled.
- History.LoadWith: the scanset `%[^\n]` has no field width, and the command buffer holds 4096 bytes. A run of more than 4095 bytes, possible within a 4160-byte line, overflows that buffer. The model cuts the run to 4095 bytes instead, as the `snprintf` that follows would.
- Daemon.SuggestionContext: as written, recent commands of 1024 bytes or more run past the daemon's 1024-byte buffer. The model reads back all of the text written, as if nothing else used that memory.
- Manager.CmdToggle: its contract states only the error case. What it writes is stated through `Manager.Toggle` and the lemma `Manager.ToggleNeverDisables`.

## Findings

| source | as written | input that shows it | evidently intended | confidence | as-written member | corrected member |
|---|---|---|---|---|---|---|
| src/daemon_history.c:170 | the scanset `%[^\\n]` stops at a backslash or the letter 'n' | a saved line "100 ls\n" loads as "ls\n"; "100 nano x\n" is not loaded | the command runs up to the newline | high, not executed | History.LoadDropsLeadingN | History.LoadFixedRestoresSave |
| src/daemon_history.c:56-83 | expiry shifts survivors down but leaves `current_index` in place | slots "a"@0, "b"@4000, "c"@4000, then add "d" at 4000, when "a" is over an hour old: the ring reads "c","c","d" | the history stays chronological: "b","c","d" | high, not executed | History.AddAsWrittenDuplicatesAfterExpiry | History.AddFixedChronology |
| src/smart_cmd_daemon.c:284-289 | any PTY poll returning 0 cleans up the PTY, and a 10 ms poll with no output returns 0 | a shell that prints nothing for 10 ms | only end of stream or an error ends the session | high, not executed | Daemon.IdlePollTearsDown | Daemon.PollPtyFixed |
| src/smart_cmd_daemon.c:218-219 | `get_recent_commands` bounds its writes by 8192 while the buffer holds 1024 | a suggestion request whose input is 1024 characters | the writes are bounded by the buffer's 1024 bytes | high, not executed | Daemon.LongInputOverrunsRecentBuffer | Daemon.RecentTextFitsBuffer |
| src/keyboard.c:27-33 | the F5-F12 branch needs the third byte to be '~' and also the code's second digit | "f5" bound, keys "[15~" pressed: no match | F5-F12 match their own sequences | high, not executed | Keyboard.HighFunctionKeysNeverMatch | Keyboard.FixedMatchesExactlyItsKey |
| src/keyboard.c:40-42 | the byte arrives as a signed `char` and is compared with an unsigned binding value | binding "é" (byte 0xE9) compared with -23 | bytes compare as unsigned | medium (depends on `char` being signed), not executed | Keyboard.HighByteBindingNeverFires | Keyboard.BoundKeysFire |
| src/completion.c:50-62 | the extractor skips to the quote closing the key's name and reads from there | `{"command_line":"git st"}` gives ":" and cuts the copy, hiding "cwd" and "git" | the quoted value after the key is read | high, not executed | Completion.CommandLineFirstHidesTheRest | Completion.FixedReadsCommand |
| src/manager.c:54-55 | the state file is named with a session id made afresh on every call | two toggles a second apart: both report "enabled" | the state file keeps one name across calls | high, not executed | Manager.ToggleNeverDisables | Manager.ToggleTwiceAlternates |
