/** The management commands: finding the running daemon, toggling
    completion, starting and stopping the daemon.  The temporary
    directory's lock-file matches, the files (path to contents), the live
    pids, whether fork and kill succeed, and what the file system looks
    like once a started daemon has had its start-up delay are parameters. */
module Manager {
  import opened Text
  import Session
  import Config
  import Daemon
  import DaemonCtl

  // ---------------------------------------------------------------------
  // find_running_daemon

  /** The session a lock file names: its pid, the text after the last '.'
      of the file name as session id, and the socket path made from it. */
  function SessionOf(tmpdir: string, name: string, files: Session.Files, live: set<int>): (r: DaemonCtl.DaemonSession)
    requires Daemon.Qualifies(tmpdir, name, files, live)
    ensures r.active && r.pid in live && r.lockFile == tmpdir + "/" + name
    ensures r.socketPath == tmpdir + "/" + Session.FileName(Session.SocketFile, r.sessionId)
    ensures '.' !in r.sessionId && |r.sessionId| < |name| && name[|name| - |r.sessionId| - 1..] == "." + r.sessionId
  {
    var path := tmpdir + "/" + name;
    assert Daemon.LOCK_ENTRY_PREFIX[|Daemon.LOCK_ENTRY_PREFIX| - 1] == '.';
    assert name[|Daemon.LOCK_ENTRY_PREFIX| - 1] == '.';
    var id := Session.SuffixAfterDot(name).value;
    DaemonCtl.DaemonSession(Session.StoredPid(files[path]).value, true, id, path, tmpdir + "/" + Session.FileName(Session.SocketFile, id))
  }

  /** find_running_daemon over the lock-file matches in the order glob
      returns them (`None`: glob failed or matched nothing). */
  function FindRunningDaemon(tmpdir: string, listing: Option<seq<string>>, files: Session.Files, live: set<int>): (r: Option<DaemonCtl.DaemonSession>)
    ensures listing.None? ==> r.None?
    ensures r.Some? <==> listing.Some? && exists i :: 0 <= i < |listing.value| && Daemon.Qualifies(tmpdir, listing.value[i], files, live)
    ensures r.Some? ==> r.value.active && r.value.pid in live && r.value.lockFile in files
  {
    if listing.None? then None
    else
      match Daemon.FirstQualifying(tmpdir, listing.value, files, live)
      case None => None
      case Some(k) => Some(SessionOf(tmpdir, listing.value[k], files, live))
  }

  /** glob's matches of the lock-file pattern hold exactly the directory
      entries that start with the lock prefix; glob sorts them, while
      readdir leaves the directory's own order, so only the contents are
      tied together here. */
  predicate GlobOf(globbed: seq<string>, entries: seq<string>)
  {
    && (forall x :: x in globbed ==> x in entries && Daemon.LOCK_ENTRY_PREFIX <= x)
    && (forall x :: x in entries && Daemon.LOCK_ENTRY_PREFIX <= x ==> x in globbed)
  }

  /** For one lock file, the manager's session and the daemon's record name
      the same pid, lock file and session id; the socket paths agree unless
      the id is empty, where the daemon builds the path from the pid. */
  lemma SessionMatchesInfo(tmpdir: string, name: string, files: Session.Files, live: set<int>)
    requires Daemon.Qualifies(tmpdir, name, files, live)
    ensures var m := SessionOf(tmpdir, name, files, live);
            var d := Daemon.InfoOf(tmpdir, name, files, live);
            m.pid == d.pid && m.lockFile == d.lockFile && m.sessionId == d.sessionId
            && (m.sessionId != [] <==> m.socketPath == d.socketPath)
  {
    var m := SessionOf(tmpdir, name, files, live);
    var d := Daemon.InfoOf(tmpdir, name, files, live);
    if m.sessionId == [] {
      assert |d.socketPath| > |m.socketPath| by {
        assert |Decimal(d.pid)| >= 1;
      }
    }
  }

  /** With at most one live lock in the directory, the manager (over glob's
      matches) and the daemon (over readdir's entries) find the same
      daemon. */
  lemma ManagerAgreesWithDaemon(tmpdir: string, globbed: seq<string>, entries: seq<string>, files: Session.Files, live: set<int>)
    requires GlobOf(globbed, entries)
    requires forall i, j ::
               (0 <= i < |entries| && 0 <= j < |entries| &&
                Daemon.Qualifies(tmpdir, entries[i], files, live) && Daemon.Qualifies(tmpdir, entries[j], files, live)) ==> entries[i] == entries[j]
    ensures var m := FindRunningDaemon(tmpdir, Some(globbed), files, live);
            var d := Daemon.FindDaemonInfo(tmpdir, Some(entries), files, live);
            m.Some? <==> d.Some?
    ensures var m := FindRunningDaemon(tmpdir, Some(globbed), files, live);
            var d := Daemon.FindDaemonInfo(tmpdir, Some(entries), files, live);
            m.Some? ==> m.value.pid == d.value.pid && m.value.lockFile == d.value.lockFile && m.value.sessionId == d.value.sessionId
                        && (m.value.sessionId != [] <==> m.value.socketPath == d.value.socketPath)
  {
    var fm := Daemon.FirstQualifying(tmpdir, globbed, files, live);
    var fd := Daemon.FirstQualifying(tmpdir, entries, files, live);
    if fd.Some? {
      assert entries[fd.value] in globbed;
    }
    if fm.Some? {
      var name := globbed[fm.value];
      assert name in globbed;
      var j :| 0 <= j < |entries| && entries[j] == name;
      assert fd.Some?;
      assert entries[fd.value] == name;
      SessionMatchesInfo(tmpdir, name, files, live);
    }
  }

  /** With two live locks the order decides: readdir may list them in the
      reverse of glob's sorted order, and then the manager and the daemon
      pick different daemons. */
  lemma OrderDecidesBetweenLocks(tmpdir: string, a: string, b: string, files: Session.Files, live: set<int>)
    requires Daemon.Qualifies(tmpdir, a, files, live) && Daemon.Qualifies(tmpdir, b, files, live)
    requires Session.StoredPid(files[tmpdir + "/" + a]) != Session.StoredPid(files[tmpdir + "/" + b])
    ensures GlobOf([a, b], [b, a])
    ensures FindRunningDaemon(tmpdir, Some([a, b]), files, live).value.pid
            != Daemon.FindDaemonInfo(tmpdir, Some([b, a]), files, live).value.pid
  {
    assert Daemon.FirstQualifying(tmpdir, [a, b], files, live) == Some(0);
    assert Daemon.FirstQualifying(tmpdir, [b, a], files, live) == Some(0);
  }

  /** A daemon that started with a fresh session id and is alive is found
      by the manager with that id and the socket it listens on. */
  lemma StartedDaemonIsFound(envTmpdir: Option<string>, id: string, pid: int, files: Session.Files, live: set<int>, before: seq<string>, after: seq<string>)
    requires Session.IsSessionId(id) && pid in live
    requires envTmpdir.Some? ==> envTmpdir.value != [] && |envTmpdir.value| < Session.TMPDIR_CACHE_SIZE
    requires var lock := Daemon.StartupLock(envTmpdir, id, pid);
             lock.0 in files && files[lock.0] == lock.1
    requires var tmpdir := Session.Tmpdir([], envTmpdir).dir;
             forall j :: 0 <= j < |before| ==> !Daemon.Qualifies(tmpdir, before[j], files, live)
    ensures var tmpdir := Session.Tmpdir([], envTmpdir).dir;
            var name := Session.FileName(Session.LockFile, id);
            var found := FindRunningDaemon(tmpdir, Some(before + [name] + after), files, live);
            found.Some? && found.value.pid == pid && found.value.sessionId == id
            && found.value.socketPath == tmpdir + "/" + Session.FileName(Session.SocketFile, id)
  {
    var tmpdir := Session.Tmpdir([], envTmpdir).dir;
    Session.TmpdirChoice(envTmpdir);
    assert Daemon.StartupLock(envTmpdir, id, pid).0 == tmpdir + "/" + Session.FileName(Session.LockFile, id);
    OwnLockIsFound(tmpdir, id, pid, files, live, before, after);
  }

  /** The search half of the lemma above, for any temporary directory. */
  lemma OwnLockIsFound(tmpdir: string, id: string, pid: int, files: Session.Files, live: set<int>, before: seq<string>, after: seq<string>)
    requires Session.IsSessionId(id) && pid in live
    requires var path := tmpdir + "/" + Session.FileName(Session.LockFile, id);
             path in files && files[path] == Decimal(pid)
    requires forall j :: 0 <= j < |before| ==> !Daemon.Qualifies(tmpdir, before[j], files, live)
    ensures var name := Session.FileName(Session.LockFile, id);
            var found := FindRunningDaemon(tmpdir, Some(before + [name] + after), files, live);
            found.Some? && found.value.pid == pid && found.value.sessionId == id
            && found.value.socketPath == tmpdir + "/" + Session.FileName(Session.SocketFile, id)
  {
    var name := Session.FileName(Session.LockFile, id);
    Daemon.OwnLockEntry(tmpdir, id, pid, files, live);
    OwnSession(tmpdir, id, pid, files, live);
    var names := before + [name] + after;
    assert names[|before|] == name;
    Daemon.FirstAtIndex(tmpdir, names, files, live, |before|);
  }

  /** The manager reads a live daemon's own lock entry back as its pid,
      session id and socket. */
  lemma OwnSession(tmpdir: string, id: string, pid: int, files: Session.Files, live: set<int>)
    requires Session.IsSessionId(id) && pid in live
    requires var name := Session.FileName(Session.LockFile, id);
             Daemon.Qualifies(tmpdir, name, files, live)
             && Daemon.InfoOf(tmpdir, name, files, live).pid == pid
    ensures var name := Session.FileName(Session.LockFile, id);
            var m := SessionOf(tmpdir, name, files, live);
            m.pid == pid && m.sessionId == id
            && m.socketPath == tmpdir + "/" + Session.FileName(Session.SocketFile, id)
  {
    assert forall i :: 0 <= i < |id| ==> id[i] != '.';
    Session.NameRecoversId(Session.LockFile, id);
  }

  // ---------------------------------------------------------------------
  // cmd_toggle

  /** The outcome of a toggle: the return code, the files afterwards and
      the state reported (`None` when nothing was reported). */
  datatype Toggled = Toggled(code: int, files: Session.Files, enabled: Option<bool>)

  /** The state the file holds: `None` when it is absent, otherwise whether
      completion counts as enabled (unreadable contents count as enabled
      only after the toggle writes 1). */
  function Toggle(files: Session.Files, stateFile: string, writeOk: bool): (r: Toggled)
    ensures r.code == 0 && r.enabled.Some?
    ensures stateFile !in files ==> r.enabled == Some(true)
    ensures stateFile in files && ScanInt(files[stateFile]).Some? ==> r.enabled == Some(ScanInt(files[stateFile]).value.0 == 0)
    ensures stateFile in files && ScanInt(files[stateFile]).None? ==> r.enabled == Some(true)
    ensures writeOk ==> r.files == files[stateFile := if r.enabled.value then "1" else "0"]
    ensures !writeOk ==> r.files == files
  {
    var enabled := if stateFile !in files then true
                   else match ScanInt(files[stateFile])
                        case Some(n) => n.0 == 0
                        case None => true;
    var written := if enabled then "1" else "0";
    Toggled(0, if writeOk then files[stateFile := written] else files, Some(enabled))
  }

  /** cmd_toggle as written: the state file is named by get_temp_file_path,
      whose session id is made afresh from the clock on every call. */
  function CmdToggle(files: Session.Files, envTmpdir: Option<string>, clock: Option<Session.Clock>, pid: int, writeOk: bool): (r: Toggled)
    ensures r.code == 0 || r.code == -1
    ensures r.code == -1 <==> clock.None?
    ensures r.code == -1 ==> r.files == files && r.enabled.None?
  {
    match Config.GetTempFilePath("state", envTmpdir, clock, pid)
    case None => Toggled(-1, files, None)
    case Some(path) => Toggle(files, path, writeOk)
  }

  /** Two toggles at instants whose session hashes differ each look at a
      file of their own, so both report completion enabled: the state
      never alternates. */
  lemma ToggleNeverDisables(files: Session.Files, envTmpdir: Option<string>, c1: Session.Clock, c2: Session.Clock, pid: int)
    requires Session.SessionHash(c1, pid) as int != Session.SessionHash(c2, pid) as int
    requires Config.GetTempFilePath("state", envTmpdir, Some(c1), pid).value !in files
    requires Config.GetTempFilePath("state", envTmpdir, Some(c2), pid).value !in files
    ensures var first := CmdToggle(files, envTmpdir, Some(c1), pid, true);
            var second := CmdToggle(first.files, envTmpdir, Some(c2), pid, true);
            first.enabled == Some(true) && second.enabled == Some(true)
  {
    Config.FreshPathsDiffer("state", envTmpdir, c1, c2, pid);
  }

  /** The state file at a fixed name in the temporary directory. */
  function StatePath(envTmpdir: Option<string>): string
  {
    Config.TempDir(envTmpdir) + "/" + Session.SMART_CMD_PREFIX + ".state"
  }

  /** cmd_toggle with a state file that outlives the call. */
  function CmdToggleFixed(files: Session.Files, envTmpdir: Option<string>, writeOk: bool): (r: Toggled)
    ensures r.code == 0 && r.enabled.Some?
    ensures writeOk ==> StatePath(envTmpdir) in r.files
  {
    Toggle(files, StatePath(envTmpdir), writeOk)
  }

  /** With the fixed state file the second of two toggles reports the
      opposite of the first, whatever the file held before. */
  lemma ToggleTwiceAlternates(files: Session.Files, envTmpdir: Option<string>)
    ensures var first := CmdToggleFixed(files, envTmpdir, true);
            var second := CmdToggleFixed(first.files, envTmpdir, true);
            second.enabled.value == !first.enabled.value
  {
    ScanDecimal(0, []);
    ScanDecimal(1, []);
    assert Decimal(0) == "0" && Decimal(1) == "1";
  }

  // ---------------------------------------------------------------------
  // cmd_stop and cmd_start

  datatype Stopped = Stopped(code: int, files: Session.Files)

  /** cmd_stop: nothing running is success; otherwise a delivered SIGTERM
      is followed by removing the lock file and the socket. */
  function CmdStop(tmpdir: string, listing: Option<seq<string>>, files: Session.Files, live: set<int>, killOk: bool): (r: Stopped)
    ensures r.code == 0 || r.code == 1
    ensures FindRunningDaemon(tmpdir, listing, files, live).None? ==> r == Stopped(0, files)
    ensures r.code == 1 <==> FindRunningDaemon(tmpdir, listing, files, live).Some? && !killOk
    ensures r.code == 1 ==> r.files == files
    ensures r.code == 0 && FindRunningDaemon(tmpdir, listing, files, live).Some? ==>
              var s := FindRunningDaemon(tmpdir, listing, files, live).value;
              r.files == files - {s.lockFile, s.socketPath}
  {
    match FindRunningDaemon(tmpdir, listing, files, live)
    case None => Stopped(0, files)
    case Some(s) =>
      if !killOk then Stopped(1, files)
      else
        var unlocked := Session.CleanupLock(files, s.lockFile).files;
        Stopped(0, unlocked - {s.socketPath})
  }

  /** After a successful stop the stopped daemon's lock is gone, so a
      search of the same listing no longer settles on it. */
  lemma StopForgetsDaemon(tmpdir: string, names: seq<string>, files: Session.Files, live: set<int>)
    requires FindRunningDaemon(tmpdir, Some(names), files, live).Some?
    ensures var stopped := FindRunningDaemon(tmpdir, Some(names), files, live).value;
            var after := CmdStop(tmpdir, Some(names), files, live, true).files;
            var again := FindRunningDaemon(tmpdir, Some(names), after, live);
            again.None? || again.value.lockFile != stopped.lockFile
  {
  }

  /** Whether fork failed, or forked and the child went on to run the
      daemon binary. */
  datatype Fork = ForkFailed | Forked

  datatype Started = Started(code: int, forked: bool)

  /** cmd_start.  `bin` is the daemon binary's path (`None` when it could
      not be formed), `executable` whether access(X_OK) accepts it, and
      `listingAfter`/`filesAfter`/`liveAfter` the state once the start-up
      delay has passed. */
  function CmdStart(settings: Config.SettingsFile, env: map<string, string>, bin: Option<string>, executable: bool,
                    tmpdir: string, listing: Option<seq<string>>, files: Session.Files, live: set<int>,
                    fork: Fork, listingAfter: Option<seq<string>>, filesAfter: Session.Files, liveAfter: set<int>): (r: Started)
    ensures r.code == 0 || r.code == 1
    ensures var loaded := Config.LoadConfig(settings, env);
            loaded.code != 0 || !loaded.settings.proxyMode ==> r == Started(1, false)
    ensures bin.None? || !executable ==> r == Started(1, false)
    ensures r.forked <==> Config.LoadConfig(settings, env).code == 0 && Config.LoadConfig(settings, env).settings.proxyMode
                          && bin.Some? && executable && FindRunningDaemon(tmpdir, listing, files, live).None? && fork.Forked?
    ensures r.code == 0 && !r.forked ==> FindRunningDaemon(tmpdir, listing, files, live).Some?
    ensures r.forked ==> (r.code == 0 <==> FindRunningDaemon(tmpdir, listingAfter, filesAfter, liveAfter).Some?)
  {
    var loaded := Config.LoadConfig(settings, env);
    if loaded.code != 0 || !loaded.settings.proxyMode then Started(1, false)
    else if bin.None? || !executable then Started(1, false)
    else if FindRunningDaemon(tmpdir, listing, files, live).Some? then Started(0, false)
    else if fork.ForkFailed? then Started(1, false)
    else Started(if FindRunningDaemon(tmpdir, listingAfter, filesAfter, liveAfter).Some? then 0 else 1, true)
  }

  /** Without a settings file start is refused, although the defaults the
      rest of the program runs with have the daemon mode on. */
  lemma NoSettingsNoStart(env: map<string, string>, bin: Option<string>, executable: bool,
                          tmpdir: string, listing: Option<seq<string>>, files: Session.Files, live: set<int>,
                          fork: Fork, listingAfter: Option<seq<string>>, filesAfter: Session.Files, liveAfter: set<int>)
    ensures Config.Defaults().proxyMode
    ensures CmdStart(Config.Missing, env, bin, executable, tmpdir, listing, files, live, fork, listingAfter, filesAfter, liveAfter) == Started(1, false)
  {
  }

  /** Starting while a daemon runs forks nothing and succeeds; stopping it
      first makes the next start fork. */
  lemma StartIsIdempotent(doc: Config.Document, env: map<string, string>, bin: string,
                          tmpdir: string, names: seq<string>, files: Session.Files, live: set<int>,
                          fork: Fork, listingAfter: Option<seq<string>>, filesAfter: Session.Files, liveAfter: set<int>)
    requires Config.LoadConfig(Config.Parsed(doc), env).settings.proxyMode
    requires FindRunningDaemon(tmpdir, Some(names), files, live).Some?
    ensures CmdStart(Config.Parsed(doc), env, Some(bin), true, tmpdir, Some(names), files, live, fork, listingAfter, filesAfter, liveAfter) == Started(0, false)
  {
  }
}
