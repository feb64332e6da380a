/** Controlling a daemon from outside: whether its lock names a live
    process, forced locking, the environment checks made before starting,
    stopping, liveness, the sweep of stale session files and the secure
    temporary file name. */
module DaemonCtl {
  import opened Text
  import Session

  /** The fields of a daemon session record that these operations read or
      write. */
  datatype DaemonSession = DaemonSession(pid: int, active: bool, sessionId: string, lockFile: string, socketPath: string)

  // ---------------------------------------------------------------------
  // Locks

  /** check_daemon_running: 1 when the lock file opens, a pid parses and
      that process is alive; 0 otherwise (also for a NULL path). */
  function CheckDaemonRunning(lockFile: Option<string>, files: Session.Files, live: set<int>): (r: int)
    ensures r == 0 || r == 1
    ensures r == 1 <==> lockFile.Some? && Session.LockHeld(files, live, lockFile.value)
  {
    if lockFile.None? || lockFile.value !in files then 0
    else
      match Session.StoredPid(files[lockFile.value])
      case None => 0
      case Some(pid) => if pid in live then 1 else 0
  }

  /** A lock reported running is one that an ordinary lock attempt refuses
      and leaves alone; a lock not reported running does not stand in the
      way. */
  lemma RunningMeansRefused(lockFile: string, files: Session.Files, live: set<int>, pid: int, env: Session.LockEnv)
    ensures CheckDaemonRunning(Some(lockFile), files, live) == 1 ==>
              Session.CreateLock(files, live, lockFile, pid, env) == Session.LockResult(-1, files)
    ensures CheckDaemonRunning(Some(lockFile), files, live) == 0 && ('/' !in lockFile || env.dirReady) && env.createOk && env.writeOk ==>
              Session.CreateLock(files, live, lockFile, pid, env).code == 0
  {
  }

  /** create_daemon_lock_force: remove whatever lock is there, then lock. */
  function CreateLockForce(files: Session.Files, live: set<int>, lockFile: Option<string>, pid: int, env: Session.LockEnv): (r: Session.LockResult)
    ensures lockFile.None? ==> r == Session.LockResult(-1, files)
    ensures lockFile.Some? ==>
              (r.code == 0 <==> ('/' !in lockFile.value || env.dirReady) && env.createOk && env.writeOk)
    ensures lockFile.Some? && r.code == 0 ==> r.files == files[lockFile.value := Session.LockContents(pid)]
  {
    if lockFile.None? then Session.LockResult(-1, files)
    else Session.CreateLock(files - {lockFile.value}, live, lockFile.value, pid, env)
  }

  /** The forced lock succeeds even over the lock of a live daemon, which
      the ordinary lock refuses. */
  lemma ForceOverridesLiveOwner(files: Session.Files, live: set<int>, lockFile: string, owner: int, pid: int)
    requires lockFile in files && files[lockFile] == Session.LockContents(owner) && owner in live
    ensures Session.CreateLock(files, live, lockFile, pid, Session.LockEnv(true, true, true)).code == -1
    ensures CreateLockForce(files, live, Some(lockFile), pid, Session.LockEnv(true, true, true))
            == Session.LockResult(0, files[lockFile := Session.LockContents(pid)])
  {
    Session.StoredPidOfLock(owner);
  }

  // ---------------------------------------------------------------------
  // The environment check

  datatype Warning = InTmux | LowFdLimit

  datatype SafetyCheck = SafetyCheck(code: int, warnings: seq<Warning>)

  const FD_LIMIT_WARNING: int := 256

  /** check_safe_environment, given the environment, the real and effective
      user ids and the soft descriptor limit (`None` when getrlimit
      failed).  Nesting and setuid are refused; tmux and a low limit are
      only reported. */
  function CheckSafeEnvironment(env: map<string, string>, uid: int, euid: int, fdLimit: Option<int>): (r: SafetyCheck)
    ensures r.code == 0 || r.code == -1
    ensures r.code == -1 <==> "SMART_CMD_DAEMON_ACTIVE" in env || uid != euid
    ensures r.code == -1 ==> r.warnings == []
    ensures r.code == 0 ==> (InTmux in r.warnings <==> "TMUX" in env)
    ensures r.code == 0 ==> (LowFdLimit in r.warnings <==> fdLimit.Some? && fdLimit.value < FD_LIMIT_WARNING)
  {
    if "SMART_CMD_DAEMON_ACTIVE" in env then SafetyCheck(-1, [])
    else if uid != euid then SafetyCheck(-1, [])
    else
      var tmux := if "TMUX" in env then [InTmux] else [];
      var low := if fdLimit.Some? && fdLimit.value < FD_LIMIT_WARNING then [LowFdLimit] else [];
      SafetyCheck(0, tmux + low)
  }

  /** The warnings never change the verdict: without the nesting marker
      and with matching ids the check passes, and whether TMUX is set or
      what the descriptor limit is never moves the verdict either way. */
  lemma WarningsDoNotRefuse(env: map<string, string>, uid: int, euid: int, fdLimit: Option<int>,
                            tmux: string, otherLimit: Option<int>)
    ensures "SMART_CMD_DAEMON_ACTIVE" !in env ==> CheckSafeEnvironment(env, uid, uid, fdLimit).code == 0
    ensures CheckSafeEnvironment(env[("TMUX") := tmux], uid, euid, otherLimit).code
            == CheckSafeEnvironment(env, uid, euid, fdLimit).code
    ensures CheckSafeEnvironment(env - {"TMUX"}, uid, euid, otherLimit).code
            == CheckSafeEnvironment(env, uid, euid, fdLimit).code
  {
  }

  // ---------------------------------------------------------------------
  // Stopping and liveness

  datatype Stopped = Stopped(code: int, info: Option<DaemonSession>, files: Session.Files)

  /** stop_daemon_process, given whether kill(SIGTERM) and waitpid
      succeeded: a NULL or inactive record is refused; a successful stop
      removes the lock and the socket and marks the record inactive. */
  function StopDaemonProcess(info: Option<DaemonSession>, files: Session.Files, killOk: bool, waitOk: bool): (r: Stopped)
    ensures info.None? || !info.value.active ==> r == Stopped(-1, info, files)
    ensures r.code == 0 <==> info.Some? && info.value.active && killOk && waitOk
    ensures r.code == 0 ==>
              r.info == Some(info.value.(active := false)) && r.files == files - {info.value.lockFile, info.value.socketPath}
    ensures r.code != 0 ==> r == Stopped(-1, info, files)
  {
    if info.None? || !info.value.active then Stopped(-1, info, files)
    else if !killOk || !waitOk then Stopped(-1, info, files)
    else
      var afterLock := Session.CleanupLock(files, info.value.lockFile).files;
      Stopped(0, Some(info.value.(active := false)), afterLock - {info.value.socketPath})
  }

  /** A stopped daemon cannot be stopped a second time. */
  lemma StopIsFinal(info: DaemonSession, files: Session.Files, killOk: bool, waitOk: bool, kill2: bool, wait2: bool)
    requires StopDaemonProcess(Some(info), files, killOk, waitOk).code == 0
    ensures var s := StopDaemonProcess(Some(info), files, killOk, waitOk);
            StopDaemonProcess(s.info, s.files, kill2, wait2).code == -1
  {
  }

  datatype Liveness = Liveness(code: int, info: Option<DaemonSession>)

  /** daemon_is_active: 1 only for an active record whose process lives; a
      record whose process has died is marked inactive. */
  function DaemonIsActive(info: Option<DaemonSession>, live: set<int>): (r: Liveness)
    ensures r.code == 1 <==> info.Some? && info.value.active && info.value.pid in live
    ensures r.code == 0 || r.code == 1
    ensures r.code == 1 ==> r.info == info
    ensures r.code == 0 ==> r.info.None? || !r.info.value.active
    ensures info.Some? ==> r.info.Some? && r.info.value == info.value.(active := r.code == 1)
  {
    if info.None? then Liveness(0, None)
    else if !info.value.active then Liveness(0, info)
    else if info.value.pid !in live then Liveness(0, Some(info.value.(active := false)))
    else Liveness(1, info)
  }

  /** Once a record is found dead it stays inactive, even if the pid is
      reused by a live process later. */
  lemma DeadStaysInactive(info: DaemonSession, live: set<int>, later: set<int>)
    requires DaemonIsActive(Some(info), live).code == 0
    ensures DaemonIsActive(DaemonIsActive(Some(info), live).info, later).code == 0
  {
  }

  // ---------------------------------------------------------------------
  // Sweeping old session files

  const SWEEP_PREFIX: string := "smart-cmd."
  const SWEEP_PATH_SIZE: int := 512

  /** The names the sweep considers at all. */
  predicate Sweepable(name: string)
  {
    name != "." && name != ".." && SWEEP_PREFIX <= name
  }

  /** The path stat() and unlink() are given for an entry. */
  function SweepPath(base: string, name: string): string
  {
    Prefix(base + "/" + name, SWEEP_PATH_SIZE - 1)
  }

  predicate IsStale(base: string, name: string, mtimes: map<string, int>, cutoff: int)
  {
    Sweepable(name) && SweepPath(base, name) in mtimes && mtimes[SweepPath(base, name)] < cutoff
  }

  /** The paths the sweep removes: those of considered entries whose
      modification time is before the cutoff. */
  function StaleTargets(base: string, names: seq<string>, mtimes: map<string, int>, cutoff: int): (t: set<string>)
    ensures forall p :: p in t ==> p in mtimes && mtimes[p] < cutoff
  {
    if |names| == 0 then {}
    else
      var last := names[|names| - 1];
      StaleTargets(base, names[..|names| - 1], mtimes, cutoff)
        + (if IsStale(base, last, mtimes, cutoff) then {SweepPath(base, last)} else {})
  }

  /** cleanup_old_sessions over the directory listing (`None` when the
      directory cannot be opened), the files' modification times and the
      paths whose unlink() succeeds (another user's file in a sticky
      directory, say, is not among them): -1 for a NULL base, 0 for a
      missing directory, otherwise the number of files removed, which are
      exactly the stale targets that could be unlinked; a stale file whose
      unlink fails stays and is not counted. */
  method CleanupOldSessions(base: Option<string>, listing: Option<seq<string>>, mtimes: map<string, int>,
                            unlinkable: set<string>, now: int, maxAgeHours: int)
    returns (count: int, remaining: map<string, int>)
    ensures base.None? ==> count == -1 && remaining == mtimes
    ensures base.Some? && listing.None? ==> count == 0 && remaining == mtimes
    ensures base.Some? && listing.Some? ==>
              var t := StaleTargets(base.value, listing.value, mtimes, now - maxAgeHours * 3600);
              count == |t * unlinkable| && remaining == mtimes - (t * unlinkable)
  {
    if base.None? {
      return -1, mtimes;
    }
    if listing.None? {
      return 0, mtimes;
    }
    var names := listing.value;
    var cutoff := now - maxAgeHours * 3600;
    count := 0;
    remaining := mtimes;
    var i := 0;
    while i < |names|
      invariant 0 <= i <= |names|
      invariant count == |StaleTargets(base.value, names[..i], mtimes, cutoff) * unlinkable|
      invariant remaining == mtimes - (StaleTargets(base.value, names[..i], mtimes, cutoff) * unlinkable)
    {
      SweepAdvance(base.value, names, i, mtimes, unlinkable, cutoff, remaining, count);
      var step := SweepEntry(base.value, names[i], remaining, unlinkable, count, cutoff);
      remaining, count := step.0, step.1;
      i := i + 1;
    }
    assert names[..i] == names;
  }

  /** One pass of the loop body: stat the entry's path and, when it is
      older than the cutoff, count it if its unlink succeeds. */
  function SweepEntry(base: string, name: string, remaining: map<string, int>, unlinkable: set<string>, count: int, cutoff: int): (map<string, int>, int)
  {
    var path := SweepPath(base, name);
    if Sweepable(name) && path in remaining && remaining[path] < cutoff && path in unlinkable then (remaining - {path}, count + 1)
    else (remaining, count)
  }

  lemma SweepAdvance(base: string, names: seq<string>, i: int, mtimes: map<string, int>, unlinkable: set<string>,
                     cutoff: int, remaining: map<string, int>, count: int)
    requires 0 <= i < |names|
    requires count == |StaleTargets(base, names[..i], mtimes, cutoff) * unlinkable|
    requires remaining == mtimes - (StaleTargets(base, names[..i], mtimes, cutoff) * unlinkable)
    ensures var step := SweepEntry(base, names[i], remaining, unlinkable, count, cutoff);
            step.1 == |StaleTargets(base, names[..i + 1], mtimes, cutoff) * unlinkable|
            && step.0 == mtimes - (StaleTargets(base, names[..i + 1], mtimes, cutoff) * unlinkable)
  {
    var t0 := StaleTargets(base, names[..i], mtimes, cutoff);
    var path := SweepPath(base, names[i]);
    var stale := IsStale(base, names[i], mtimes, cutoff);
    SweepStep(base, names, i, mtimes, cutoff);
    assert (Sweepable(names[i]) && path in remaining && remaining[path] < cutoff && path in unlinkable)
           <==> (stale && path in unlinkable && path !in t0 * unlinkable);
    UnlinkStep(mtimes, t0, unlinkable, path, stale);
  }

  /** The set reasoning of one loop pass: a stale path that can be unlinked
      and was not removed before is removed now and counted once. */
  lemma UnlinkStep(mtimes: map<string, int>, t0: set<string>, u: set<string>, path: string, stale: bool)
    requires stale ==> path in mtimes
    ensures var t1 := t0 + (if stale then {path} else {});
            var hit := stale && path in u && path !in t0 * u;
            (hit ==> |t1 * u| == |t0 * u| + 1 && (mtimes - (t0 * u)) - {path} == mtimes - (t1 * u))
            && (!hit ==> t1 * u == t0 * u)
  {
    var t1 := t0 + (if stale then {path} else {});
    if stale && path in u && path !in t0 * u {
      assert t1 * u == t0 * u + {path};
      RemoveOne(mtimes, t0 * u, path);
    }
  }

  lemma SweepStep(base: string, names: seq<string>, i: int, mtimes: map<string, int>, cutoff: int)
    requires 0 <= i < |names|
    ensures StaleTargets(base, names[..i + 1], mtimes, cutoff)
            == StaleTargets(base, names[..i], mtimes, cutoff)
               + (if IsStale(base, names[i], mtimes, cutoff) then {SweepPath(base, names[i])} else {})
  {
    assert names[..i + 1][..i] == names[..i];
  }

  lemma RemoveOne(mtimes: map<string, int>, done: set<string>, path: string)
    requires path in mtimes && path !in done
    ensures (mtimes - done) - {path} == mtimes - (done + {path})
    ensures |done + {path}| == |done| + 1
  {
  }

  /** Files that are not session files are never touched. */
  lemma SweepSparesOthers(base: string, names: seq<string>, mtimes: map<string, int>, cutoff: int, p: string)
    requires p in mtimes
    requires forall k :: 0 <= k < |names| && SweepPath(base, names[k]) == p ==> !Sweepable(names[k])
    ensures p !in StaleTargets(base, names, mtimes, cutoff)
  {
    StaleTargetsFrom(base, names, mtimes, cutoff, p);
  }

  lemma {:induction false} StaleTargetsFrom(base: string, names: seq<string>, mtimes: map<string, int>, cutoff: int, p: string)
    ensures p in StaleTargets(base, names, mtimes, cutoff) ==>
              exists k :: 0 <= k < |names| && SweepPath(base, names[k]) == p && Sweepable(names[k])
    decreases |names|
  {
    if |names| == 0 || p !in StaleTargets(base, names, mtimes, cutoff) {
      return;
    }
    var init := names[..|names| - 1];
    if p in StaleTargets(base, init, mtimes, cutoff) {
      StaleTargetsFrom(base, init, mtimes, cutoff, p);
      var k :| 0 <= k < |init| && SweepPath(base, init[k]) == p && Sweepable(init[k]);
      assert names[k] == init[k];
    } else {
      assert SweepPath(base, names[|names| - 1]) == p;
    }
  }

  // ---------------------------------------------------------------------
  // Secure temporary file names

  /** secure_temp_file into a path buffer of `pathSize` bytes, with a
      session-id buffer of `idSize` bytes: a fresh session id and the pid
      name the file "<tmpdir>/smart-cmd.<prefix>.<id>.<pid>". */
  function SecureTempFile(tmpdir: string, prefix: string, idSize: int, clock: Option<Session.Clock>, pid: int, pathSize: int): (r: Option<string>)
    requires pathSize >= 1 && idSize >= 0
    ensures r.Some? <==> Session.NewSessionId(idSize, clock, pid).Some?
    ensures r.Some? ==> |r.value| <= pathSize - 1
  {
    match Session.NewSessionId(idSize, clock, pid)
    case None => None
    case Some(id) =>
      var filename := Prefix(id + "." + Decimal(pid), idSize + 15);
      Some(Session.TempFilePath(tmpdir, prefix, filename, pathSize))
  }

  /** When both buffers are large enough nothing is cut: the name carries
      the session id and the pid in full. */
  lemma SecureTempFileName(tmpdir: string, prefix: string, idSize: int, clock: Session.Clock, pid: int, pathSize: int)
    requires idSize >= 17 && pid >= 0 && |Decimal(pid)| <= idSize - 2
    requires pathSize >= |tmpdir| + |prefix| + idSize + 32
    ensures var id := Session.NewSessionId(idSize, Some(clock), pid).value;
            SecureTempFile(tmpdir, prefix, idSize, Some(clock), pid, pathSize)
              == Some(tmpdir + "/" + Session.SMART_CMD_PREFIX + "." + prefix + "." + id + "." + Decimal(pid))
  {
    var id := Session.NewSessionId(idSize, Some(clock), pid).value;
    var filename := id + "." + Decimal(pid);
    assert Prefix(filename, idSize + 15) == filename;
    var head := tmpdir + "/" + Session.SMART_CMD_PREFIX + "." + prefix + ".";
    assert |head + filename| <= pathSize - 1;
    assert head + filename == head + id + "." + Decimal(pid);
  }
}
