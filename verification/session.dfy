/** Session naming and lock-file helpers shared by the daemon, its manager
    and the front end: the temporary directory, session ids, the names of a
    session's lock, socket and log files, the pid lock file, bounded string
    copy and append, and argument joining.

    The file system is a map from path to contents.  `live` is the set of
    values v for which kill(v, 0) succeeds. */
module Session {
  import opened Text

  const SMART_CMD_PREFIX: string := "smart-cmd"
  const LOCK_FILE_PREFIX: string := "smart-cmd.lock"
  const SOCKET_FILE_PREFIX: string := "smart-cmd.socket"
  const LOG_FILE_PREFIX: string := "smart-cmd.log"

  /** Size of the cached temporary directory name, NUL included. */
  const TMPDIR_CACHE_SIZE: int := 256

  type Files = map<string, string>

  // ---------------------------------------------------------------------
  // The temporary directory

  datatype TmpdirLookup = TmpdirLookup(dir: string, cache: string)

  /** get_smart_cmd_tmpdir with the process-wide cache `cache` (empty until
      the first call) and the value of TMPDIR (`None` when unset).  The
      answer is never empty and is what the cache holds afterwards. */
  function Tmpdir(cache: string, env: Option<string>): (r: TmpdirLookup)
    ensures r.dir == r.cache && r.dir != []
    ensures cache != [] ==> r.dir == cache
    ensures cache == [] ==> |r.dir| < TMPDIR_CACHE_SIZE
  {
    if cache != [] then TmpdirLookup(cache, cache)
    else
      var chosen := if env.None? || env.value == [] then "/tmp" else env.value;
      var kept := Prefix(chosen, TMPDIR_CACHE_SIZE - 1);
      TmpdirLookup(kept, kept)
  }

  /** Once answered, the temporary directory no longer follows TMPDIR. */
  lemma TmpdirIsFixed(env1: Option<string>, env2: Option<string>)
    ensures var first := Tmpdir([], env1);
            Tmpdir(first.cache, env2) == first
  {
  }

  /** A set, non-empty TMPDIR that fits the cache is used as is; otherwise
      the directory is /tmp. */
  lemma TmpdirChoice(env: Option<string>)
    ensures env.Some? && env.value != [] && |env.value| < TMPDIR_CACHE_SIZE ==> Tmpdir([], env).dir == env.value
    ensures env.None? || env.value == [] ==> Tmpdir([], env).dir == "/tmp"
  {
  }

  // ---------------------------------------------------------------------
  // Session ids

  const U64_LIMIT: int := 0x1_0000_0000_0000_0000

  /** A C integer converted to `unsigned long`. */
  function U64(v: int): bv64
  {
    (v % U64_LIMIT) as bv64
  }

  datatype Clock = Clock(sec: int, nsec: int)

  /** The value generate_session_id prints: seconds xor nanoseconds xor pid,
      as unsigned 64-bit quantities. */
  function SessionHash(clock: Clock, pid: int): bv64
  {
    (U64(clock.sec) ^ U64(clock.nsec)) ^ U64(pid)
  }

  predicate IsSessionId(id: string)
  {
    |id| == 16 && forall i :: 0 <= i < |id| ==> IsLowerHex(id[i])
  }

  /** generate_session_id into a buffer of `len` bytes; `clock` is what
      clock_gettime reported (`None` when it failed). */
  function NewSessionId(len: int, clock: Option<Clock>, pid: int): (r: Option<string>)
    ensures r.Some? <==> len >= 17 && clock.Some?
    ensures r.Some? ==> IsSessionId(r.value)
  {
    if len < 17 || clock.None? then None
    else Some(HexDigits(SessionHash(clock.value, pid) as int, 16))
  }

  lemma Pow16Is64Bits()
    ensures Pow16(16) == U64_LIMIT
  {
    assert Pow16(4) == 0x1_0000;
    assert Pow16(8) == 0x1_0000_0000 by {
      assert Pow16(8) == 16 * 16 * 16 * 16 * Pow16(4);
    }
    assert Pow16(12) == 0x1_0000_0000_0000 by {
      assert Pow16(12) == 16 * 16 * 16 * 16 * Pow16(8);
    }
    assert Pow16(16) == 16 * 16 * 16 * 16 * Pow16(12);
  }

  lemma HexOf64Bits(v: nat)
    requires v < U64_LIMIT
    ensures HexValue(HexDigits(v, 16)) == v
  {
    Pow16Is64Bits();
    HexDigitsBelow(v, 16);
  }

  /** A value below 16^n is written in full by n hexadecimal digits. */
  lemma HexDigitsBelow(v: nat, n: nat)
    requires v < Pow16(n)
    ensures HexValue(HexDigits(v, n)) == v
  {
    HexValueOfHexDigits(v, n);
    ModUnique(v, Pow16(n), 0, v);
  }

  /** The sixteen digits read back as hexadecimal are the hash itself: the
      id loses none of its 64 bits. */
  lemma SessionIdDenotesHash(len: int, clock: Clock, pid: int)
    requires len >= 17
    ensures var r := NewSessionId(len, Some(clock), pid);
            r.Some? && HexValue(r.value) == SessionHash(clock, pid) as int
  {
    var v := SessionHash(clock, pid) as int;
    HexOf64Bits(v);
  }

  // ---------------------------------------------------------------------
  // Path names

  datatype PathKind = LockFile | SocketFile | LogFile

  function KindPrefix(k: PathKind): string
  {
    match k
    case LockFile => LOCK_FILE_PREFIX
    case SocketFile => SOCKET_FILE_PREFIX
    case LogFile => LOG_FILE_PREFIX
  }

  /** The directory entry of a session file: "<prefix>.<session id>". */
  function FileName(k: PathKind, id: string): string
  {
    KindPrefix(k) + "." + id
  }

  /** generate_lock_path / generate_socket_path / generate_log_path into a
      buffer of `size` bytes: the file name inside the temporary directory,
      cut to what the buffer holds. */
  function SessionPath(tmpdir: string, k: PathKind, id: string, size: int): (r: string)
    requires size >= 1
    ensures |r| <= size - 1
    ensures r <= tmpdir + "/" + FileName(k, id)
    ensures |tmpdir + "/" + FileName(k, id)| <= size - 1 ==> r == tmpdir + "/" + FileName(k, id)
  {
    Prefix(tmpdir + "/" + FileName(k, id), size - 1)
  }

  /** generate_temp_file_path: "<tmpdir>/smart-cmd.<prefix>.<session id>",
      cut to the buffer. */
  function TempFilePath(tmpdir: string, prefix: string, id: string, size: int): (r: string)
    requires size >= 1
    ensures |r| <= size - 1
    ensures r <= tmpdir + "/" + SMART_CMD_PREFIX + "." + prefix + "." + id
  {
    Prefix(tmpdir + "/" + SMART_CMD_PREFIX + "." + prefix + "." + id, size - 1)
  }

  /** The text after the last '.' of a directory entry, which is how a
      session id is read back from a lock file name. */
  function SuffixAfterDot(name: string): (r: Option<string>)
    ensures r.None? <==> '.' !in name
    ensures r.Some? ==> |r.value| < |name| && r.value == name[|name| - |r.value|..]
    ensures r.Some? ==> '.' !in r.value && name[|name| - |r.value| - 1] == '.'
  {
    match LastIndexOf(name, '.')
    case None => None
    case Some(k) =>
      Some(name[k + 1..])
  }

  /** Reading the id back from a session file name gives the id that was
      written into it, as long as the id holds no '.'. */
  lemma NameRecoversId(k: PathKind, id: string)
    requires '.' !in id
    ensures SuffixAfterDot(FileName(k, id)) == Some(id)
  {
    var name := FileName(k, id);
    var p := KindPrefix(k) + ".";
    assert name == p + id;
    assert name[|p| - 1] == '.';
    assert forall j :: |p| <= j < |name| ==> name[j] == id[j - |p|];
    LastDotIn(name, |p| - 1);
    assert name[|p|..] == id;
  }

  /** When the character at `k` is the last '.', LastIndexOf finds it. */
  lemma {:induction false} LastDotIn(s: string, k: nat)
    requires k < |s| && s[k] == '.'
    requires forall j :: k < j < |s| ==> s[j] != '.'
    ensures LastIndexOf(s, '.') == Some(k)
    decreases |s|
  {
    if s[|s| - 1] != '.' {
      LastDotIn(s[..|s| - 1], k);
    }
  }

  // ---------------------------------------------------------------------
  // Bounded copy, append and comparison

  datatype Copied = Copied(code: int, dest: string)

  /** safe_string_copy into a buffer of `destSize` bytes. */
  function SafeCopy(dest: string, src: string, destSize: int): (r: Copied)
    ensures destSize <= 0 ==> r == Copied(-1, dest)
    ensures destSize >= 1 ==> r.code == 0 && r.dest <= src && |r.dest| == Min(|src|, destSize - 1)
  {
    if destSize <= 0 then Copied(-1, dest) else Copied(0, Prefix(src, destSize - 1))
  }

  /** safe_string_append with `size_t` arithmetic: a zero `destSize` makes
      dest_size - 1 wrap, so that case appends without bound. */
  function SafeAppend(dest: string, src: string, destSize: int): (r: Copied)
    requires 0 <= destSize < U64_LIMIT && |dest| + |src| + 1 < U64_LIMIT
    ensures destSize >= 1 && |dest| >= destSize - 1 ==> r == Copied(-1, dest)
    ensures destSize >= 1 && |dest| < destSize - 1 ==>
              r.code == 0 && |dest| <= |r.dest| <= destSize - 1 && r.dest[..|dest|] == dest
              && r.dest[|dest|..] <= src
              && (|r.dest| < destSize - 1 ==> r.dest == dest + src)
    ensures destSize == 0 ==> r.code == 0 && r.dest == dest + src
  {
    var last := (destSize - 1) % U64_LIMIT;
    if |dest| >= last then Copied(-1, dest)
    else
      var room := (destSize - |dest| - 1) % U64_LIMIT;
      Copied(0, dest + Prefix(src, room))
  }

  /** Copying `a` and then appending `b` leaves exactly what fits of the
      concatenation, whether or not the append was refused. */
  lemma CopyThenAppend(a: string, b: string, size: int)
    requires 1 <= size < U64_LIMIT && |a| + |b| + 1 < U64_LIMIT
    ensures var c := SafeCopy([], a, size);
            SafeAppend(c.dest, b, size).dest == Prefix(a + b, size - 1)
  {
    var c := SafeCopy([], a, size).dest;
    if |a| < size - 1 {
      assert c == a;
      assert (a + b)[..Min(|a + b|, size - 1)] == a + Prefix(b, size - 1 - |a|);
    } else {
      assert (a + b)[..size - 1] == a[..size - 1];
    }
  }

  /** strncmp(a, b, n) on C strings, by sign: the end of a string compares
      as NUL and characters compare as unsigned values. */
  function CompareN(a: string, b: string, n: nat): (r: int)
    ensures -1 <= r <= 1
    decreases n
  {
    if n == 0 then 0
    else
      var ca := if |a| == 0 then 0 else a[0] as int;
      var cb := if |b| == 0 then 0 else b[0] as int;
      if ca != cb then (if ca < cb then -1 else 1)
      else if ca == 0 then 0
      else CompareN(a[1..], b[1..], n - 1)
  }

  /** strncmp reports equality exactly when the first `n` characters agree. */
  lemma {:induction false} CompareNEqual(a: string, b: string, n: nat)
    requires '\0' !in a && '\0' !in b
    ensures CompareN(a, b, n) == 0 <==> Prefix(a, n) == Prefix(b, n)
    decreases n
  {
    if n > 0 {
      if |a| == 0 || |b| == 0 {
        if |a| > 0 { assert Prefix(a, n)[0] == a[0]; }
        if |b| > 0 { assert Prefix(b, n)[0] == b[0]; }
      } else if a[0] != b[0] {
        assert Prefix(a, n)[0] == a[0] && Prefix(b, n)[0] == b[0];
      } else {
        CompareNEqual(a[1..], b[1..], n - 1);
        PrefixCons(a, n);
        PrefixCons(b, n);
        ConsEqual(a[0], Prefix(a[1..], n - 1), Prefix(b[1..], n - 1));
      }
    }
  }

  lemma PrefixCons(a: string, n: nat)
    requires n > 0 && |a| > 0
    ensures Prefix(a, n) == [a[0]] + Prefix(a[1..], n - 1)
  {
  }

  lemma ConsEqual(c: char, x: string, y: string)
    ensures [c] + x == [c] + y <==> x == y
  {
    if [c] + x == [c] + y {
      assert x == ([c] + x)[1..];
    }
  }

  /** starts_with: NULL on either side answers false. */
  function StartsWith(str: Option<string>, prefix: Option<string>): (r: bool)
  {
    str.Some? && prefix.Some? && CompareN(str.value, prefix.value, |prefix.value|) == 0
  }

  lemma StartsWithIsPrefix(str: Option<string>, prefix: Option<string>)
    requires str.Some? ==> '\0' !in str.value
    requires prefix.Some? ==> '\0' !in prefix.value
    ensures StartsWith(str, prefix) <==> str.Some? && prefix.Some? && prefix.value <= str.value
  {
    if str.Some? && prefix.Some? {
      CompareNEqual(str.value, prefix.value, |prefix.value|);
    }
  }

  // ---------------------------------------------------------------------
  // Joining arguments

  /** Bytes concat_remaining_args allocates: each argument plus one. */
  function ArgsSize(args: seq<string>): nat
  {
    if |args| == 0 then 0 else ArgsSize(args[..|args| - 1]) + |args[|args| - 1]| + 1
  }

  /** concat_remaining_args: `None` when no argument is left.  The result is
      the arguments separated by single spaces and, NUL included, fills the
      allocation exactly. */
  method ConcatRemaining(argv: seq<string>, start: int) returns (r: Option<string>)
    requires 0 <= start
    ensures start >= |argv| <==> r.None?
    ensures r.Some? ==> r.value == Join(argv[start..], " ")
    ensures r.Some? ==> |r.value| + 1 == ArgsSize(argv[start..])
  {
    if start >= |argv| {
      return None;
    }
    var acc := "";
    var i := start;
    while i < |argv|
      invariant start <= i <= |argv|
      invariant acc == Join(argv[start..i], " ") + (if start < i < |argv| then " " else "")
      invariant |acc| == ArgsSize(argv[start..i]) - (if start < i == |argv| then 1 else 0)
    {
      var done := argv[start..i];
      var next := argv[start..i + 1];
      assert next[..|next| - 1] == done && next[|next| - 1] == argv[i];
      acc := acc + argv[i];
      if i < |argv| - 1 {
        acc := acc + " ";
      }
      i := i + 1;
    }
    assert argv[start..i] == argv[start..];
    r := Some(acc);
  }

  /** With no space inside any argument, splitting the joined text at spaces
      gives the arguments back. */
  lemma ConcatSplits(argv: seq<string>, start: int)
    requires 0 <= start < |argv|
    requires forall i :: start <= i < |argv| ==> ' ' !in argv[i]
    ensures SplitOn(Join(argv[start..], " "), ' ') == argv[start..]
  {
    SplitJoin(argv[start..], ' ');
  }

  // ---------------------------------------------------------------------
  // The pid lock file

  /** fscanf(f, "%d"): the pid stored in a lock file, if one parses. */
  function StoredPid(contents: string): Option<int>
  {
    match ScanInt(contents)
    case Some(p) => Some(p.0)
    case None => None
  }

  /** is_process_running_from_lock: the file opens, a pid parses, and that
      pid is alive. */
  predicate LockHeld(files: Files, live: set<int>, lockFile: string)
  {
    lockFile in files && StoredPid(files[lockFile]).Some? && StoredPid(files[lockFile]).value in live
  }

  function LockContents(pid: int): string
  {
    Decimal(pid) + "\n"
  }

  lemma StoredPidOfLock(pid: int)
    ensures StoredPid(LockContents(pid)) == Some(pid)
  {
    ScanDecimal(pid, "\n");
  }

  /** What the file system does on the way: whether the lock's directory
      exists or can be made, whether an exclusive create with nothing in the
      way succeeds, and whether writing and syncing the pid succeeds. */
  datatype LockEnv = LockEnv(dirReady: bool, createOk: bool, writeOk: bool)

  datatype LockResult = LockResult(code: int, files: Files)

  /** create_lock_file_with_pid, taken as one atomic step.  A lock whose
      owner is alive is refused and left alone; a stale or unreadable lock
      is removed and the creation retried once. */
  function CreateLock(files: Files, live: set<int>, lockFile: string, pid: int, env: LockEnv): (r: LockResult)
    ensures r.code == 0 || r.code == -1
    ensures r.code == 0 <==>
              ('/' !in lockFile || env.dirReady) && !LockHeld(files, live, lockFile) && env.createOk && env.writeOk
    ensures r.code == 0 ==> r.files == files[lockFile := LockContents(pid)]
    ensures LockHeld(files, live, lockFile) ==> r == LockResult(-1, files)
    ensures r.code == -1 ==> r.files == files || r.files == files - {lockFile}
  {
    if LastIndexOf(lockFile, '/').Some? && !env.dirReady then LockResult(-1, files)
    else if lockFile in files && LockHeld(files, live, lockFile) then LockResult(-1, files)
    else
      var cleared := files - {lockFile};
      if !env.createOk then LockResult(-1, cleared)
      else if !env.writeOk then LockResult(-1, cleared)
      else LockResult(0, files[lockFile := LockContents(pid)])
  }

  /** While the process that took the lock lives, nobody else gets it and
      the lock stays as written. */
  lemma LockExcludes(files: Files, live: set<int>, lockFile: string, pid: int, env: LockEnv, other: int, env2: LockEnv)
    requires CreateLock(files, live, lockFile, pid, env).code == 0
    requires pid in live
    ensures var held := CreateLock(files, live, lockFile, pid, env).files;
            CreateLock(held, live, lockFile, other, env2) == LockResult(-1, held)
  {
    StoredPidOfLock(pid);
  }

  /** A lock left by a dead process is taken over. */
  lemma StaleLockReclaimed(files: Files, live: set<int>, lockFile: string, dead: int, pid: int)
    requires lockFile in files && files[lockFile] == LockContents(dead)
    requires dead !in live
    ensures CreateLock(files, live, lockFile, pid, LockEnv(true, true, true))
            == LockResult(0, files[lockFile := LockContents(pid)])
  {
    StoredPidOfLock(dead);
  }

  /** cleanup_lock_file: unlink's result, so a missing lock gives -1. */
  function CleanupLock(files: Files, lockFile: string): (r: LockResult)
    ensures r.code == 0 <==> lockFile in files
    ensures r.code == 0 || r.code == -1
    ensures lockFile !in r.files && r.files == files - {lockFile}
  {
    if lockFile in files then LockResult(0, files - {lockFile}) else LockResult(-1, files)
  }

  /** Releasing a lock just taken leaves the rest of the file system as it
      was, minus any stale lock that was there. */
  lemma LockThenCleanup(files: Files, live: set<int>, lockFile: string, pid: int, env: LockEnv)
    requires CreateLock(files, live, lockFile, pid, env).code == 0
    ensures CleanupLock(CreateLock(files, live, lockFile, pid, env).files, lockFile) == LockResult(0, files - {lockFile})
  {
  }
}
