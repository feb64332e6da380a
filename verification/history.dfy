/** The daemon's command history: a ring of 50 timestamped commands with a
    one-hour lifetime, suppression of an immediate repeat, newest-first
    retrieval and a line-oriented text file for persistence. */
module History {
  import opened Text

  /** Ring size: the literal 50 of the duplicate check and of the load limit. */
  const CAPACITY: int := 50
  /** Longest command accepted is MAX_INPUT_LEN - 1 characters. */
  const MAX_INPUT_LEN: int := 4096
  const MAX_CONTEXT_LEN: int := 8192
  /** Entries older than this many seconds are dropped. */
  const TTL: int := 3600
  /** Size of the fgets line buffer used when loading. */
  const LOAD_LINE_SIZE: int := MAX_INPUT_LEN + 64

  /** One slot; an empty command marks a slot never written. */
  datatype Entry = Entry(command: string, timestamp: int)

  /** `slots` are the physical slots, `count` how many are in use and
      `currentIndex` the slot the next command goes to. */
  datatype Store = Store(slots: seq<Entry>, count: int, currentIndex: int)

  datatype Outcome = Outcome(code: int, store: Store)

  predicate Valid(s: Store)
  {
    |s.slots| == CAPACITY && 0 <= s.count <= CAPACITY && 0 <= s.currentIndex <= CAPACITY
  }

  /** The zeroed manager. */
  function EmptyStore(): (s: Store)
    ensures Valid(s) && s.count == 0
  {
    Store(seq(CAPACITY, _ => Entry("", 0)), 0, 0)
  }

  /** Slot of the most recently written command. */
  function LastSlot(currentIndex: int): int
  {
    (currentIndex - 1 + CAPACITY) % CAPACITY
  }

  /** The `count` entries in use, newest first: the order in which
      retrieval walks the ring. */
  function NewestFirst(s: Store): (r: seq<Entry>)
    requires Valid(s)
    ensures |r| == s.count
  {
    seq(s.count, i requires 0 <= i < s.count => s.slots[(s.currentIndex - 1 - i + CAPACITY) % CAPACITY])
  }

  /** The `count` entries in use, oldest first: the order of the file. */
  function OldestFirst(s: Store): (r: seq<Entry>)
    requires Valid(s)
    ensures |r| == s.count
  {
    seq(s.count, i requires 0 <= i < s.count => s.slots[(s.currentIndex - s.count + i + CAPACITY) % CAPACITY])
  }

  function Reverse<T>(xs: seq<T>): (r: seq<T>)
    ensures |r| == |xs|
    ensures forall i :: 0 <= i < |xs| ==> r[i] == xs[|xs| - 1 - i]
  {
    seq(|xs|, i requires 0 <= i < |xs| => xs[|xs| - 1 - i])
  }

  /** The file order is exactly the reverse of the retrieval order. */
  lemma SaveOrderReversesRetrieval(s: Store)
    requires Valid(s)
    ensures OldestFirst(s) == Reverse(NewestFirst(s))
  {
    var o := OldestFirst(s);
    var n := NewestFirst(s);
    forall j | 0 <= j < s.count
      ensures o[j] == n[s.count - 1 - j]
    {
      assert s.currentIndex - s.count + j == s.currentIndex - 1 - (s.count - 1 - j);
    }
  }

  // ---------------------------------------------------------------------
  // Expiry

  /** The entries of `xs` that are not older than `cutoff`, in order. */
  function Fresh(xs: seq<Entry>, cutoff: int): (r: seq<Entry>)
    ensures |r| <= |xs|
    ensures forall i :: 0 <= i < |r| ==> r[i].timestamp >= cutoff
  {
    if |xs| == 0 then []
    else Fresh(xs[..|xs| - 1], cutoff) + (if xs[|xs| - 1].timestamp >= cutoff then [xs[|xs| - 1]] else [])
  }

  /** An entry survives exactly when it is among the input and not older
      than the cutoff. */
  lemma {:induction false} FreshMembers(xs: seq<Entry>, cutoff: int)
    ensures forall e :: e in Fresh(xs, cutoff) <==> e in xs && e.timestamp >= cutoff
  {
    if |xs| > 0 {
      FreshMembers(xs[..|xs| - 1], cutoff);
      assert xs == xs[..|xs| - 1] + [xs[|xs| - 1]];
    }
  }

  lemma {:induction false} FreshOfFresh(xs: seq<Entry>, cutoff: int)
    requires forall i :: 0 <= i < |xs| ==> xs[i].timestamp >= cutoff
    ensures Fresh(xs, cutoff) == xs
  {
    if |xs| > 0 {
      FreshOfFresh(xs[..|xs| - 1], cutoff);
    }
  }

  lemma {:induction false} FreshAppend(xs: seq<Entry>, ys: seq<Entry>, cutoff: int)
    ensures Fresh(xs + ys, cutoff) == Fresh(xs, cutoff) + Fresh(ys, cutoff)
    decreases |ys|
  {
    if |ys| == 0 {
      assert xs + ys == xs;
    } else {
      assert (xs + ys)[..|xs + ys| - 1] == xs + ys[..|ys| - 1];
      FreshAppend(xs, ys[..|ys| - 1], cutoff);
    }
  }

  /** The first removal step of add_command_to_history: entries in the
      physical slots [0, count) older than `cutoff` are removed, the others
      move down keeping their order, the slots above keep their old
      contents and `currentIndex` is not adjusted. */
  function Compact(s: Store, cutoff: int): (r: Store)
    requires Valid(s)
    ensures Valid(r)
  {
    var kept := Fresh(s.slots[..s.count], cutoff);
    Store(kept + s.slots[|kept|..], |kept|, s.currentIndex)
  }

  function Expire(s: Store, now: int): (r: Store)
    requires Valid(s)
    ensures Valid(r)
  {
    Compact(s, now - TTL)
  }

  /** The in-place loop of add_command_to_history computes `Compact`:
      survivors shift down in their original order and the count drops by
      the number removed. */
  method CompactInPlace(s: Store, cutoff: int) returns (r: Store)
    requires Valid(s)
    ensures r == Compact(s, cutoff)
    ensures r.slots[..r.count] == Fresh(s.slots[..s.count], cutoff)
  {
    var xs := s.slots[..s.count];
    var slots := s.slots;
    var cleaned := 0;
    var i := 0;
    while i < s.count
      invariant 0 <= cleaned <= i <= s.count
      invariant |slots| == CAPACITY
      invariant slots[..i - cleaned] == Fresh(xs[..i], cutoff)
      invariant forall j :: i - cleaned <= j < CAPACITY ==> slots[j] == s.slots[j]
    {
      CompactStepKeeps(s, slots, i, cleaned, cutoff);
      var step := CompactStep(slots, i, cleaned, cutoff);
      slots, cleaned := step.0, step.1;
      i := i + 1;
    }
    assert xs[..i] == xs;
    r := Store(slots, s.count - cleaned, s.currentIndex);
    CompactLayout(s, slots, s.count - cleaned, cutoff);
  }

  /** One pass of the expiry loop at slot `i`: an expired entry is
      counted, a survivor is moved down over the expired ones before it. */
  function CompactStep(slots: seq<Entry>, i: int, cleaned: int, cutoff: int): (seq<Entry>, int)
    requires 0 <= cleaned <= i < |slots|
  {
    if slots[i].timestamp < cutoff then (slots, cleaned + 1)
    else if cleaned > 0 then (slots[i - cleaned := slots[i]], cleaned)
    else (slots, cleaned)
  }

  lemma CompactStepKeeps(s: Store, slots: seq<Entry>, i: int, cleaned: int, cutoff: int)
    requires Valid(s) && 0 <= cleaned <= i < s.count && |slots| == CAPACITY
    requires slots[..i - cleaned] == Fresh(s.slots[..s.count][..i], cutoff)
    requires forall j :: i - cleaned <= j < CAPACITY ==> slots[j] == s.slots[j]
    ensures var (t, c) := CompactStep(slots, i, cleaned, cutoff);
            && 0 <= c <= i + 1 && |t| == CAPACITY
            && t[..i + 1 - c] == Fresh(s.slots[..s.count][..i + 1], cutoff)
            && forall j :: i + 1 - c <= j < CAPACITY ==> t[j] == s.slots[j]
  {
    var xs := s.slots[..s.count];
    FreshStep(xs, i, cutoff);
    assert slots[i] == xs[i];
    if slots[i].timestamp >= cutoff {
      KeepSlot(slots, i - cleaned, slots[i]);
    }
  }

  /** Moving a survivor down to slot `w` extends the kept prefix by it and
      leaves the slots above `w` alone. */
  lemma KeepSlot(slots: seq<Entry>, w: int, x: Entry)
    requires 0 <= w < |slots|
    ensures var t := slots[w := x];
            t[..w + 1] == slots[..w] + [x] && forall j :: w < j < |slots| ==> t[j] == slots[j]
  {
  }

  /** Survivors in front of untouched slots make up the compacted store. */
  lemma CompactLayout(s: Store, slots: seq<Entry>, k: int, cutoff: int)
    requires Valid(s) && |slots| == CAPACITY && 0 <= k <= CAPACITY
    requires slots[..k] == Fresh(s.slots[..s.count], cutoff)
    requires forall j :: k <= j < CAPACITY ==> slots[j] == s.slots[j]
    ensures Store(slots, k, s.currentIndex) == Compact(s, cutoff)
  {
    assert slots == slots[..k] + s.slots[k..];
  }

  lemma FreshStep(xs: seq<Entry>, i: int, cutoff: int)
    requires 0 <= i < |xs|
    ensures Fresh(xs[..i + 1], cutoff) == Fresh(xs[..i], cutoff) + (if xs[i].timestamp >= cutoff then [xs[i]] else [])
  {
    assert xs[..i + 1][..i] == xs[..i];
  }

  // ---------------------------------------------------------------------
  // Adding a command

  function Insert(s: Store, command: string, now: int): (r: Store)
    requires Valid(s)
    ensures Valid(r)
  {
    Store(s.slots[s.currentIndex % CAPACITY := Entry(command, now)],
          if s.count < CAPACITY then s.count + 1 else s.count,
          (s.currentIndex + 1) % CAPACITY)
  }

  predicate Rejected(command: string)
  {
    |command| == 0 || |command| >= MAX_INPUT_LEN
  }

  /** The command repeats the one in the slot before `currentIndex`. */
  predicate IsRepeat(e: Store, command: string)
    requires Valid(e)
  {
    e.count > 0 && command == e.slots[LastSlot(e.currentIndex)].command
  }

  /** add_command_to_history as written: reject, expire, suppress a repeat
      of the slot before `currentIndex`, otherwise write the slot at
      `currentIndex`. */
  function Add(s: Store, command: string, now: int): (r: Outcome)
    requires Valid(s)
    ensures Valid(r.store)
    ensures r.code == -1 <==> Rejected(command)
    ensures r.code == -1 ==> r.store == s
    ensures r.code != -1 ==> r.code == 0
  {
    if Rejected(command) then Outcome(-1, s)
    else
      var e := Expire(s, now);
      if IsRepeat(e, command) then Outcome(0, e)
      else Outcome(0, Insert(e, command, now))
  }

  lemma LastSlotAfterInsert(ci: int)
    requires 0 <= ci <= CAPACITY
    ensures LastSlot((ci + 1) % CAPACITY) == ci % CAPACITY
  {
  }

  /** Expiry changes nothing when every entry in use is fresh. */
  lemma ExpireAllFresh(s: Store, now: int)
    requires Valid(s)
    requires forall i :: 0 <= i < s.count ==> s.slots[i].timestamp >= now - TTL
    ensures Expire(s, now) == s
  {
    FreshOfFresh(s.slots[..s.count], now - TTL);
    assert s.slots[..s.count] + s.slots[s.count..] == s.slots;
  }

  /** In a ring whose slots in use are [0, count) (filled from slot 0, or
      full) and hold fresh entries, adding the same command twice at the
      same instant leaves the store as the first call left it. */
  lemma AddRepeatIsSuppressed(s: Store, command: string, now: int)
    requires Valid(s)
    requires !Rejected(command)
    requires s.count == s.currentIndex || s.count == CAPACITY
    requires forall i :: 0 <= i < s.count ==> s.slots[i].timestamp >= now - TTL
    ensures var s1 := Add(s, command, now).store;
            Add(s1, command, now) == Outcome(0, s1)
  {
    ExpireAllFresh(s, now);
    if !IsRepeat(s, command) {
      var s1 := Insert(s, command, now);
      assert Add(s, command, now).store == s1;
      InsertStaysFresh(s, command, now);
      ExpireAllFresh(s1, now);
    }
  }

  /** Writing into a fresh ring laid out from slot 0 (or full) keeps its
      slots in use fresh and makes the command the one before the write
      position. */
  lemma InsertStaysFresh(s: Store, command: string, now: int)
    requires Valid(s)
    requires s.count == s.currentIndex || s.count == CAPACITY
    requires forall i :: 0 <= i < s.count ==> s.slots[i].timestamp >= now - TTL
    ensures var s1 := Insert(s, command, now);
            IsRepeat(s1, command) && forall i :: 0 <= i < s1.count ==> s1.slots[i].timestamp >= now - TTL
  {
    var s1 := Insert(s, command, now);
    var q := s.currentIndex % CAPACITY;
    LastSlotAfterInsert(s.currentIndex);
    assert s1.slots[q] == Entry(command, now);
    forall i | 0 <= i < s1.count
      ensures s1.slots[i].timestamp >= now - TTL
    {
      if i != q {
        assert s1.slots[i] == s.slots[i];
      }
    }
  }

  // ---------------------------------------------------------------------
  // Retrieval

  predicate Usable(e: Entry, cutoff: int)
  {
    |e.command| > 0 && e.timestamp >= cutoff
  }

  function Usables(xs: seq<Entry>, cutoff: int): (r: seq<string>)
    ensures |r| <= |xs|
  {
    if |xs| == 0 then []
    else Usables(xs[..|xs| - 1], cutoff) + (if Usable(xs[|xs| - 1], cutoff) then [xs[|xs| - 1].command] else [])
  }

  lemma {:induction false} UsablesPrefix(xs: seq<Entry>, i: nat, cutoff: int)
    requires i <= |xs|
    ensures Usables(xs[..i], cutoff) <= Usables(xs, cutoff)
    decreases |xs| - i
  {
    if i < |xs| {
      UsablesPrefix(xs, i + 1, cutoff);
      assert xs[..i + 1][..i] == xs[..i];
    } else {
      assert xs[..i] == xs;
    }
  }

  function Take<T>(xs: seq<T>, n: int): (r: seq<T>)
    ensures |r| == if n <= 0 then 0 else Min(n, |xs|)
  {
    if n <= 0 then [] else if n >= |xs| then xs else xs[..n]
  }

  function RetrievalCutoff(now: int, maxAge: int): int
  {
    if maxAge > 0 then now - maxAge else 0
  }

  /** What retrieval selects: newest first, at most `n` non-empty entries
      not older than the cutoff. */
  function Selection(s: Store, n: int, cutoff: int): seq<string>
    requires Valid(s)
  {
    Take(Usables(NewestFirst(s), cutoff), n)
  }

  /** How much of the joined text fits when the writer believes the buffer
      holds `cap` bytes: the first command may fill cap-1 bytes; every later
      ", cmd" is written with size cap-len-1 and so stops at cap-2. */
  function TextLimit(sel: seq<string>, cap: int): int
  {
    if |sel| > 0 && |sel[0]| >= cap - 1 then cap - 1 else cap - 2
  }

  function RecentText(sel: seq<string>, cap: int): string
  {
    Prefix(Join(sel, ", "), TextLimit(sel, cap))
  }

  lemma PrefixAppendShort(a: string, b: string, n: int)
    requires |a| <= n
    ensures Prefix(a + b, n) == a + Prefix(b, n - |a|)
  {
  }

  lemma PrefixAppendLong(a: string, b: string, n: int)
    requires 0 <= n <= |a|
    ensures Prefix(a + b, n) == Prefix(a, n)
  {
  }

  /** get_recent_commands: -1 for a non-positive `n`; otherwise the number
      of entries selected and their text joined by ", ", cut where a
      buffer of `cap` bytes ends. */
  method GetRecent(s: Store, n: int, maxAge: int, now: int, cap: int) returns (found: int, text: string)
    requires Valid(s)
    requires cap >= 2
    ensures n <= 0 ==> found == -1 && text == ""
    ensures n > 0 ==> 0 <= found <= n && found <= s.count
    ensures n > 0 ==> found == |Selection(s, n, RetrievalCutoff(now, maxAge))|
    ensures n > 0 ==> text == RecentText(Selection(s, n, RetrievalCutoff(now, maxAge)), cap)
    ensures |text| < cap
  {
    if n <= 0 {
      return -1, "";
    }
    found, text := ScanRecent(NewestFirst(s), n, RetrievalCutoff(now, maxAge), cap);
    RecentTextShort(Selection(s, n, RetrievalCutoff(now, maxAge)), cap);
  }

  /** The loop of get_recent_commands over the ring walked newest first
      (slot (currentIndex - 1 - i + 50) % 50 at step i). */
  method ScanRecent(nf: seq<Entry>, n: int, cutoff: int, cap: int) returns (found: int, text: string)
    requires n > 0 && cap >= 2
    ensures found == |Take(Usables(nf, cutoff), n)| && text == RecentText(Take(Usables(nf, cutoff), n), cap)
  {
    text := "";
    found := 0;
    var taken: seq<string> := [];
    var i := 0;
    while i < |nf| && found < n
      invariant 0 <= i <= |nf|
      invariant taken == Usables(nf[..i], cutoff)
      invariant found == |taken| <= n
      invariant text == RecentText(taken, cap)
    {
      var e := nf[i];
      UsablesStep(nf, i, cutoff);
      if Usable(e, cutoff) {
        RecentTextStep(taken, e.command, cap);
        text := AppendRecent(text, found, e.command, cap);
        assert text == RecentText(taken + [e.command], cap);
        taken := taken + [e.command];
        found := found + 1;
      }
      i := i + 1;
    }
    SelectionAtExit(nf, i, n, cutoff);
  }

  lemma NewestFirstAt(s: Store, i: int)
    requires Valid(s) && 0 <= i < s.count
    ensures NewestFirst(s)[i] == s.slots[(s.currentIndex - 1 - i + CAPACITY) % CAPACITY]
  {
  }

  lemma UsablesStep(xs: seq<Entry>, i: int, cutoff: int)
    requires 0 <= i < |xs|
    ensures Usables(xs[..i + 1], cutoff) == Usables(xs[..i], cutoff) + (if Usable(xs[i], cutoff) then [xs[i].command] else [])
  {
    assert xs[..i + 1][..i] == xs[..i];
  }

  /** One pass of the snprintf pair: the first command is written with the
      whole size, every later ", cmd" with the space left minus one. */
  function AppendRecent(text: string, found: int, c: string, cap: int): string
  {
    if found > 0 then
      var remaining := cap - |text| - 1;
      if remaining > 0 then text + Prefix(", " + c, remaining - 1) else text
    else Prefix(c, cap - 1)
  }

  lemma RecentTextStep(taken: seq<string>, c: string, cap: int)
    requires cap >= 2
    ensures RecentText(taken + [c], cap) == AppendRecent(RecentText(taken, cap), |taken|, c, cap)
  {
    if |taken| > 0 {
      AppendStep(taken, c, cap);
    } else {
      assert taken + [c] == [c];
      FirstStep(c, cap);
    }
  }

  lemma RecentTextShort(sel: seq<string>, cap: int)
    requires cap >= 2
    ensures |RecentText(sel, cap)| < cap
  {
  }

  lemma FirstStep(c: string, cap: int)
    requires cap >= 2
    ensures RecentText([c], cap) == Prefix(c, cap - 1)
  {
    assert Join([c], ", ") == c;
  }

  /** When the scan stops, the entries taken are the selection. */
  lemma SelectionAtExit(xs: seq<Entry>, i: int, n: int, cutoff: int)
    requires 0 <= i <= |xs| && n > 0
    requires |Usables(xs[..i], cutoff)| <= n
    requires i == |xs| || |Usables(xs[..i], cutoff)| == n
    ensures Usables(xs[..i], cutoff) == Take(Usables(xs, cutoff), n)
  {
    UsablesPrefix(xs, i, cutoff);
    if i == |xs| {
      assert xs[..i] == xs;
    }
  }

  lemma AppendStep(taken: seq<string>, c: string, cap: int)
    requires |taken| > 0 && cap >= 2
    ensures var t := RecentText(taken, cap);
            var remaining := cap - |t| - 1;
            RecentText(taken + [c], cap) == if remaining > 0 then t + Prefix(", " + c, remaining - 1) else t
  {
    var j := Join(taken, ", ");
    JoinStartsWithFirst(taken, ", ");
    assert (taken + [c])[..|taken|] == taken;
    assert Join(taken + [c], ", ") == j + (", " + c);
    assert (taken + [c])[0] == taken[0];
    var lim := TextLimit(taken, cap);
    assert TextLimit(taken + [c], cap) == lim;
    if |j| <= lim {
      PrefixAppendShort(j, ", " + c, lim);
      if lim == cap - 1 {
        assert |j| == cap - 1;
      }
    } else {
      PrefixAppendLong(j, ", " + c, lim);
    }
  }

  /** A command that the add inserts is the first thing retrieval returns. */
  lemma RetrievalSeesInsert(s: Store, command: string, now: int, maxAge: int)
    requires Valid(s)
    requires now >= 0
    requires !Rejected(command) && !IsRepeat(Expire(s, now), command)
    ensures var r := Add(s, command, now).store;
            Selection(r, 1, RetrievalCutoff(now, maxAge)) == [command]
  {
    var e := Expire(s, now);
    var r := Add(s, command, now).store;
    assert r == Insert(e, command, now);
    var cutoff := RetrievalCutoff(now, maxAge);
    var nf := NewestFirst(r);
    LastSlotAfterInsert(e.currentIndex);
    assert nf[0] == r.slots[e.currentIndex % CAPACITY] == Entry(command, now);
    assert nf[..1] == [nf[0]];
    assert Usables(nf[..1], cutoff) == [command] by {
      assert nf[..1][..0] == [];
    }
    UsablesPrefix(nf, 1, cutoff);
  }

  // ---------------------------------------------------------------------
  // The corrected add: expiry that keeps the ring consistent

  /** The newest `CAPACITY` entries of `xs`. */
  function LastCapacity(xs: seq<Entry>): seq<Entry>
  {
    if |xs| > CAPACITY then xs[|xs| - CAPACITY..] else xs
  }

  /** Expiry as evidently intended: the survivors, taken in chronological
      order, are laid out from slot 0 and the write position follows them. */
  function ExpireFixed(s: Store, now: int): (r: Store)
    requires Valid(s)
    ensures Valid(r)
  {
    var kept := Fresh(OldestFirst(s), now - TTL);
    Store(kept + s.slots[|kept|..], |kept|, |kept|)
  }

  function AddFixed(s: Store, command: string, now: int): (r: Outcome)
    requires Valid(s)
    ensures Valid(r.store)
  {
    if Rejected(command) then Outcome(-1, s)
    else
      var e := ExpireFixed(s, now);
      if e.count > 0 && command == e.slots[LastSlot(e.currentIndex)].command then Outcome(0, e)
      else Outcome(0, Insert(e, command, now))
  }

  /** After the corrected expiry the history reads as the fresh entries in
      chronological order. */
  lemma ExpireFixedChronology(s: Store, now: int)
    requires Valid(s)
    ensures var e := ExpireFixed(s, now);
            OldestFirst(e) == Fresh(OldestFirst(s), now - TTL) && e.currentIndex == e.count
  {
    var f := Fresh(OldestFirst(s), now - TTL);
    var e := ExpireFixed(s, now);
    var k := |f|;
    forall i | 0 <= i < k
      ensures OldestFirst(e)[i] == f[i]
    {
      assert (k - k + i + CAPACITY) % CAPACITY == i;
    }
  }

  /** Writing into a ring laid out from slot 0 appends to its chronology,
      dropping the oldest entry when the ring was full. */
  lemma InsertChronology(e: Store, command: string, now: int)
    requires Valid(e) && e.currentIndex == e.count
    ensures OldestFirst(Insert(e, command, now)) == LastCapacity(OldestFirst(e) + [Entry(command, now)])
  {
    if e.count < CAPACITY {
      InsertNotFull(e, command, now);
    } else {
      InsertFull(e, command, now);
    }
  }

  lemma InsertNotFull(e: Store, command: string, now: int)
    requires Valid(e) && e.currentIndex == e.count < CAPACITY
    ensures OldestFirst(Insert(e, command, now)) == OldestFirst(e) + [Entry(command, now)]
  {
    var k := e.count;
    var r := Insert(e, command, now);
    var g := OldestFirst(e) + [Entry(command, now)];
    assert r.count == k + 1 && r.currentIndex == (k + 1) % CAPACITY;
    forall i | 0 <= i < k + 1
      ensures OldestFirst(r)[i] == g[i]
    {
      assert (r.currentIndex - r.count + i + CAPACITY) % CAPACITY == i;
      assert (k - k + i + CAPACITY) % CAPACITY == i;
    }
  }

  lemma InsertFull(e: Store, command: string, now: int)
    requires Valid(e) && e.currentIndex == e.count == CAPACITY
    ensures OldestFirst(Insert(e, command, now)) == (OldestFirst(e) + [Entry(command, now)])[1..]
  {
    var r := Insert(e, command, now);
    var g := OldestFirst(e) + [Entry(command, now)];
    assert r.count == CAPACITY && r.currentIndex == 1;
    forall i | 0 <= i < CAPACITY
      ensures OldestFirst(r)[i] == g[i + 1]
    {
      assert (1 - CAPACITY + i + CAPACITY) % CAPACITY == (i + 1) % CAPACITY;
      assert (CAPACITY - CAPACITY + i + 1 + CAPACITY) % CAPACITY == (i + 1) % CAPACITY;
    }
  }

  /** The corrected add keeps the history a chronological list: expired
      entries go, a repeat of the newest survivor is skipped, otherwise the
      command is appended and the oldest entry falls out beyond 50. */
  lemma AddFixedChronology(s: Store, command: string, now: int)
    requires Valid(s)
    requires !Rejected(command)
    ensures var f := Fresh(OldestFirst(s), now - TTL);
            var r := AddFixed(s, command, now);
            r.code == 0 &&
            OldestFirst(r.store) ==
              if |f| > 0 && f[|f| - 1].command == command then f
              else LastCapacity(f + [Entry(command, now)])
  {
    var e := ExpireFixed(s, now);
    ExpireFixedChronology(s, now);
    if e.count > 0 {
      LastOfLaidOut(e);
    }
    assert AddFixed(s, command, now) == if IsRepeat(e, command) then Outcome(0, e) else Outcome(0, Insert(e, command, now));
    if !IsRepeat(e, command) {
      InsertChronology(e, command, now);
    }
  }

  /** In a ring laid out from slot 0, the slot before the write position
      holds the newest entry. */
  lemma LastOfLaidOut(e: Store)
    requires Valid(e) && 0 < e.count && e.currentIndex == e.count
    ensures e.slots[LastSlot(e.currentIndex)] == OldestFirst(e)[e.count - 1]
  {
    assert LastSlot(e.currentIndex) == e.count - 1;
    assert (e.count - e.count + (e.count - 1) + CAPACITY) % CAPACITY == e.count - 1;
  }

  /** After the corrected add the newest entry holds the command, written
      within the last hour (a skipped repeat keeps its earlier time). */
  lemma AddFixedNewest(s: Store, command: string, now: int)
    requires Valid(s) && !Rejected(command)
    ensures var r := AddFixed(s, command, now).store;
            r.count > 0 && NewestFirst(r)[0].command == command && NewestFirst(r)[0].timestamp >= now - TTL
  {
    var r := AddFixed(s, command, now).store;
    var f := Fresh(OldestFirst(s), now - TTL);
    AddFixedChronology(s, command, now);
    ChronologyEndsWith(f, command, now);
    var o := OldestFirst(r);
    assert |o| > 0 && o[|o| - 1].command == command && o[|o| - 1].timestamp >= now - TTL;
    SaveOrderReversesRetrieval(r);
    ReverseFirst(NewestFirst(r), o);
  }

  lemma ReverseFirst<T>(n: seq<T>, o: seq<T>)
    requires o == Reverse(n) && |o| > 0
    ensures |n| > 0 && n[0] == o[|o| - 1]
  {
  }

  /** Right after the corrected add, retrieval over the last hour or more
      returns the command first. */
  lemma RetrievalSeesAddFixed(s: Store, command: string, now: int, n: int, maxAge: int)
    requires Valid(s) && !Rejected(command)
    requires n >= 1 && maxAge >= TTL
    ensures var sel := Selection(AddFixed(s, command, now).store, n, RetrievalCutoff(now, maxAge));
            |sel| > 0 && sel[0] == command
  {
    var r := AddFixed(s, command, now).store;
    var cutoff := RetrievalCutoff(now, maxAge);
    AddFixedNewest(s, command, now);
    var nf := NewestFirst(r);
    assert nf[..1] == [nf[0]];
    assert Usables(nf[..1], cutoff) == [command] by {
      assert nf[..1][..0] == [];
    }
    UsablesPrefix(nf, 1, cutoff);
  }

  /** With the corrected add, a repeat at the same instant leaves the
      history as it was. */
  lemma AddFixedRepeatIsSuppressed(s: Store, command: string, now: int)
    requires Valid(s)
    requires !Rejected(command)
    ensures var s1 := AddFixed(s, command, now).store;
            OldestFirst(AddFixed(s1, command, now).store) == OldestFirst(s1)
  {
    var s1 := AddFixed(s, command, now).store;
    var f := Fresh(OldestFirst(s), now - TTL);
    AddFixedChronology(s, command, now);
    ChronologyEndsWith(f, command, now);
    var h := OldestFirst(s1);
    FreshOfFresh(h, now - TTL);
    AddFixedChronology(s1, command, now);
  }

  /** The chronology after a corrected add of a fresh history ends with
      the command, and every entry in it is fresh. */
  lemma ChronologyEndsWith(f: seq<Entry>, command: string, now: int)
    requires forall i :: 0 <= i < |f| ==> f[i].timestamp >= now - TTL
    ensures var h := if |f| > 0 && f[|f| - 1].command == command then f
                     else LastCapacity(f + [Entry(command, now)]);
            |h| > 0 && h[|h| - 1].command == command &&
            forall i :: 0 <= i < |h| ==> h[i].timestamp >= now - TTL
  {
    if !(|f| > 0 && f[|f| - 1].command == command) {
      var g := f + [Entry(command, now)];
      var h := LastCapacity(g);
      forall i | 0 <= i < |h| ensures h[i].timestamp >= now - TTL {
        var j := if |g| > CAPACITY then i + |g| - CAPACITY else i;
        assert h[i] == g[j];
      }
    }
  }

  /** The store of the counterexample below: "a" (expired an hour later),
      "b" and "c" in slots 0..2, written from slot 0. */
  function ThreeEntryStore(): (s: Store)
    ensures Valid(s)
  {
    Store([Entry("a", 0), Entry("b", 4000), Entry("c", 4000)] + seq(CAPACITY - 3, _ => Entry("", 0)), 3, 3)
  }

  lemma ThreeEntryExpire()
    ensures var s := ThreeEntryStore();
            Expire(s, 4000) == Store([Entry("b", 4000), Entry("c", 4000)] + s.slots[2..], 2, 3)
  {
    var a, b, c := Entry("a", 0), Entry("b", 4000), Entry("c", 4000);
    var s := ThreeEntryStore();
    var xs := s.slots[..3];
    assert xs == [a, b, c];
    FreshDropsFirst(a, b, c, 400);
  }

  /** The discrepancy: adding "d" at time 4000, when "a" is over an hour
      old, leaves the ring reading
      "c", "c", "d": "b" is lost and "c" appears twice, where the
      chronological list is "b", "c", "d". */
  lemma AddAsWrittenDuplicatesAfterExpiry()
    ensures OldestFirst(Add(ThreeEntryStore(), "d", 4000).store) == [Entry("c", 4000), Entry("c", 4000), Entry("d", 4000)]
    ensures OldestFirst(AddFixed(ThreeEntryStore(), "d", 4000).store) == [Entry("b", 4000), Entry("c", 4000), Entry("d", 4000)]
  {
    var b, c, d := Entry("b", 4000), Entry("c", 4000), Entry("d", 4000);
    var s := ThreeEntryStore();
    ThreeEntryExpire();
    var e := Expire(s, 4000);
    assert e.slots[2] == c;
    assert e.slots[LastSlot(3)] == c;
    assert !IsRepeat(e, "d");
    var r := Add(s, "d", 4000).store;
    assert r == Insert(e, "d", 4000);
    assert r.slots[1] == c && r.slots[2] == c && r.slots[3] == d;
    assert r.count == 3 && r.currentIndex == 4;
    assert OldestFirst(r) == [c, c, d];
    AddFixedCounterexample();
  }

  lemma ThreeEntryChronology()
    ensures OldestFirst(ThreeEntryStore()) == [Entry("a", 0), Entry("b", 4000), Entry("c", 4000)]
  {
    var s := ThreeEntryStore();
    assert s.slots[0] == Entry("a", 0) && s.slots[1] == Entry("b", 4000) && s.slots[2] == Entry("c", 4000);
  }

  lemma AddFixedCounterexample()
    ensures OldestFirst(AddFixed(ThreeEntryStore(), "d", 4000).store) == [Entry("b", 4000), Entry("c", 4000), Entry("d", 4000)]
  {
    var a, b, c := Entry("a", 0), Entry("b", 4000), Entry("c", 4000);
    var s := ThreeEntryStore();
    ThreeEntryChronology();
    FreshDropsFirst(a, b, c, 4000 - TTL);
    AddFixedChronology(s, "d", 4000);
  }

  /** Of three entries of which only the first is older than the cutoff,
      the last two are fresh. */
  lemma FreshDropsFirst(a: Entry, b: Entry, c: Entry, cutoff: int)
    requires a.timestamp < cutoff <= b.timestamp && cutoff <= c.timestamp
    ensures Fresh([a, b, c], cutoff) == [b, c]
  {
    assert [a, b, c][..2] == [a, b] && [a, b][..1] == [a] && [a][..0] == [];
    assert Fresh([a], cutoff) == [];
    assert Fresh([a, b], cutoff) == [b];
  }

  // ---------------------------------------------------------------------
  // Persistence

  /** One file line: "<timestamp> <command>\n". */
  function SaveLine(e: Entry): string
  {
    Decimal(e.timestamp) + " " + e.command + "\n"
  }

  function SaveLines(xs: seq<Entry>): (r: seq<string>)
    ensures |r| == |xs|
    ensures forall i :: 0 <= i < |xs| ==> r[i] == SaveLine(xs[i])
  {
    seq(|xs|, i requires 0 <= i < |xs| => SaveLine(xs[i]))
  }

  /** save_command_history: nothing is written while the store is empty;
      otherwise the count line and one line per entry, oldest first. */
  function Save(s: Store): (r: Option<string>)
    requires Valid(s)
    ensures r.None? <==> s.count == 0
  {
    if s.count == 0 then None
    else Some(Decimal(s.count) + "\n" + Concat(SaveLines(OldestFirst(s))))
  }

  /** fscanf("%d\n"): the header value and the text after it, with all
      white space that follows the number skipped. */
  function ScanHeader(text: string): Option<(int, string)>
  {
    match ScanInt(text)
    case None => None
    case Some(p) => Some((p.0, text[SkipSpaces(text, p.1)..]))
  }

  /** Length of the run, starting at `k`, of characters the scanset
      accepts.  As written (`%[^\\n]`) the scanset stops at a backslash or
      the letter 'n'; the corrected scanset stops at a newline. */
  function ScanRun(line: string, k: nat, fixed: bool): (n: nat)
    requires k <= |line|
    ensures k + n <= |line|
    decreases |line| - k
  {
    if k == |line| then 0
    else if (if fixed then line[k] == '\n' else line[k] == '\\' || line[k] == 'n') then 0
    else 1 + ScanRun(line, k + 1, fixed)
  }

  /** sscanf(line, "%ld %[...]", &ts, command) == 2 and the command kept
      after snprintf into MAX_INPUT_LEN bytes. */
  function ParseLine(line: string, fixed: bool): Option<Entry>
  {
    match ScanInt(line)
    case None => None
    case Some(p) =>
      var k := SkipSpaces(line, p.1);
      var n := ScanRun(line, k, fixed);
      if n == 0 then None
      else Some(Entry(Prefix(line[k..k + n], MAX_INPUT_LEN - 1), p.0))
  }

  /** The load loop: parsed, fresh lines are kept until `room` entries are in. */
  function LoadEntries(lines: seq<string>, room: int, cutoff: int, fixed: bool): (r: seq<Entry>)
    ensures |r| <= Max(room, 0)
    ensures forall i :: 0 <= i < |r| ==> r[i].timestamp >= cutoff
    decreases |lines|
  {
    if |lines| == 0 || room <= 0 then []
    else
      match ParseLine(lines[0], fixed)
      case Some(e) =>
        if e.timestamp >= cutoff then [e] + LoadEntries(lines[1..], room - 1, cutoff, fixed)
        else LoadEntries(lines[1..], room, cutoff, fixed)
      case None => LoadEntries(lines[1..], room, cutoff, fixed)
  }

  /** The entries the lines parse to, in file order. */
  function ParsedLines(lines: seq<string>, fixed: bool): (r: seq<Entry>)
    ensures |r| <= |lines|
    decreases |lines|
  {
    if |lines| == 0 then []
    else
      match ParseLine(lines[0], fixed)
      case Some(e) => [e] + ParsedLines(lines[1..], fixed)
      case None => ParsedLines(lines[1..], fixed)
  }

  lemma FreshCons(e: Entry, ys: seq<Entry>, cutoff: int)
    ensures Fresh([e] + ys, cutoff) == (if e.timestamp >= cutoff then [e] else []) + Fresh(ys, cutoff)
  {
    FreshAppend([e], ys, cutoff);
    assert [e][..0] == [];
  }

  /** The load loop keeps, in file order, the first `room` of the fresh
      entries the lines parse to. */
  lemma {:induction false} LoadEntriesTakesFresh(lines: seq<string>, room: int, cutoff: int, fixed: bool)
    ensures LoadEntries(lines, room, cutoff, fixed) == Take(Fresh(ParsedLines(lines, fixed), cutoff), room)
    decreases |lines|
  {
    if |lines| == 0 || room <= 0 {
      LoadNothing(lines, room, cutoff, fixed);
    } else {
      var p := FirstLine(lines, room, cutoff, fixed);
      var tl := lines[1..];
      var kept := p.Some? && p.value.timestamp >= cutoff;
      var tailRoom := if kept then room - 1 else room;
      LoadEntriesTakesFresh(tl, tailRoom, cutoff, fixed);
      LoadTurn(p, room, cutoff, LoadEntries(lines, room, cutoff, fixed), ParsedLines(lines, fixed),
               LoadEntries(tl, tailRoom, cutoff, fixed), ParsedLines(tl, fixed));
    }
  }

  /** One turn of the load loop in terms of what it loads (`loaded`) and
      what the lines parse to (`parsed`), given the same for the remaining
      lines. */
  lemma LoadTurn(p: Option<Entry>, room: int, cutoff: int, loaded: seq<Entry>, parsed: seq<Entry>, restLoaded: seq<Entry>, restParsed: seq<Entry>)
    requires room > 0
    requires parsed == (if p.Some? then [p.value] else []) + restParsed
    requires p.Some? && p.value.timestamp >= cutoff ==>
               loaded == [p.value] + restLoaded && restLoaded == Take(Fresh(restParsed, cutoff), room - 1)
    requires !(p.Some? && p.value.timestamp >= cutoff) ==>
               loaded == restLoaded && restLoaded == Take(Fresh(restParsed, cutoff), room)
    ensures loaded == Take(Fresh(parsed, cutoff), room)
  {
    if p.Some? && p.value.timestamp >= cutoff {
      KeepFirst(p.value, restLoaded, restParsed, room, cutoff);
    } else {
      SkipFirst(p, restParsed, cutoff);
    }
  }

  lemma LoadNothing(lines: seq<string>, room: int, cutoff: int, fixed: bool)
    requires |lines| == 0 || room <= 0
    ensures LoadEntries(lines, room, cutoff, fixed) == [] == Take(Fresh(ParsedLines(lines, fixed), cutoff), room)
  {
    if |lines| == 0 {
      assert ParsedLines(lines, fixed) == [];
    }
  }

  lemma KeepFirst(e: Entry, loaded: seq<Entry>, parsed: seq<Entry>, room: int, cutoff: int)
    requires room > 0 && e.timestamp >= cutoff
    requires loaded == Take(Fresh(parsed, cutoff), room - 1)
    ensures [e] + loaded == Take(Fresh([e] + parsed, cutoff), room)
  {
    FreshCons(e, parsed, cutoff);
    TakeCons(e, Fresh(parsed, cutoff), room);
  }

  lemma SkipFirst(p: Option<Entry>, parsed: seq<Entry>, cutoff: int)
    requires p.None? || p.value.timestamp < cutoff
    ensures Fresh((if p.Some? then [p.value] else []) + parsed, cutoff) == Fresh(parsed, cutoff)
  {
    if p.Some? {
      FreshCons(p.value, parsed, cutoff);
    } else {
      assert [] + parsed == parsed;
    }
  }

  /** One turn of the load loop: the first line's entry is kept when it
      parses and is fresh, and skipped otherwise. */
  lemma FirstLine(lines: seq<string>, room: int, cutoff: int, fixed: bool) returns (p: Option<Entry>)
    requires |lines| > 0 && room > 0
    ensures p.Some? && p.value.timestamp >= cutoff ==>
              LoadEntries(lines, room, cutoff, fixed) == [p.value] + LoadEntries(lines[1..], room - 1, cutoff, fixed)
    ensures !(p.Some? && p.value.timestamp >= cutoff) ==>
              LoadEntries(lines, room, cutoff, fixed) == LoadEntries(lines[1..], room, cutoff, fixed)
    ensures ParsedLines(lines, fixed) == (if p.Some? then [p.value] else []) + ParsedLines(lines[1..], fixed)
  {
    p := ParseLine(lines[0], fixed);
    if p.None? {
      assert [] + ParsedLines(lines[1..], fixed) == ParsedLines(lines[1..], fixed);
    }
  }

  lemma TakeCons<T>(x: T, xs: seq<T>, n: int)
    requires n >= 1
    ensures Take([x] + xs, n) == [x] + Take(xs, n - 1)
  {
    if n - 1 < |xs| {
      assert ([x] + xs)[..n] == [x] + xs[..n - 1];
    }
  }

  /** load_command_history over the file's contents (`None`: no file). */
  function LoadWith(file: Option<string>, now: int, s: Store, fixed: bool): (r: Outcome)
    requires Valid(s)
    ensures Valid(r.store)
    ensures file.None? ==> r == Outcome(0, s)
    ensures file.Some? && ScanHeader(file.value).None? ==> r == Outcome(-1, s)
    ensures r.code >= 0 && file.Some? ==> r.code == r.store.count == r.store.currentIndex
    ensures r.code >= 0 && file.Some? ==> r.store.count <= Max(0, ScanHeader(file.value).value.0)
    ensures r.code >= 0 && file.Some? ==> forall i :: 0 <= i < r.store.count ==> r.store.slots[i].timestamp >= now - TTL
    ensures r.code >= 0 && file.Some? ==>
              var h := ScanHeader(file.value).value;
              r.store.slots[..r.store.count] == Take(Fresh(ParsedLines(FgetsChunks(h.1, LOAD_LINE_SIZE), fixed), now - TTL), Min(h.0, CAPACITY))
  {
    match file
    case None => Outcome(0, s)
    case Some(text) =>
      match ScanHeader(text)
      case None => Outcome(-1, s)
      case Some(h) =>
        var limit := Min(h.0, CAPACITY);
        var loaded := LoadEntries(FgetsChunks(h.1, LOAD_LINE_SIZE), limit, now - TTL, fixed);
        LoadEntriesTakesFresh(FgetsChunks(h.1, LOAD_LINE_SIZE), limit, now - TTL, fixed);
        assert (loaded + s.slots[|loaded|..])[..|loaded|] == loaded;
        Outcome(|loaded|, Store(loaded + s.slots[|loaded|..], |loaded|, |loaded|))
  }

  /** As written. */
  function Load(file: Option<string>, now: int, s: Store): (r: Outcome)
    requires Valid(s)
    ensures Valid(r.store)
  {
    LoadWith(file, now, s, false)
  }

  /** With the scanset corrected to stop at a newline. */
  function LoadFixed(file: Option<string>, now: int, s: Store): (r: Outcome)
    requires Valid(s)
    ensures Valid(r.store)
  {
    LoadWith(file, now, s, true)
  }

  /** A command the history can save and read back unchanged. */
  predicate Restorable(e: Entry, now: int)
  {
    && |e.command| > 0
    && |e.command| < MAX_INPUT_LEN
    && !IsSpace(e.command[0])
    && '\n' !in e.command
    && |SaveLine(e)| <= LOAD_LINE_SIZE - 1
    && e.timestamp >= now - TTL
  }

  /** The timestamp of a saved line scans back. */
  lemma SaveLineScan(e: Entry)
    ensures ScanInt(SaveLine(e)) == Some((e.timestamp, |Decimal(e.timestamp)|))
  {
    var rest := " " + e.command + "\n";
    assert SaveLine(e) == Decimal(e.timestamp) + rest;
    ScanDecimal(e.timestamp, rest);
  }

  /** The command of a saved line starts after the single space. */
  lemma SaveLineSkip(e: Entry)
    requires |e.command| > 0 && !IsSpace(e.command[0])
    ensures SkipSpaces(SaveLine(e), |Decimal(e.timestamp)|) == |Decimal(e.timestamp)| + 1
    ensures SaveLine(e)[|Decimal(e.timestamp)| + 1..] == e.command + "\n"
  {
    var line := SaveLine(e);
    var d := Decimal(e.timestamp);
    assert line == d + (" " + e.command + "\n");
    assert line[|d|] == ' ';
    assert line[|d| + 1] == e.command[0];
    assert SkipSpaces(line, |d| + 1) == |d| + 1;
  }

  lemma ParseSaveLine(e: Entry, fixed: bool)
    requires |e.command| > 0 && |e.command| < MAX_INPUT_LEN && !IsSpace(e.command[0]) && '\n' !in e.command
    requires !fixed ==> '\\' !in e.command && 'n' !in e.command && |e.command| < MAX_INPUT_LEN - 1
    ensures ParseLine(SaveLine(e), fixed) ==
      Some(Entry(if fixed then e.command else e.command + "\n", e.timestamp))
  {
    SaveLineScan(e);
    SaveLineSkip(e);
    var k := |Decimal(e.timestamp)| + 1;
    var w := if fixed then e.command else e.command + "\n";
    CommandRun(SaveLine(e), k, e.command, fixed);
    assert SaveLine(e)[k..k + |w|] == w;
    ParsedAs(SaveLine(e), e.timestamp, |Decimal(e.timestamp)|, k, w, fixed);
  }

  /** A line whose number, spaces and run are known parses to them. */
  lemma ParsedAs(line: string, t: int, d: nat, k: nat, w: string, fixed: bool)
    requires ScanInt(line) == Some((t, d)) && SkipSpaces(line, d) == k
    requires 0 < |w| <= MAX_INPUT_LEN - 1 && ScanRun(line, k, fixed) == |w|
    requires k + |w| <= |line| && line[k..k + |w|] == w
    ensures ParseLine(line, fixed) == Some(Entry(w, t))
  {
    assert Prefix(w, MAX_INPUT_LEN - 1) == w;
  }

  /** The scan after the space stops at the newline (corrected) or runs
      over it to the end of the line (as written). */
  lemma CommandRun(line: string, k: nat, c: string, fixed: bool)
    requires k <= |line| && line[k..] == c + "\n" && '\n' !in c
    requires !fixed ==> '\\' !in c && 'n' !in c
    ensures ScanRun(line, k, fixed) == if fixed then |c| else |c| + 1
  {
    if fixed {
      assert line[k..k + |c|] == c;
      assert line[k + |c|] == '\n';
      ScanRunStops(line, k, c, true);
    } else {
      assert line[k..k + |c| + 1] == c + "\n";
      assert k + |c| + 1 == |line|;
      ScanRunStops(line, k, c + "\n", false);
    }
  }

  lemma {:induction false} ScanRunStops(line: string, k: nat, w: string, fixed: bool)
    requires k + |w| <= |line| && line[k..k + |w|] == w
    requires forall i :: 0 <= i < |w| ==> (if fixed then w[i] != '\n' else w[i] != '\\' && w[i] != 'n')
    requires k + |w| == |line| || (if fixed then line[k + |w|] == '\n' else line[k + |w|] == '\\' || line[k + |w|] == 'n')
    ensures ScanRun(line, k, fixed) == |w|
    decreases |w|
  {
    if |w| > 0 {
      assert line[k] == w[0];
      assert line[k + 1..k + 1 + |w[1..]|] == w[1..];
      ScanRunStops(line, k + 1, w[1..], fixed);
    }
  }

  /** What load reads from the file save writes: the header gives the
      count and fgets returns the saved lines one by one. */
  lemma SaveFileParts(s: Store, now: int)
    requires Valid(s) && s.count > 0
    requires forall i :: 0 <= i < s.count ==> Restorable(OldestFirst(s)[i], now)
    ensures var lines := SaveLines(OldestFirst(s));
            && ScanHeader(Save(s).value) == Some((s.count, Concat(lines)))
            && FgetsChunks(Concat(lines), LOAD_LINE_SIZE) == lines
  {
    var xs := OldestFirst(s);
    var lines := SaveLines(xs);
    var body := Concat(lines);
    var text := Save(s).value;
    assert text == Decimal(s.count) + ("\n" + body);
    ScanDecimal(s.count, "\n" + body);
    assert Restorable(xs[0], now);
    HeaderSkip(s.count, lines);
    SaveLinesAreFileLines(xs, now);
    ChunksOfLines(lines);
  }

  /** Load, unfolded once the header and the lines are known. */
  lemma LoadWithParts(text: string, h: (int, string), lines: seq<string>, now: int, prior: Store, fixed: bool)
    requires Valid(prior)
    requires ScanHeader(text) == Some(h) && FgetsChunks(h.1, LOAD_LINE_SIZE) == lines
    ensures var loaded := LoadEntries(lines, Min(h.0, CAPACITY), now - TTL, fixed);
            LoadWith(Some(text), now, prior, fixed) == Outcome(|loaded|, Store(loaded + prior.slots[|loaded|..], |loaded|, |loaded|))
  {
  }

  /** A store laid out from slot 0 reads chronologically from slot 0. */
  lemma LaidOutFromZero(r: Store, xs: seq<Entry>)
    requires Valid(r) && r.count == r.currentIndex == |xs| && r.slots[..|xs|] == xs
    ensures OldestFirst(r) == xs
  {
    forall i | 0 <= i < |xs|
      ensures OldestFirst(r)[i] == xs[i]
    {
      assert (r.currentIndex - r.count + i + CAPACITY) % CAPACITY == i;
    }
  }

  /** The corrected scanner reads back every line the writer produces: for a
      store whose entries are all restorable, loading what save wrote gives
      the same entries in the same order. */
  lemma LoadFixedRestoresSave(s: Store, now: int, prior: Store)
    requires Valid(s) && Valid(prior)
    requires s.count > 0
    requires forall i :: 0 <= i < s.count ==> Restorable(OldestFirst(s)[i], now)
    ensures var r := LoadFixed(Save(s), now, prior);
            r.code == s.count && OldestFirst(r.store) == OldestFirst(s)
  {
    var xs := OldestFirst(s);
    var lines := SaveLines(xs);
    SaveFileParts(s, now);
    LoadWithParts(Save(s).value, (s.count, Concat(lines)), lines, now, prior, true);
    LoadSavedLines(xs, s.count, now);
    var r := LoadFixed(Save(s), now, prior);
    assert r.store == Store(xs + prior.slots[|xs|..], |xs|, |xs|);
    LaidOutFromZero(r.store, xs);
  }

  lemma HeaderSkip(n: int, lines: seq<string>)
    requires |lines| > 0
    requires |lines[0]| > 0 && !IsSpace(lines[0][0])
    ensures var text := Decimal(n) + "\n" + Concat(lines);
            SkipSpaces(text, |Decimal(n)|) == |Decimal(n)| + 1
  {
    var body := Concat(lines);
    ConcatCons(lines[0], lines[1..]);
    assert [lines[0]] + lines[1..] == lines;
    assert body[0] == lines[0][0];
    var text := Decimal(n) + "\n" + body;
    assert text[|Decimal(n)|] == '\n';
    assert text[|Decimal(n)| + 1] == body[0];
  }

  lemma {:induction false} ChunksOfLines(lines: seq<string>)
    requires forall i :: 0 <= i < |lines| ==> IsFileLine(lines[i])
    ensures FgetsChunks(Concat(lines), LOAD_LINE_SIZE) == lines
    decreases |lines|
  {
    if |lines| > 0 {
      var l := lines[0];
      ConcatCons(l, lines[1..]);
      assert [l] + lines[1..] == lines;
      var text := Concat(lines);
      assert text == l + Concat(lines[1..]);
      var k := |l| - 1;
      assert OccursAt(text, "\n", k);
      assert forall j :: 0 <= j < k ==> !OccursAt(text, "\n", j) by {
        forall j | 0 <= j < k
          ensures !OccursAt(text, "\n", j)
        {
          assert text[j..j + 1] == [l[j]];
        }
      }
      assert IndexOf(text, "\n") == Some(k);
      assert LineLength(text, LOAD_LINE_SIZE) == |l|;
      assert text[..|l|] == l;
      assert text[|l|..] == Concat(lines[1..]);
      ChunksOfLines(lines[1..]);
    }
  }

  /** A line as save writes it: a single newline, at its end, and short
      enough for one fgets call. */
  predicate IsFileLine(l: string)
  {
    |l| >= 1 && |l| <= LOAD_LINE_SIZE - 1 && l[|l| - 1] == '\n' && '\n' !in l[..|l| - 1]
  }

  lemma LoadSavedLines(xs: seq<Entry>, room: int, now: int)
    requires |xs| <= room
    requires forall i :: 0 <= i < |xs| ==> Restorable(xs[i], now)
    ensures LoadEntries(SaveLines(xs), room, now - TTL, true) == xs
  {
    var lines := SaveLines(xs);
    forall i | 0 <= i < |xs|
      ensures ParseLine(lines[i], true) == Some(xs[i]) && xs[i].timestamp >= now - TTL
    {
      ParseSaveLine(xs[i], true);
    }
    LoadParsedLines(lines, xs, room, now - TTL);
  }

  /** Lines that all parse to fresh entries all load, in order. */
  lemma {:induction false} LoadParsedLines(lines: seq<string>, xs: seq<Entry>, room: int, cutoff: int)
    requires |lines| == |xs| <= room
    requires forall i :: 0 <= i < |xs| ==> ParseLine(lines[i], true) == Some(xs[i]) && xs[i].timestamp >= cutoff
    ensures LoadEntries(lines, room, cutoff, true) == xs
    decreases |xs|
  {
    if |xs| > 0 {
      LoadParsedLines(lines[1..], xs[1..], room - 1, cutoff);
      assert [xs[0]] + xs[1..] == xs;
    }
  }

  lemma SaveLinesAreFileLines(xs: seq<Entry>, now: int)
    requires forall i :: 0 <= i < |xs| ==> Restorable(xs[i], now)
    ensures forall i :: 0 <= i < |xs| ==> IsFileLine(SaveLines(xs)[i])
  {
    forall i | 0 <= i < |xs|
      ensures IsFileLine(SaveLines(xs)[i])
    {
      SaveLineIsFileLine(xs[i]);
    }
  }

  lemma SaveLineIsFileLine(e: Entry)
    requires '\n' !in e.command
    requires |SaveLine(e)| <= LOAD_LINE_SIZE - 1
    ensures IsFileLine(SaveLine(e))
  {
    var l := SaveLine(e);
    var d := Decimal(e.timestamp);
    assert l[..|l| - 1] == d + " " + e.command;
    DecimalHasNoNewline(e.timestamp);
  }

  lemma DecimalHasNoNewline(n: int)
    ensures '\n' !in Decimal(n)
  {
    var d := Digits(if n < 0 then -n else n);
    assert forall i :: 0 <= i < |d| ==> IsDigit(d[i]);
  }

  /** The as-written scanner keeps the newline: a command without
      backslash or 'n' comes back with "\n" appended. */
  lemma LoadKeepsNewline(e: Entry, now: int, prior: Store)
    requires Valid(prior)
    requires Restorable(e, now) && '\\' !in e.command && 'n' !in e.command
    requires |e.command| < MAX_INPUT_LEN - 1
    ensures var s := Store([e] + prior.slots[1..], 1, 1);
            Valid(s) &&
            OldestFirst(Load(Save(s), now, prior).store) == [Entry(e.command + "\n", e.timestamp)]
  {
    var s := Store([e] + prior.slots[1..], 1, 1);
    assert OldestFirst(s) == [e];
    var lines := SaveLines([e]);
    SaveFileParts(s, now);
    LoadWithParts(Save(s).value, (1, Concat(lines)), lines, now, prior, false);
    assert lines == [SaveLine(e)];
    ParseSaveLine(e, false);
    var e' := Entry(e.command + "\n", e.timestamp);
    assert LoadEntries(lines, 1, now - TTL, false) == [e'];
    LaidOutFromZero(Load(Save(s), now, prior).store, [e']);
  }

  /** The as-written scanner drops a command that starts with 'n'. */
  lemma LoadDropsLeadingN(e: Entry, now: int, prior: Store)
    requires Valid(prior)
    requires Restorable(e, now) && e.command[0] == 'n'
    ensures var s := Store([e] + prior.slots[1..], 1, 1);
            Valid(s) && Load(Save(s), now, prior).store.count == 0
  {
    var s := Store([e] + prior.slots[1..], 1, 1);
    assert OldestFirst(s) == [e];
    var lines := SaveLines([e]);
    SaveFileParts(s, now);
    LoadWithParts(Save(s).value, (1, Concat(lines)), lines, now, prior, false);
    assert lines == [SaveLine(e)];
    LeadingNNotParsed(e);
    assert LoadEntries(lines, 1, now - TTL, false) == [];
  }

  /** The as-written scanset stops at once on a command that starts with
      'n', so its saved line does not parse. */
  lemma LeadingNNotParsed(e: Entry)
    requires |e.command| > 0 && !IsSpace(e.command[0]) && e.command[0] == 'n'
    ensures ParseLine(SaveLine(e), false) == None
  {
    SaveLineScan(e);
    SaveLineSkip(e);
    var line := SaveLine(e);
    assert line[|Decimal(e.timestamp)| + 1] == 'n';
  }
}
