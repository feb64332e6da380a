/** Byte-string helpers shared by every module.

    A `char` of this model stands for one C `char`, that is, one octet; text
    values are `string`s.  These functions are the model's counterparts of the
    C library calls the program relies on: strstr/strchr/strrchr, tolower,
    snprintf truncation, printf("%d") and scanf("%d"), printf("%016lx") and
    fgets line reading. */
module Text {

  datatype Option<+T> = None | Some(value: T)

  function Min(a: int, b: int): int { if a < b then a else b }

  function Max(a: int, b: int): int { if a < b then b else a }

  /** The first `n` characters of `s` (all of `s` when it is shorter): what
      snprintf(buf, n + 1, "%s", s) and strncpy(dst, s, n) leave behind. */
  function Prefix(s: string, n: int): (r: string)
    ensures |r| == if n <= 0 then 0 else Min(|s|, n)
    ensures r <= s
  {
    if n <= 0 then [] else if n >= |s| then s else s[..n]
  }

  /** The C-string view of a byte buffer: everything before the first NUL. */
  function CStrOf(s: string): (r: string)
    ensures r <= s
    ensures '\0' !in r
    ensures |r| < |s| ==> s[|r|] == '\0'
  {
    if |s| == 0 || s[0] == '\0' then [] else [s[0]] + CStrOf(s[1..])
  }

  lemma CStrOfNoNul(s: string)
    requires '\0' !in s
    ensures CStrOf(s) == s
  {
  }

  /** A NUL-free head survives in the C-string view of a longer buffer. */
  lemma {:induction false} CStrOfAppend(head: string, tail: string)
    requires '\0' !in head
    ensures CStrOf(head + tail) == head + CStrOf(tail)
  {
    if |head| > 0 {
      CStrOfAppend(head[1..], tail);
      assert head + tail == [head[0]] + (head[1..] + tail);
    } else {
      assert head + tail == tail;
    }
  }

  /** isspace() in the C locale. */
  predicate IsSpace(c: char)
  {
    c == ' ' || c == '\t' || c == '\n' || c == '\r' || c as int == 11 || c as int == 12
  }

  predicate IsDigit(c: char) { '0' <= c <= '9' }

  predicate AllDigits(s: string)
  {
    forall i :: 0 <= i < |s| ==> IsDigit(s[i])
  }

  /** tolower() in the C locale: only 'A'..'Z' change. */
  function ToLower(c: char): (r: char)
    ensures 'A' <= c <= 'Z' ==> r as int == c as int + 32
    ensures !('A' <= c <= 'Z') ==> r == c
  {
    if 'A' <= c <= 'Z' then (c as int + 32) as char else c
  }

  function Lower(s: string): (r: string)
    ensures |r| == |s|
    ensures forall i :: 0 <= i < |s| ==> r[i] == ToLower(s[i])
  {
    seq(|s|, i requires 0 <= i < |s| => ToLower(s[i]))
  }

  /** `pat` occurs in `s` starting at index `i`. */
  predicate OccursAt(s: string, pat: string, i: int)
  {
    0 <= i && i + |pat| <= |s| && s[i..i + |pat|] == pat
  }

  predicate Contains(s: string, pat: string)
  {
    exists i | 0 <= i <= |s| :: OccursAt(s, pat, i)
  }

  /** A pattern whose first character never appears cannot occur. */
  lemma AbsentFirstChar(s: string, pat: string)
    requires |pat| > 0 && pat[0] !in s
    ensures !Contains(s, pat)
  {
    forall i | 0 <= i <= |s|
      ensures !OccursAt(s, pat, i)
    {
      if i + |pat| <= |s| {
        assert s[i..i + |pat|][0] == s[i];
      }
    }
  }

  /** strstr(s + from, pat): the first occurrence at or after `from`. */
  function IndexOfFrom(s: string, pat: string, from: nat): (r: Option<nat>)
    decreases |s| - from
    ensures r.Some? ==> from <= r.value && OccursAt(s, pat, r.value)
    ensures r.Some? ==> forall j :: from <= j < r.value ==> !OccursAt(s, pat, j)
    ensures r.None? ==> forall j :: from <= j ==> !OccursAt(s, pat, j)
  {
    if from + |pat| > |s| then None
    else if s[from..from + |pat|] == pat then Some(from)
    else IndexOfFrom(s, pat, from + 1)
  }

  function IndexOf(s: string, pat: string): (r: Option<nat>)
    ensures r.Some? <==> Contains(s, pat)
    ensures r.Some? ==> OccursAt(s, pat, r.value)
    ensures r.Some? ==> forall j :: 0 <= j < r.value ==> !OccursAt(s, pat, j)
  {
    IndexOfFrom(s, pat, 0)
  }

  /** strrchr(s, c). */
  function LastIndexOf(s: string, c: char): (r: Option<nat>)
    ensures r.Some? ==> r.value < |s| && s[r.value] == c
    ensures r.Some? ==> forall j :: r.value < j < |s| ==> s[j] != c
    ensures r.None? ==> c !in s
  {
    if |s| == 0 then None
    else if s[|s| - 1] == c then Some(|s| - 1)
    else LastIndexOf(s[..|s| - 1], c)
  }

  /** The parts separated by `sep`, with no separator before the first part
      or after the last. */
  function Join(parts: seq<string>, sep: string): string
  {
    if |parts| == 0 then []
    else if |parts| == 1 then parts[0]
    else Join(parts[..|parts| - 1], sep) + sep + parts[|parts| - 1]
  }

  lemma {:induction false} JoinStartsWithFirst(parts: seq<string>, sep: string)
    requires |parts| > 0
    ensures parts[0] <= Join(parts, sep)
    decreases |parts|
  {
    if |parts| > 1 {
      JoinStartsWithFirst(parts[..|parts| - 1], sep);
    }
  }

  /** The fields of `s` between occurrences of `c`; the reference against
      which a join with a single-character separator is checked. */
  function SplitOn(s: string, c: char): (r: seq<string>)
    ensures |r| >= 1
    decreases |s|
  {
    match LastIndexOf(s, c)
    case None => [s]
    case Some(k) => SplitOn(s[..k], c) + [s[k + 1..]]
  }

  lemma {:induction false} SplitJoin(parts: seq<string>, c: char)
    requires |parts| >= 1
    requires forall i :: 0 <= i < |parts| ==> c !in parts[i]
    ensures SplitOn(Join(parts, [c]), c) == parts
    decreases |parts|
  {
    if |parts| == 1 {
      assert Join(parts, [c]) == parts[0];
    } else {
      var init := parts[..|parts| - 1];
      var last := parts[|parts| - 1];
      var j := Join(init, [c]);
      var s := Join(parts, [c]);
      assert s == j + [c] + last;
      assert s[|j|] == c;
      assert forall k :: |j| < k < |s| ==> s[k] == last[k - |j| - 1];
      var li := LastIndexOf(s, c);
      assert li == Some(|j|);
      assert s[..|j|] == j;
      assert s[|j| + 1..] == last;
      SplitJoin(init, c);
      assert init + [last] == parts;
    }
  }

  function DigitChar(d: nat): (c: char)
    requires d < 10
    ensures IsDigit(c)
  {
    ('0' as int + d) as char
  }

  function DigitValue(c: char): nat
    requires IsDigit(c)
  {
    c as int - '0' as int
  }

  /** The decimal digits of `n`, most significant first, no leading zero. */
  function Digits(n: nat): (r: string)
    ensures |r| >= 1 && AllDigits(r)
  {
    if n < 10 then [DigitChar(n)] else Digits(n / 10) + [DigitChar(n % 10)]
  }

  /** printf("%d", n) / printf("%ld", n). */
  function Decimal(n: int): string
  {
    if n < 0 then "-" + Digits(-n) else Digits(n)
  }

  /** The number a string of decimal digits denotes. */
  function DigitsValue(s: string): nat
    requires AllDigits(s)
  {
    if |s| == 0 then 0 else DigitsValue(s[..|s| - 1]) * 10 + DigitValue(s[|s| - 1])
  }

  lemma {:induction false} DigitsValueOfDigits(n: nat)
    ensures DigitsValue(Digits(n)) == n
  {
    if n >= 10 {
      var d := Digits(n);
      assert d[..|d| - 1] == Digits(n / 10);
      DigitsValueOfDigits(n / 10);
    }
  }

  /** Length of the run of digits that starts `s`. */
  function DigitRun(s: string): (k: nat)
    ensures k <= |s|
    ensures forall i :: 0 <= i < k ==> IsDigit(s[i])
    ensures k < |s| ==> !IsDigit(s[k])
  {
    if |s| == 0 || !IsDigit(s[0]) then 0 else 1 + DigitRun(s[1..])
  }

  lemma {:induction false} DigitRunOfDigits(d: string, rest: string)
    requires AllDigits(d)
    requires rest == [] || !IsDigit(rest[0])
    ensures DigitRun(d + rest) == |d|
    decreases |d|
  {
    if |d| > 0 {
      assert (d + rest)[1..] == d[1..] + rest;
      DigitRunOfDigits(d[1..], rest);
    }
  }

  /** Index of the first non-space character at or after `i`. */
  function SkipSpaces(s: string, i: nat): (j: nat)
    decreases |s| - i
    ensures i <= |s| ==> i <= j <= |s|
    ensures i <= |s| ==> forall k :: i <= k < j ==> IsSpace(s[k])
    ensures i <= |s| && j < |s| ==> !IsSpace(s[j])
    ensures i > |s| ==> j == i
  {
    if i >= |s| || !IsSpace(s[i]) then i else SkipSpaces(s, i + 1)
  }

  /** scanf("%d") / scanf("%ld") at the start of `s`: optional white space,
      an optional sign and at least one digit.  The result carries the value
      and the index just after the last digit; `None` is a failed conversion.
      Overflow is not modelled: the integer is unbounded. */
  function ScanInt(s: string): (r: Option<(int, nat)>)
    ensures r.Some? ==> r.value.1 <= |s|
  {
    var i := SkipSpaces(s, 0);
    var signed := i < |s| && (s[i] == '-' || s[i] == '+');
    var j := if signed then i + 1 else i;
    var k := DigitRun(s[j..]);
    if k == 0 then None
    else
      var v := DigitsValue(s[j..j + k]);
      var value: int := if signed && s[i] == '-' then -(v as int) else v;
      Some((value, j + k))
  }

  /** atoi(): the scanned value, or 0 when nothing converts. */
  function Atoi(s: string): int
  {
    match ScanInt(s)
    case Some(p) => p.0
    case None => 0
  }

  /** Whatever printf("%d") writes, scanf("%d") reads back, up to the next
      non-digit. */
  lemma ScanDecimal(n: int, rest: string)
    requires rest == [] || !IsDigit(rest[0])
    ensures ScanInt(Decimal(n) + rest) == Some((n, |Decimal(n)|))
  {
    var m: nat := if n < 0 then -n else n;
    var d := Digits(m);
    DigitsValueOfDigits(m);
    DigitRunOfDigits(d, rest);
    var s := Decimal(n) + rest;
    var j := if n < 0 then 1 else 0;
    assert s[j..] == d + rest;
    assert s[j..j + |d|] == d;
    assert !IsSpace(s[0]);
    assert SkipSpaces(s, 0) == 0;
    assert n < 0 <==> (s[0] == '-' || s[0] == '+');
  }

  predicate IsLowerHex(c: char) { '0' <= c <= '9' || 'a' <= c <= 'f' }

  function HexChar(d: nat): (c: char)
    requires d < 16
    ensures IsLowerHex(c)
  {
    if d < 10 then ('0' as int + d) as char else ('a' as int + d - 10) as char
  }

  function HexCharValue(c: char): nat
    requires IsLowerHex(c)
  {
    if c <= '9' then c as int - '0' as int else c as int - 'a' as int + 10
  }

  function Pow16(n: nat): (p: nat)
    ensures p > 0
  {
    if n == 0 then 1 else 16 * Pow16(n - 1)
  }

  /** The last `n` hexadecimal digits of `v`, zero-padded, lower case. */
  function HexDigits(v: nat, n: nat): (r: string)
    ensures |r| == n
    ensures forall i :: 0 <= i < n ==> IsLowerHex(r[i])
  {
    if n == 0 then [] else HexDigits(v / 16, n - 1) + [HexChar(v % 16)]
  }

  function HexValue(s: string): nat
    requires forall i :: 0 <= i < |s| ==> IsLowerHex(s[i])
  {
    if |s| == 0 then 0 else HexValue(s[..|s| - 1]) * 16 + HexCharValue(s[|s| - 1])
  }

  lemma ModSplit(v: nat, m: nat)
    requires m > 0
    ensures ((v / 16) % m) * 16 + v % 16 == v % (16 * m)
  {
    var q := v / 16;
    var r := v % 16;
    var a := q / m;
    var b := q % m;
    assert v == 16 * q + r;
    assert q == m * a + b;
    assert v == (16 * m) * a + (16 * b + r);
    assert 0 <= 16 * b + r < 16 * m;
    ModUnique(v, 16 * m, a, 16 * b + r);
  }

  lemma ModUnique(v: int, d: int, a: int, r: int)
    requires d > 0 && 0 <= r < d && v == d * a + r
    ensures v % d == r
  {
    var q := v / d;
    assert v == d * q + v % d;
    var x := a - q;
    assert d * x == v % d - r by {
      assert d * a - d * q == d * (a - q);
    }
    if x >= 1 {
      MulMonotone(d, x);
    } else if x <= -1 {
      MulMonotone(d, -x);
    }
  }

  lemma MulMonotone(d: int, x: int)
    requires d > 0 && x >= 1
    ensures d * x >= d
  {
    assert d * x == d * (x - 1) + d;
    assert d * (x - 1) >= 0;
  }

  lemma {:induction false} HexValueOfHexDigits(v: nat, n: nat)
    ensures HexValue(HexDigits(v, n)) == v % Pow16(n)
  {
    if n > 0 {
      var h := HexDigits(v, n);
      assert h[..n - 1] == HexDigits(v / 16, n - 1);
      HexValueOfHexDigits(v / 16, n - 1);
      ModSplit(v, Pow16(n - 1));
    }
  }

  /** How many characters one fgets(buf, size, f) call takes from `text`:
      through the first newline, but never more than size-1 characters. */
  function LineLength(text: string, size: nat): (n: nat)
    requires size >= 2 && |text| > 0
    ensures 1 <= n <= |text| && n <= size - 1
  {
    match IndexOf(text, "\n")
    case Some(k) => Min(k + 1, size - 1)
    case None => Min(|text|, size - 1)
  }

  /** The successive results of fgets(buf, size, f) over the whole file. */
  function FgetsChunks(text: string, size: nat): (r: seq<string>)
    requires size >= 2
    decreases |text|
  {
    if |text| == 0 then []
    else
      var n := LineLength(text, size);
      [text[..n]] + FgetsChunks(text[n..], size)
  }

  /** The concatenation of all parts. */
  function Concat(parts: seq<string>): string
  {
    if |parts| == 0 then [] else Concat(parts[..|parts| - 1]) + parts[|parts| - 1]
  }

  /** Reading a file line by line with fgets gives back the file. */
  lemma {:induction false} ChunksConcat(text: string, size: nat)
    requires size >= 2
    ensures Concat(FgetsChunks(text, size)) == text
    decreases |text|
  {
    if |text| > 0 {
      var n := LineLength(text, size);
      ChunksConcat(text[n..], size);
      ConcatCons(text[..n], FgetsChunks(text[n..], size));
      assert text[..n] + text[n..] == text;
    }
  }

  lemma {:induction false} ConcatCons(x: string, xs: seq<string>)
    ensures Concat([x] + xs) == x + Concat(xs)
    decreases |xs|
  {
    if |xs| > 0 {
      assert ([x] + xs)[..|xs|] == [x] + xs[..|xs| - 1];
      ConcatCons(x, xs[..|xs| - 1]);
    } else {
      assert [x] + xs == [x];
      assert Concat([x]) == Concat([]) + x;
    }
  }
}
