/** Recognising the trigger key and the escape sequences that follow ESC.
    The bytes still waiting on standard input are a parameter; reading a
    key sequence takes at most the buffer's worth of them.  `char` is
    signed, as on x86-64 Linux. */
module Keyboard {
  import opened Text
  import Config

  const ESC: int := 27

  /** The buffer check_trigger_key and handle_escape_sequence read into. */
  const SEQUENCE_BUFFER: int := 3

  /** read_key_sequence: one byte at a time until the buffer is full or a
      read comes back short. */
  function ReadKeySequence(stdin: string, maxLen: int): (r: string)
    ensures |r| == if maxLen <= 0 then 0 else Min(|stdin|, maxLen)
    ensures r <= stdin
  {
    Prefix(stdin, maxLen)
  }

  /** The bytes an xterm-style terminal sends after ESC for function key
      `n`: SS3 letters for F1-F4, CSI codes for F5-F12. */
  function KeySequence(n: int): (r: string)
    requires 1 <= n <= 12
    ensures n <= 4 ==> |r| == 2 && r[0] == 'O'
    ensures n >= 5 ==> |r| == 4 && r[0] == '[' && r[3] == '~'
  {
    if n <= 4 then ['O', ('P' as int + n - 1) as char]
    else "[" + CsiCode(n) + "~"
  }

  /** The two digits of the CSI code of F5-F12. */
  function CsiCode(n: int): (r: string)
    requires 5 <= n <= 12
    ensures |r| == 2 && IsDigit(r[0]) && IsDigit(r[1])
  {
    ["15", "17", "18", "19", "20", "21", "23", "24"][n - 5]
  }

  /** is_function_key_match as written.  The F5-F12 branch asks for '~' at
      the third byte and then for that same byte to be the second digit of
      the code. */
  function IsFunctionKeyMatch(fn: int, sequence: string): (r: bool)
    ensures r ==> 1 <= fn <= 4
    ensures r <==> 1 <= fn <= 4 && |sequence| >= 2 && sequence[0] == 'O' && sequence[1] as int == 'P' as int + fn - 1
  {
    if fn < 1 || fn > 12 then false
    else if 1 <= fn <= 4 && |sequence| >= 2 && sequence[0] == 'O' then sequence[1] as int == 'P' as int + fn - 1
    else if 5 <= fn <= 12 && |sequence| >= 3 && sequence[0] == '[' && sequence[2] == '~' then
      var code := CsiCode(fn);
      sequence[1] == code[0] && sequence[2] == code[1]
    else false
  }

  /** The as-written matcher accepts nothing for F5-F12, not even the key
      itself. */
  lemma HighFunctionKeysNeverMatch(fn: int, sequence: string)
    requires 5 <= fn <= 12
    ensures !IsFunctionKeyMatch(fn, sequence)
    ensures !IsFunctionKeyMatch(fn, ReadKeySequence(KeySequence(fn), SEQUENCE_BUFFER))
  {
  }

  /** The matcher the comments describe: the whole sequence of the key, for
      which the caller reads four bytes. */
  function IsFunctionKeyMatchFixed(fn: int, sequence: string): (r: bool)
  {
    1 <= fn <= 12 && KeySequence(fn) <= sequence
  }

  /** With the corrected matcher each function key's own sequence selects
      that key and no other. */
  lemma FixedMatchesExactlyItsKey(fn: int, key: int, rest: string)
    requires 1 <= key <= 12
    ensures IsFunctionKeyMatchFixed(fn, KeySequence(key) + rest) <==> fn == key
  {
    if IsFunctionKeyMatchFixed(fn, KeySequence(key) + rest) {
      KeySequencesDistinct(fn, key, rest);
    }
  }

  lemma KeySequencesDistinct(a: int, b: int, rest: string)
    requires 1 <= a <= 12 && 1 <= b <= 12
    requires KeySequence(a) <= KeySequence(b) + rest
    ensures a == b
  {
    var sa := KeySequence(a);
    var sb := KeySequence(b) + rest;
    assert sa[0] == sb[0] && sa[1] == sb[1];
    if a >= 5 {
      assert sa[2] == sb[2];
      assert b >= 5;
      var codes := ["15", "17", "18", "19", "20", "21", "23", "24"];
      assert sa[1..3] == codes[a - 5];
      assert sb[1..3] == codes[b - 5];
    }
  }

  // ---------------------------------------------------------------------
  // The trigger key

  /** The value of a byte held in a signed `char`. */
  function SignedChar(c: char): int
  {
    var b := c as int % 256;
    if b >= 128 then b - 256 else b
  }

  datatype Trigger = Trigger(hit: bool, consumed: string)

  /** check_trigger_key as written: a positive binding compares the first
      byte; a function-key binding reads up to three more bytes after ESC
      and asks is_function_key_match. */
  function CheckTrigger(binding: int, first: char, stdin: string): (r: Trigger)
    ensures r.consumed <= stdin
    ensures binding > 0 ==> r == Trigger(SignedChar(first) == binding, [])
    ensures binding == 0 ==> r == Trigger(false, [])
    ensures r.consumed != [] ==> binding < 0 && SignedChar(first) == ESC
  {
    if binding > 0 then Trigger(SignedChar(first) == binding, [])
    else if binding < 0 then
      var fn := -(binding + 100);
      if 1 <= fn <= 12 && SignedChar(first) == ESC then
        var sequence := ReadKeySequence(stdin, SEQUENCE_BUFFER);
        Trigger(IsFunctionKeyMatch(fn, sequence), sequence)
      else Trigger(false, [])
    else Trigger(false, [])
  }

  /** A binding to a byte of 128 or more never fires: the byte arrives as
      a negative `char`. */
  lemma HighByteBindingNeverFires(c: char, first: char, stdin: string)
    requires 128 <= c as int < 256
    ensures Config.ParseKeybinding(Some([c])) == c as int
    ensures !CheckTrigger(Config.ParseKeybinding(Some([c])), first, stdin).hit
  {
    assert [c] != "escape" && [c] != "enter" && [c] != "tab" && [c] != "space" && [c] != "backspace";
  }

  /** check_trigger_key with the byte read as unsigned and four bytes read
      for the function-key matcher. */
  function CheckTriggerFixed(binding: int, first: char, stdin: string): (r: Trigger)
    ensures r.consumed <= stdin
    ensures binding > 0 ==> r == Trigger(first as int % 256 == binding, [])
  {
    if binding > 0 then Trigger(first as int % 256 == binding, [])
    else if binding < 0 then
      var fn := -(binding + 100);
      if 1 <= fn <= 12 && first as int % 256 == ESC then
        var sequence := ReadKeySequence(stdin, 4);
        Trigger(IsFunctionKeyMatchFixed(fn, sequence), sequence)
      else Trigger(false, [])
    else Trigger(false, [])
  }

  /** A key bound by name fires on that key: "ctrl+<letter>" on its control
      byte, "f<n>" on ESC followed by the key's sequence; a single byte of
      any value on that byte. */
  lemma BoundKeysFire(letter: char, n: int, b: char, rest: string)
    requires 'a' <= letter <= 'z' && 1 <= n <= 12 && 0 < b as int < 256
    ensures CheckTriggerFixed(Config.ParseKeybinding(Some("ctrl+" + [letter])), (letter as int - 'a' as int + 1) as char, rest).hit
    ensures CheckTriggerFixed(Config.ParseKeybinding(Some("f" + Decimal(n))), 27 as char, KeySequence(n) + rest).hit
    ensures [b] != "escape" ==> CheckTriggerFixed(Config.ParseKeybinding(Some([b])), b, rest).hit
  {
    CtrlKeyFires(letter, rest);
    FunctionKeyFires(n, rest);
    if [b] != "escape" {
      ByteKeyFires(b, rest);
    }
  }

  lemma CtrlKeyFires(letter: char, rest: string)
    requires 'a' <= letter <= 'z'
    ensures CheckTriggerFixed(Config.ParseKeybinding(Some("ctrl+" + [letter])), (letter as int - 'a' as int + 1) as char, rest).hit
  {
    Config.CtrlLetterBinds(letter);
  }

  lemma FunctionKeyFires(n: int, rest: string)
    requires 1 <= n <= 12
    ensures CheckTriggerFixed(Config.ParseKeybinding(Some("f" + Decimal(n))), 27 as char, KeySequence(n) + rest).hit
  {
    Config.FunctionKeyBinds(n);
    var sequence := ReadKeySequence(KeySequence(n) + rest, 4);
    assert sequence[..|KeySequence(n)|] == KeySequence(n);
  }

  lemma ByteKeyFires(b: char, rest: string)
    requires 0 < b as int < 256 && [b] != "escape"
    ensures CheckTriggerFixed(Config.ParseKeybinding(Some([b])), b, rest).hit
  {
    assert !("ctrl+" <= [b]);
    assert [b] != "enter" && [b] != "tab" && [b] != "space" && [b] != "backspace";
  }

  // ---------------------------------------------------------------------
  // Escape sequences while editing

  const ACCEPT: int := 2

  /** handle_escape_sequence: the right arrow accepts the suggestion, every
      other sequence is ignored. */
  function HandleEscape(stdin: string): (r: int)
    ensures r == ACCEPT || r == -1
    ensures r == ACCEPT <==> "[C" <= stdin
  {
    var sequence := ReadKeySequence(stdin, SEQUENCE_BUFFER);
    if |sequence| >= 2 && sequence[0] == '[' && sequence[1] == 'C' then ACCEPT else -1
  }
}
