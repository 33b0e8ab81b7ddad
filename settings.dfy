/**
  Key names of the configuration file, as read by `parse_key` in
  src/settings.rs.

  A name one byte long is that character. Any other name is split at `-`;
  its first piece, lower-cased, selects the key: `ctrl` and `alt` take the
  first character of the second piece, a fixed list of words name the
  special keys, and anything else is no key at all.
 */
module Settings {

  /** The keys of the terminal library a name can denote. */
  datatype Key =
    | Char(c: char)
    | Ctrl(c: char)
    | Alt(c: char)
    | Left | Right | Up | Down
    | Backspace | Delete | Esc | PageUp | PageDown
    | Null

  /** The number of bytes `c` takes in UTF-8. */
  function Utf8Width(c: char): (n: nat)
    ensures 1 <= n <= 4
    ensures n == 1 <==> c as int < 0x80
  {
    if c as int < 0x80 then 1
    else if c as int < 0x800 then 2
    else if c as int < 0x1_0000 then 3
    else 4
  }

  /** `str::len()`: the length in UTF-8 bytes. */
  function Utf8Len(s: string): (n: nat)
    ensures n >= |s|
    ensures n == 1 <==> |s| == 1 && s[0] as int < 0x80
    decreases |s|
  {
    if s == [] then 0 else Utf8Width(s[0]) + Utf8Len(s[1..])
  }

  /** `str::split(sep)`: the pieces between the separators, in order; the empty string is one empty piece. */
  function Split(s: string, sep: char): (parts: seq<string>)
    ensures |parts| >= 1
    ensures forall i :: 0 <= i < |parts| ==> sep !in parts[i]
    decreases |s|
  {
    if s == [] then [""]
    else
      var rest := Split(s[1..], sep);
      if s[0] == sep then [""] + rest
      else
        var first := [s[0]] + rest[0];
        assert sep !in first;
        [first] + rest[1..]
  }

  /** The pieces put back together with `sep` between them. */
  function JoinWith(parts: seq<string>, sep: char): string
    requires |parts| >= 1
    decreases |parts|
  {
    if |parts| == 1 then parts[0] else parts[0] + [sep] + JoinWith(parts[1..], sep)
  }

  /** Splitting loses nothing: joining the pieces with the separator gives the name back. */
  lemma {:induction false} SplitJoin(s: string, sep: char)
    ensures JoinWith(Split(s, sep), sep) == s
    decreases |s|
  {
    if s != [] {
      var rest := Split(s[1..], sep);
      SplitJoin(s[1..], sep);
      if s[0] == sep {
        assert ([""] + rest)[1..] == rest;
      } else {
        var parts := Split(s, sep);
        if |rest| > 1 {
          assert parts[1..] == rest[1..];
          assert JoinWith(rest, sep) == rest[0] + [sep] + JoinWith(rest[1..], sep);
        }
        assert s == [s[0]] + s[1..];
      }
    }
  }

  /** A name without the separator is one piece. */
  lemma {:induction false} SplitWithoutSeparator(s: string, sep: char)
    requires sep !in s
    ensures Split(s, sep) == [s]
    decreases |s|
  {
    if s != [] {
      assert sep !in s[1..];
      SplitWithoutSeparator(s[1..], sep);
      assert s == [s[0]] + s[1..];
    }
  }

  /** The first piece ends at the first separator; the rest is split on its own. */
  lemma {:induction false} SplitAtFirst(a: string, b: string, sep: char)
    requires sep !in a
    ensures Split(a + [sep] + b, sep) == [a] + Split(b, sep)
    decreases |a|
  {
    if a == [] {
      assert a + [sep] + b == [sep] + b;
      assert ([sep] + b)[1..] == b;
    } else {
      assert (a + [sep] + b)[1..] == a[1..] + [sep] + b;
      assert sep !in a[1..];
      SplitAtFirst(a[1..], b, sep);
      assert a == [a[0]] + a[1..];
    }
  }

  /**
    `char::to_lowercase`, as far as matching the key words goes: ASCII
    capitals and the Kelvin sign lower to ASCII letters; every other
    character is kept (its lower case is never all ASCII, so it matches no
    key word either way).
   */
  function LowerChar(c: char): (l: char)
    ensures 'A' <= c <= 'Z' ==> l as int == c as int + 32
    ensures l != c ==> ('A' <= c <= 'Z' || c == '\U{212A}')
  {
    if 'A' <= c <= 'Z' then (c as int + 32) as char
    else if c == '\U{212A}' then 'k'
    else c
  }

  function Lower(s: string): (r: string)
    ensures |r| == |s|
    ensures forall i :: 0 <= i < |s| ==> r[i] == LowerChar(s[i])
  {
    seq(|s|, i requires 0 <= i < |s| => LowerChar(s[i]))
  }

  /** The character a piece names: its first one, or NUL for an empty piece. */
  function FirstChar(s: string): (c: char)
    ensures s != [] ==> c == s[0]
    ensures s == [] ==> c == '\0'
  {
    if s == [] then '\0' else s[0]
  }

  /** The special key a lower-cased first piece names, or `Null`. */
  function NamedKey(word: string): Key {
    if word == "left" then Left
    else if word == "right" then Right
    else if word == "up" then Up
    else if word == "down" then Down
    else if word == "backspace" then Backspace
    else if word == "del" then Delete
    else if word == "esc" then Esc
    else if word == "pageup" then PageUp
    else if word == "pagedown" then PageDown
    else if word == "space" then Char(' ')
    else Null
  }

  /** `ctrl` or `alt` in any case: the words that read a second piece. */
  predicate IsModifier(word: string) {
    word == "ctrl" || word == "alt"
  }

  /** A `ctrl` or `alt` name without a `-` has no second piece, which `parse_key` indexes anyway. */
  predicate Parsable(key: string) {
    Utf8Len(key) != 1 && IsModifier(Lower(Split(key, '-')[0])) ==> |Split(key, '-')| > 1
  }

  /** `parse_key` */
  function ParseKey(key: string): (k: Key)
    requires Parsable(key)
    ensures Utf8Len(key) == 1 ==> k == Char(key[0])
    ensures k.Ctrl? <==> Utf8Len(key) != 1 && Lower(Split(key, '-')[0]) == "ctrl"
    ensures k.Alt? <==> Utf8Len(key) != 1 && Lower(Split(key, '-')[0]) == "alt"
    ensures (k.Ctrl? || k.Alt?) ==> |Split(key, '-')| > 1 && k.c == FirstChar(Split(key, '-')[1])
    ensures k == Null ==> Utf8Len(key) != 1 && NamedKey(Lower(Split(key, '-')[0])) == Null
    ensures Utf8Len(key) != 1 && !IsModifier(Lower(Split(key, '-')[0])) ==> k == NamedKey(Lower(Split(key, '-')[0]))
  {
    if Utf8Len(key) == 1 then Char(FirstChar(key))
    else
      var tokens := Split(key, '-');
      var head := Lower(tokens[0]);
      if head == "ctrl" then Ctrl(FirstChar(tokens[1]))
      else if head == "alt" then Alt(FirstChar(tokens[1]))
      else NamedKey(head)
  }

  /** A one-byte name is the character itself, `-` included. */
  lemma ParseKeySingleByte(c: char)
    requires c as int < 0x80
    ensures Parsable([c]) && ParseKey([c]) == Char(c)
  {
  }

  /** A single character outside ASCII is longer than one byte and names no key. */
  lemma ParseKeyWideChar(c: char)
    requires c as int >= 0x80
    ensures Parsable([c]) && ParseKey([c]) == Null
  {
    assert Utf8Len([c]) != 1;
    if c != '-' {
      SplitWithoutSeparator([c], '-');
    }
  }

  /** `ctrl-` and `alt-` are matched in any letter case, and take the first character after the dash, NUL when there is none. */
  lemma ParseKeyModifier(head: string, rest: string)
    requires '-' !in head && IsModifier(Lower(head))
    ensures Utf8Len(head + "-" + rest) != 1
    ensures Split(head + "-" + rest, '-') == [head] + Split(rest, '-')
    ensures Parsable(head + "-" + rest)
    ensures ParseKey(head + "-" + rest) ==
      var c := FirstChar(Split(rest, '-')[0]);
      if Lower(head) == "ctrl" then Ctrl(c) else Alt(c)
  {
    assert |Lower(head)| >= 3;
    SplitAtFirst(head, rest, '-');
    assert head + "-" + rest == head + ['-'] + rest;
  }

  /** Only the piece before the first `-` picks a named key; what follows it is ignored, and an unknown or empty first piece is no key. */
  lemma ParseKeyFirstPiece(head: string, rest: string)
    requires '-' !in head && !IsModifier(Lower(head))
    requires head != [] || rest != []
    ensures Parsable(head + "-" + rest)
    ensures ParseKey(head + "-" + rest) == NamedKey(Lower(head))
  {
    SplitAtFirst(head, rest, '-');
    assert head + "-" + rest == head + ['-'] + rest;
  }

  /** A bare `ctrl` or `alt`, in any case, has no second piece: `parse_key` would index past the end. */
  lemma ParseKeyBareModifier()
    ensures !Parsable("ctrl") && !Parsable("Alt")
  {
  }

  /** Ctrl and Alt cannot be bound to `-`: the dash splits the name again, leaving an empty piece. */
  lemma ParseKeyDashQuirk()
    ensures Parsable("ctrl--") && ParseKey("ctrl--") == Ctrl('\0')
    ensures Parsable("-") && ParseKey("-") == Char('-')
  {
    assert Lower("ctrl") == "ctrl";
    ParseKeyModifier("ctrl", "-");
    assert "ctrl" + "-" + "-" == "ctrl--";
    SplitAtFirst("", "", '-');
    assert "" + "-" + "" == "-";
  }

  /** The name the configuration file uses for a key. */
  function KeyName(k: Key): string {
    match k
    case Char(c) => if c == ' ' then "space" else [c]
    case Ctrl(c) => "ctrl-" + [c]
    case Alt(c) => "alt-" + [c]
    case Left => "left"
    case Right => "right"
    case Up => "up"
    case Down => "down"
    case Backspace => "backspace"
    case Delete => "del"
    case Esc => "esc"
    case PageUp => "pageup"
    case PageDown => "pagedown"
    case Null => ""
  }

  /** The keys a name can denote: ASCII characters, and Ctrl or Alt with any character but `-`. */
  predicate Nameable(k: Key) {
    match k
    case Char(c) => c as int < 0x80
    case Ctrl(c) => c != '-'
    case Alt(c) => c != '-'
    case _ => true
  }

  lemma LowerOfLowerCase(s: string)
    requires forall i :: 0 <= i < |s| ==> 'a' <= s[i] <= 'z'
    ensures Lower(s) == s
  {
  }

  /** A lower-case word longer than one letter, other than `ctrl` and `alt`, names the key `NamedKey` gives it. */
  lemma ParseWord(word: string)
    requires |word| > 1 && !IsModifier(word)
    requires forall i :: 0 <= i < |word| ==> 'a' <= word[i] <= 'z'
    ensures Parsable(word) && ParseKey(word) == NamedKey(word)
  {
    assert '-' !in word;
    SplitWithoutSeparator(word, '-');
    LowerOfLowerCase(word);
  }

  /** The special keys are read back from their words. */
  lemma ParseSpecialKeyName(k: Key)
    requires !k.Char? && !k.Ctrl? && !k.Alt?
    ensures Parsable(KeyName(k)) && ParseKey(KeyName(k)) == k
  {
    if k == Null {
      assert KeyName(k) == "" && Split("", '-') == [""];
    } else {
      ParseWord(KeyName(k));
    }
  }

  /** Ctrl and Alt with any character but `-` are read back from their names. */
  lemma ParseModifierKeyName(k: Key)
    requires (k.Ctrl? || k.Alt?) && k.c != '-'
    ensures Parsable(KeyName(k)) && ParseKey(KeyName(k)) == k
  {
    var head := if k.Ctrl? then "ctrl" else "alt";
    LowerOfLowerCase(head);
    ParseKeyModifier(head, [k.c]);
    SplitWithoutSeparator([k.c], '-');
    assert KeyName(k) == head + "-" + [k.c];
  }

  /** ASCII characters are read back from their names: the space from its word, the others from themselves. */
  lemma ParseCharKeyName(c: char)
    requires c as int < 0x80
    ensures Parsable(KeyName(Char(c))) && ParseKey(KeyName(Char(c))) == Char(c)
  {
    if c == ' ' {
      ParseWord("space");
    } else {
      ParseKeySingleByte(c);
    }
  }

  /** Every nameable key is read back from its name. */
  lemma ParseKeyName(k: Key)
    requires Nameable(k)
    ensures Parsable(KeyName(k)) && ParseKey(KeyName(k)) == k
  {
    match k
    case Char(c) => ParseCharKeyName(c);
    case Ctrl(c) => ParseModifierKeyName(k);
    case Alt(c) => ParseModifierKeyName(k);
    case _ => ParseSpecialKeyName(k);
  }
}
