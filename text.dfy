/**
 * String helpers with Rust's meaning: Unicode `White_Space` (used by
 * `split_whitespace` and `trim`), splitting on a character (`split`,
 * `split_terminator`, `lines`), joining, UTF-8 byte length (`str::len`) and
 * ASCII case mapping and classification.
 */
module Text {

  /** Rust's `char::is_whitespace`: the Unicode `White_Space` property. */
  predicate IsWhitespace(c: char)
  {
    || ('\U{9}' <= c <= '\U{D}') || c == ' ' || c == '\U{85}' || c == '\U{A0}'
    || c == '\U{1680}' || ('\U{2000}' <= c <= '\U{200A}') || c == '\U{2028}'
    || c == '\U{2029}' || c == '\U{202F}' || c == '\U{205F}' || c == '\U{3000}'
  }

  predicate NoWhitespace(s: string)
  {
    forall i :: 0 <= i < |s| ==> !IsWhitespace(s[i])
  }

  /** One item of `split_whitespace`: non-empty, no whitespace in it. */
  predicate IsWord(w: string)
  {
    w != [] && NoWhitespace(w)
  }

  predicate StartsWith(s: string, prefix: string)
  {
    |prefix| <= |s| && s[..|prefix|] == prefix
  }

  /** `parts.join(sep)`. */
  function Join(parts: seq<string>, sep: string): string
  {
    if |parts| == 0 then ""
    else if |parts| == 1 then parts[0]
    else parts[0] + sep + Join(parts[1..], sep)
  }

  // ---------------------------------------------------------------------------
  // split_whitespace

  /** The words of `s`, where `cur` is the word being read when `s` starts. */
  function WordsFrom(s: string, cur: string): (ws: seq<string>)
    requires NoWhitespace(cur)
    ensures forall k :: 0 <= k < |ws| ==> IsWord(ws[k])
    decreases |s|
  {
    if s == [] then (if cur == [] then [] else [cur])
    else if IsWhitespace(s[0]) then (if cur == [] then [] else [cur]) + WordsFrom(s[1..], [])
    else WordsFrom(s[1..], cur + [s[0]])
  }

  /** `s.split_whitespace()`: the maximal runs of non-whitespace characters, in order. */
  function Words(s: string): (ws: seq<string>)
    ensures forall k :: 0 <= k < |ws| ==> IsWord(ws[k])
  {
    WordsFrom(s, [])
  }

  /** Reading a whitespace-free stretch only extends the current word. */
  lemma {:induction false} WordsFromAppend(w: string, t: string, cur: string)
    requires NoWhitespace(cur) && NoWhitespace(w)
    ensures WordsFrom(w + t, cur) == WordsFrom(t, cur + w)
    decreases |w|
  {
    if w != [] {
      assert (w + t)[0] == w[0];
      assert (w + t)[1..] == w[1..] + t;
      WordsFromAppend(w[1..], t, cur + [w[0]]);
      assert cur + [w[0]] + w[1..] == cur + w;
    } else {
      assert w + t == t;
      assert cur + w == cur;
    }
  }

  /** Splitting words joined by single spaces gives the words back. */
  lemma {:induction false} WordsOfJoin(ws: seq<string>)
    requires forall k :: 0 <= k < |ws| ==> IsWord(ws[k])
    ensures Words(Join(ws, " ")) == ws
  {
    if |ws| == 1 {
      WordsFromAppend(ws[0], "", []);
      assert ws[0] + "" == ws[0];
      assert [] + ws[0] == ws[0];
    } else if |ws| > 1 {
      var rest := Join(ws[1..], " ");
      assert Join(ws, " ") == ws[0] + (" " + rest);
      WordsFromAppend(ws[0], " " + rest, []);
      assert [] + ws[0] == ws[0];
      assert (" " + rest)[1..] == rest;
      WordsOfJoin(ws[1..]);
      assert ws == [ws[0]] + ws[1..];
    }
  }

  /** There are no words exactly when every character is whitespace. */
  lemma {:induction false} WordsEmptyIffBlank(s: string, cur: string)
    requires NoWhitespace(cur)
    ensures WordsFrom(s, cur) == [] <==> cur == [] && forall i :: 0 <= i < |s| ==> IsWhitespace(s[i])
    decreases |s|
  {
    if s != [] {
      if IsWhitespace(s[0]) {
        WordsEmptyIffBlank(s[1..], []);
        assert forall i :: 1 <= i < |s| ==> s[i] == s[1..][i - 1];
      } else {
        WordsEmptyIffBlank(s[1..], cur + [s[0]]);
      }
    }
  }

  /** A string that starts with a non-whitespace character has at least one word. */
  lemma WordsOfNonBlankStart(s: string)
    requires s != [] && !IsWhitespace(s[0])
    ensures Words(s) != []
  {
    WordsEmptyIffBlank(s, []);
  }

  // ---------------------------------------------------------------------------
  // trim

  function TrimStart(s: string): (r: string)
    ensures r == [] || !IsWhitespace(r[0])
    ensures |r| <= |s| && r == s[|s| - |r|..]
  {
    if s != [] && IsWhitespace(s[0]) then TrimStart(s[1..]) else s
  }

  function TrimEnd(s: string): (r: string)
    ensures r == [] || !IsWhitespace(r[|r| - 1])
    ensures |r| <= |s| && r == s[..|r|]
  {
    if s != [] && IsWhitespace(s[|s| - 1]) then TrimEnd(s[..|s| - 1]) else s
  }

  /** `s.trim()`: `s` without leading and trailing whitespace. */
  function Trim(s: string): (r: string)
    ensures r == [] || (!IsWhitespace(r[0]) && !IsWhitespace(r[|r| - 1]))
  {
    TrimEnd(TrimStart(s))
  }

  // ---------------------------------------------------------------------------
  // split on one character

  /** `s.split(sep)`: the pieces between occurrences of `sep`; never empty. */
  function Split(s: string, sep: char): (parts: seq<string>)
    ensures |parts| >= 1
    ensures forall k :: 0 <= k < |parts| ==> sep !in parts[k]
    decreases |s|
  {
    if s == [] then [""]
    else
      var rest := Split(s[1..], sep);
      if s[0] == sep then [""] + rest
      else [[s[0]] + rest[0]] + rest[1..]
  }

  /** Joining the pieces with the separator rebuilds the string. */
  lemma {:induction false} JoinSplit(s: string, sep: char)
    ensures Join(Split(s, sep), [sep]) == s
    decreases |s|
  {
    if s != [] {
      var rest := Split(s[1..], sep);
      JoinSplit(s[1..], sep);
      if s[0] == sep {
        assert Split(s, sep) == [""] + rest;
        assert (([""] + rest)[1..]) == rest;
      } else {
        var parts := Split(s, sep);
        assert parts[1..] == rest[1..];
        if |rest| == 1 {
          assert Join(parts, [sep]) == [s[0]] + rest[0];
        } else {
          assert rest[1..] == rest[1..];
          assert Join(rest, [sep]) == rest[0] + [sep] + Join(rest[1..], [sep]);
          assert Join(parts, [sep]) == [s[0]] + rest[0] + [sep] + Join(rest[1..], [sep]);
        }
        assert s == [s[0]] + s[1..];
      }
    }
  }

  /** Splitting pieces joined by a separator none of them contains gives them back. */
  lemma {:induction false} SplitJoin(parts: seq<string>, sep: char)
    requires |parts| >= 1
    requires forall k :: 0 <= k < |parts| ==> sep !in parts[k]
    ensures Split(Join(parts, [sep]), sep) == parts
    decreases |parts|, |parts[0]|
  {
    if parts[0] == [] {
      if |parts| > 1 {
        var tail := Join(parts[1..], [sep]);
        assert Join(parts, [sep]) == [sep] + tail;
        SplitCons(sep, tail, sep);
        SplitJoin(parts[1..], sep);
        assert parts == [""] + parts[1..];
      }
    } else {
      var c := parts[0][0];
      var shorter := [parts[0][1..]] + parts[1..];
      ShorterFree(parts, sep);
      SplitJoin(shorter, sep);
      JoinFirstChar(parts, [sep]);
      SplitCons(c, Join(shorter, [sep]), sep);
      assert c != sep by { assert c == parts[0][0]; }
      assert [[c] + shorter[0]] + shorter[1..] == parts by {
        assert [c] + parts[0][1..] == parts[0];
        assert shorter[1..] == parts[1..];
        assert parts == [parts[0]] + parts[1..];
      }
    }
  }

  /** Dropping the first character of the first piece keeps every piece free of the separator. */
  lemma ShorterFree(parts: seq<string>, sep: char)
    requires |parts| >= 1 && parts[0] != []
    requires forall k :: 0 <= k < |parts| ==> sep !in parts[k]
    ensures var shorter := [parts[0][1..]] + parts[1..];
      forall k :: 0 <= k < |shorter| ==> sep !in shorter[k]
  {
    var shorter := [parts[0][1..]] + parts[1..];
    forall k | 0 <= k < |shorter| ensures sep !in shorter[k] {
      if k == 0 {
        assert forall i :: 0 <= i < |parts[0][1..]| ==> parts[0][1..][i] == parts[0][i + 1];
      } else {
        assert shorter[k] == parts[k];
      }
    }
  }

  /** The joined string starts with the first character of the first piece. */
  lemma JoinFirstChar(parts: seq<string>, sep: string)
    requires |parts| >= 1 && parts[0] != []
    ensures Join(parts, sep) == [parts[0][0]] + Join([parts[0][1..]] + parts[1..], sep)
  {
    var shorter := [parts[0][1..]] + parts[1..];
    assert parts[0] == [parts[0][0]] + parts[0][1..];
    if |parts| > 1 {
      assert shorter[1..] == parts[1..];
    }
  }

  /** Splitting around one separator splits both sides. */
  lemma {:induction false} SplitAround(a: string, b: string, sep: char)
    ensures Split(a + [sep] + b, sep) == Split(a, sep) + Split(b, sep)
    decreases |a|
  {
    if a == [] {
      SplitCons(sep, b, sep);
      assert a + [sep] + b == [sep] + b;
    } else {
      var tail := a[1..] + [sep] + b;
      assert a + [sep] + b == [a[0]] + tail;
      assert a == [a[0]] + a[1..];
      SplitAround(a[1..], b, sep);
      SplitConsAppend(a[0], a[1..], tail, Split(b, sep), sep);
    }
  }

  /** The first-character step of `Split` commutes with appending further pieces. */
  lemma SplitConsAppend(c: char, t: string, u: string, more: seq<string>, sep: char)
    requires Split(u, sep) == Split(t, sep) + more
    ensures Split([c] + u, sep) == Split([c] + t, sep) + more
  {
    SplitCons(c, u, sep);
    SplitCons(c, t, sep);
    ConsStepAppend(c == sep, [c], Split(t, sep), more);
  }

  /** Starting a new first piece, or extending the first one, commutes with appending further pieces. */
  lemma ConsStepAppend(newPiece: bool, x: string, left: seq<string>, more: seq<string>)
    requires |left| >= 1
    ensures (if newPiece then [""] + (left + more) else [x + (left + more)[0]] + (left + more)[1..])
         == (if newPiece then [""] + left else [x + left[0]] + left[1..]) + more
  {
    assert (left + more)[1..] == left[1..] + more;
  }

  /** One step of `Split`: the first character either ends the first piece or joins it. */
  lemma SplitCons(c: char, t: string, sep: char)
    ensures Split([c] + t, sep)
         == if c == sep then [""] + Split(t, sep) else [[c] + Split(t, sep)[0]] + Split(t, sep)[1..]
  {
    assert ([c] + t)[0] == c && ([c] + t)[1..] == t;
  }

  /** `s.split_terminator(sep)`: `split`, with an empty last piece dropped. */
  function SplitTerminator(s: string, sep: char): (parts: seq<string>)
  {
    var all := Split(s, sep);
    if all[|all| - 1] == "" then all[..|all| - 1] else all
  }

  /** A piece of `lines()` with the `'\r'` of a `"\r\n"` ending removed. */
  function StripCr(line: string): string
  {
    if line != [] && line[|line| - 1] == '\r' then line[..|line| - 1] else line
  }

  /**
   * `s.lines()`: the pieces ended by `'\n'` (with a `'\r'` right before it
   * removed), then the rest of `s` if it is not empty.
   */
  function Lines(s: string): (ls: seq<string>)
  {
    var all := Split(s, '\n');
    var ended := seq(|all| - 1, i requires 0 <= i < |all| - 1 => StripCr(all[i]));
    if all[|all| - 1] == "" then ended else ended + [all[|all| - 1]]
  }

  // ---------------------------------------------------------------------------
  // bytes of UTF-8 and ASCII

  /** The number of bytes `c` takes in UTF-8. */
  function Utf8Width(c: char): (w: nat)
    ensures 1 <= w <= 4
  {
    if c as int < 0x80 then 1
    else if c as int < 0x800 then 2
    else if c as int < 0x1_0000 then 3
    else 4
  }

  /** Rust's `str::len`: the length of `s` in UTF-8 bytes. */
  function ByteLen(s: string): (n: nat)
    ensures n >= |s|
  {
    if s == [] then 0 else Utf8Width(s[0]) + ByteLen(s[1..])
  }

  predicate IsAscii(c: char) { c as int < 0x80 }

  predicate AllAscii(s: string) { forall i :: 0 <= i < |s| ==> IsAscii(s[i]) }

  /** An ASCII string takes one byte per character. */
  lemma {:induction false} ByteLenAscii(s: string)
    requires AllAscii(s)
    ensures ByteLen(s) == |s|
  {
    if s != [] {
      assert AllAscii(s[1..]) by {
        forall i | 0 <= i < |s[1..]| ensures IsAscii(s[1..][i]) { assert s[1..][i] == s[i + 1]; }
      }
      ByteLenAscii(s[1..]);
    }
  }

  predicate IsAsciiDigit(c: char) { '0' <= c <= '9' }

  predicate IsAsciiLetter(c: char) { ('a' <= c <= 'z') || ('A' <= c <= 'Z') }

  predicate IsAsciiAlphanumeric(c: char) { IsAsciiLetter(c) || IsAsciiDigit(c) }

  /** `char::to_ascii_uppercase`. */
  function AsciiUpper(c: char): (u: char)
    ensures 'a' <= c <= 'z' ==> u as int == c as int - 32
    ensures !('a' <= c <= 'z') ==> u == c
  {
    if 'a' <= c <= 'z' then (c as int - 32) as char else c
  }

  /** `char::to_ascii_lowercase`. */
  function AsciiLower(c: char): (l: char)
    ensures 'A' <= c <= 'Z' ==> l as int == c as int + 32
    ensures !('A' <= c <= 'Z') ==> l == c
  {
    if 'A' <= c <= 'Z' then (c as int + 32) as char else c
  }

  /** Lower-casing of a string, restricted to ASCII letters. */
  function AsciiLowercase(s: string): (r: string)
    ensures |r| == |s|
    ensures forall i :: 0 <= i < |s| ==> r[i] == AsciiLower(s[i])
  {
    seq(|s|, i requires 0 <= i < |s| => AsciiLower(s[i]))
  }

  /** Upper-casing of a string, restricted to ASCII letters. */
  function AsciiUppercase(s: string): (r: string)
    ensures |r| == |s|
    ensures forall i :: 0 <= i < |s| ==> r[i] == AsciiUpper(s[i])
  {
    seq(|s|, i requires 0 <= i < |s| => AsciiUpper(s[i]))
  }

  // ---------------------------------------------------------------------------
  // decimal numerals

  /** The ASCII digit for `d`. */
  function Digit(d: nat): (c: char)
    requires d < 10
    ensures IsAsciiDigit(c) && c as int - '0' as int == d
  {
    ('0' as int + d) as char
  }

  /** The value of an ASCII digit. */
  function DigitValue(c: char): (d: nat)
    requires IsAsciiDigit(c)
    ensures d < 10 && Digit(d) == c
  {
    c as int - '0' as int
  }

  /** The value of a string of ASCII digits, most significant first. */
  function DecimalValue(s: string): nat
    requires forall i :: 0 <= i < |s| ==> IsAsciiDigit(s[i])
  {
    if s == [] then 0 else DecimalValue(s[..|s| - 1]) * 10 + DigitValue(s[|s| - 1])
  }

  /** `Display` of an unsigned integer: its decimal numeral without leading zeros. */
  function NatToString(n: nat): (s: string)
    ensures 1 <= |s| && forall i :: 0 <= i < |s| ==> IsAsciiDigit(s[i])
    ensures |s| > 1 ==> s[0] != '0'
  {
    if n < 10 then [Digit(n)] else NatToString(n / 10) + [Digit(n % 10)]
  }

  /** Reading back the numeral that `NatToString` writes gives the number. */
  lemma {:induction false} NatToStringValue(n: nat)
    ensures DecimalValue(NatToString(n)) == n
  {
    var s := NatToString(n);
    if n >= 10 {
      NatToStringValue(n / 10);
      assert s[..|s| - 1] == NatToString(n / 10);
    }
  }
}
