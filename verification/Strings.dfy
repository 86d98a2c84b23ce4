/**
 * The handful of Rust `str` operations the CLI relies on, given the meaning
 * the Rust standard library gives them: `find`, `split`, `trim`,
 * `starts_with`, ASCII `to_lowercase`, `u64::from_str` and `u64` formatting.
 * Strings are sequences of characters; character indices stand for Rust's
 * byte offsets (they agree on ASCII text).
 */
module Strings {
  import opened Wrappers

  /** The largest `u64`. */
  const U64_MAX: nat := 0xFFFF_FFFF_FFFF_FFFF

  predicate StartsWith(s: string, prefix: string)
  {
    |prefix| <= |s| && s[..|prefix|] == prefix
  }

  /** The last `|a| + |b|` elements of `front + a + b` are `a + b`. */
  lemma EndsWithTwo<T>(front: seq<T>, a: seq<T>, b: seq<T>)
    ensures var s := front + a + b;
            |s| >= |a + b| && s[|s| - |a + b|..] == a + b
  {
    var s := front + a + b;
    assert s == front + (a + b);
    assert s[|front|..] == a + b;
  }

  /** A non-empty text is the text before its last character, then that character. */
  lemma LastSplit(s: string)
    requires |s| > 0
    ensures s == s[..|s| - 1] + [s[|s| - 1]] && s[..|s| - 1] + [s[|s| - 1]] + "" == s
  {
  }

  /** `str::find(c)`: the index of the first occurrence of `c`. */
  function Find(s: string, c: char): (r: Option<nat>)
    ensures r.Some? ==> r.value < |s| && s[r.value] == c && c !in s[..r.value]
    ensures r.None? ==> c !in s
  {
    if |s| == 0 then None
    else if s[0] == c then Some(0)
    else match Find(s[1..], c)
      case Some(i) =>
        assert s[..i + 1] == [s[0]] + s[1..][..i];
        Some(i + 1)
      case None =>
        assert s == [s[0]] + s[1..];
        None
  }

  /** The first `c` of `a + [c] + b` is the one after `a` when `a` has none. */
  lemma {:induction false} FindAfter(a: string, c: char, b: string)
    requires c !in a
    ensures Find(a + [c] + b, c) == Some(|a|)
  {
    if |a| > 0 {
      assert (a + [c] + b)[1..] == a[1..] + [c] + b;
      FindAfter(a[1..], c, b);
    }
  }

  /** The inverse of `Split`: the parts with one separator between each two. */
  function Join(parts: seq<string>, sep: char): string
    requires |parts| > 0
  {
    if |parts| == 1 then parts[0] else parts[0] + [sep] + Join(parts[1..], sep)
  }

  /** The first occurrence of `c` is at `i` when `s[i]` is `c` and no earlier character is. */
  lemma FindIs(s: string, c: char, i: nat)
    requires i < |s| && s[i] == c && c !in s[..i]
    ensures Find(s, c) == Some(i)
  {
    assert s[i] in s;
  }

  /** `str::split(sep)` collected into a vector: never empty, and joining the parts gives the text back. */
  function Split(s: string, sep: char): (parts: seq<string>)
    ensures |parts| > 0
    ensures forall i :: 0 <= i < |parts| ==> sep !in parts[i]
    ensures Join(parts, sep) == s
    decreases |s|
  {
    match Find(s, sep)
    case None => [s]
    case Some(i) =>
      var rest := Split(s[i + 1..], sep);
      assert ([s[..i]] + rest)[1..] == rest;
      assert s == s[..i] + [sep] + s[i + 1..];
      [s[..i]] + rest
  }

  /** Splitting a joined text gives back the parts, provided none of them holds the separator. */
  lemma {:induction false} SplitJoin(parts: seq<string>, sep: char)
    requires |parts| > 0
    requires forall i :: 0 <= i < |parts| ==> sep !in parts[i]
    ensures Split(Join(parts, sep), sep) == parts
  {
    if |parts| > 1 {
      var rest := Join(parts[1..], sep);
      FindAfter(parts[0], sep, rest);
      assert (parts[0] + [sep] + rest)[|parts[0]| + 1..] == rest;
      assert (parts[0] + [sep] + rest)[..|parts[0]|] == parts[0];
      SplitJoin(parts[1..], sep);
      assert parts == [parts[0]] + parts[1..];
    }
  }

  /** A text without the separator is its own single part. */
  lemma SplitNone(s: string, sep: char)
    requires sep !in s
    ensures Split(s, sep) == [s]
  {
    SplitJoin([s], sep);
  }

  /** A text has a single part exactly when it holds no separator. */
  lemma SplitSingle(s: string, sep: char)
    ensures |Split(s, sep)| == 1 <==> sep !in s
  {
    if sep !in s {
      SplitNone(s, sep);
    }
  }

  lemma JoinTwo(parts: seq<string>, sep: char)
    requires |parts| == 2
    ensures Join(parts, sep) == parts[0] + [sep] + parts[1]
  {
    assert parts[1..] == [parts[1]];
  }

  lemma JoinThree(parts: seq<string>, sep: char)
    requires |parts| == 3
    ensures Join(parts, sep) == parts[0] + [sep] + parts[1] + [sep] + parts[2]
  {
    JoinTwo(parts[1..], sep);
  }

  /** Cutting at the first separator: the text before it, then the parts of the rest. */
  lemma SplitAfter(a: string, sep: char, b: string)
    requires sep !in a
    ensures Split(a + [sep] + b, sep) == [a] + Split(b, sep)
  {
    var s := a + [sep] + b;
    FindAfter(a, sep, b);
    assert s[..|a|] == a;
    assert s[|a| + 1..] == b;
  }

  /** Joining all the parts is joining the first `j`, a separator, then the rest. */
  lemma {:induction false} JoinAt(parts: seq<string>, sep: char, j: nat)
    requires 0 < j < |parts|
    ensures Join(parts, sep) == Join(parts[..j], sep) + [sep] + Join(parts[j..], sep)
  {
    if j > 1 {
      JoinAt(parts[1..], sep, j - 1);
      assert parts[..j][1..] == parts[1..][..j - 1];
      assert parts[1..][j - 1..] == parts[j..];
    }
  }

  /** Splitting two texts joined by a separator gives the parts of the first, then those of the second. */
  lemma SplitConcat(a: string, sep: char, b: string)
    ensures Split(a + [sep] + b, sep) == Split(a, sep) + Split(b, sep)
  {
    var front, back := Split(a, sep), Split(b, sep);
    var parts := front + back;
    JoinAt(parts, sep, |front|);
    assert parts[..|front|] == front && parts[|front|..] == back;
    forall i | 0 <= i < |parts|
      ensures sep !in parts[i]
    {
      if i >= |front| {
        assert parts[i] == back[i - |front|];
      }
    }
    SplitJoin(parts, sep);
  }

  lemma SplitJoinTwo(a: string, b: string, sep: char)
    requires sep !in a && sep !in b
    ensures Split(a + [sep] + b, sep) == [a, b]
  {
    SplitAfter(a, sep, b);
    SplitNone(b, sep);
  }

  lemma SplitJoinThree(a: string, b: string, c: string, sep: char)
    requires sep !in a && sep !in b && sep !in c
    ensures Split(a + [sep] + b + [sep] + c, sep) == [a, b, c]
  {
    var rest := b + [sep] + c;
    var whole := a + [sep] + b + [sep] + c;
    assert whole == a + [sep] + rest;
    SplitJoinTwo(b, c, sep);
    SplitAfter(a, sep, rest);
    assert Split(whole, sep) == [a] + [b, c];
  }

  predicate IsDigit(ch: char)
  {
    '0' <= ch <= '9'
  }

  predicate AllDigits(s: string)
  {
    forall i :: 0 <= i < |s| ==> IsDigit(s[i])
  }

  /** The value of a decimal digit string, most significant digit first. */
  function DigitsValue(s: string): nat
    requires AllDigits(s)
  {
    if |s| == 0 then 0 else DigitsValue(s[..|s| - 1]) * 10 + (s[|s| - 1] as int - '0' as int)
  }

  /**
   * `u64::from_str`: an optional `+`, then one or more decimal digits whose
   * value fits in 64 bits.
   */
  function ParseU64(s: string): (r: Option<nat>)
    ensures r.Some? ==> r.value <= U64_MAX
  {
    var digits := if |s| > 0 && s[0] == '+' then s[1..] else s;
    if |digits| > 0 && AllDigits(digits) && DigitsValue(digits) <= U64_MAX
    then Some(DigitsValue(digits))
    else None
  }

  function DigitChar(d: nat): (c: char)
    requires d < 10
    ensures IsDigit(c) && c as int - '0' as int == d
  {
    ('0' as int + d) as char
  }

  /** Digit text holds no separator, sign or quote. */
  lemma DigitsHaveNo(s: string, c: char)
    requires AllDigits(s) && !IsDigit(c)
    ensures c !in s
  {
  }

  /** Canonical decimal text: digits only, and no leading zero unless the text is "0". */
  predicate IsCanonicalDecimal(s: string)
  {
    |s| > 0 && AllDigits(s) && (s[0] == '0' ==> |s| == 1)
  }

  /** `u64` formatting with `{}`: canonical decimal text. */
  function NatToString(n: nat): (s: string)
    ensures IsCanonicalDecimal(s)
    ensures s[0] == '0' <==> n == 0
  {
    if n < 10 then [DigitChar(n)] else NatToString(n / 10) + [DigitChar(n % 10)]
  }

  lemma {:induction false} DigitsValueOfNatToString(n: nat)
    ensures DigitsValue(NatToString(n)) == n
  {
    if n >= 10 {
      var s := NatToString(n);
      assert s[..|s| - 1] == NatToString(n / 10);
      DigitsValueOfNatToString(n / 10);
    }
  }

  /** Formatting a `u64` and parsing it back gives the number. */
  lemma ParseU64OfNatToString(n: nat)
    requires n <= U64_MAX
    ensures ParseU64(NatToString(n)) == Some(n)
  {
    DigitsValueOfNatToString(n);
  }

  lemma {:induction false} DigitsValuePositive(s: string)
    requires |s| > 0 && AllDigits(s) && s[0] != '0'
    ensures DigitsValue(s) > 0
  {
    if |s| > 1 {
      DigitsValuePositive(s[..|s| - 1]);
    }
  }

  /** Parsing canonical decimal text and formatting the number gives the text back. */
  lemma {:induction false} NatToStringOfDigits(s: string)
    requires IsCanonicalDecimal(s)
    ensures NatToString(DigitsValue(s)) == s
  {
    if |s| > 1 {
      var p := s[..|s| - 1];
      DigitsValuePositive(p);
      NatToStringOfDigits(p);
      var d := s[|s| - 1] as int - '0' as int;
      assert DigitsValue(s) == DigitsValue(p) * 10 + d;
      DivModDigit(DigitsValue(p), d);
      assert DigitChar(d) == s[|s| - 1];
      assert s == p + [s[|s| - 1]];
    }
  }

  lemma DivModDigit(q: nat, d: nat)
    requires d < 10
    ensures (q * 10 + d) / 10 == q && (q * 10 + d) % 10 == d
  {
  }

  /** Canonical decimal text of a `u64` parses to its value and is how that value prints. */
  lemma CanonicalNumber(s: string)
    requires IsCanonicalDecimal(s) && DigitsValue(s) <= U64_MAX
    ensures ParseU64(s) == Some(DigitsValue(s)) && NatToString(DigitsValue(s)) == s
  {
    NatToStringOfDigits(s);
  }

  /**
   * Unicode White_Space, the set `char::is_whitespace` (and so `str::trim`)
   * uses.
   */
  predicate IsWhitespace(c: char)
  {
    ('\t' <= c <= '\r') || c == ' ' || c == '\U{85}' || c == '\U{A0}' || c == '\U{1680}'
    || ('\U{2000}' <= c <= '\U{200A}') || c == '\U{2028}' || c == '\U{2029}'
    || c == '\U{202F}' || c == '\U{205F}' || c == '\U{3000}'
  }

  function TrimStart(s: string): (r: string)
    ensures |r| <= |s| && r == s[|s| - |r|..]
    ensures |r| > 0 ==> !IsWhitespace(r[0])
    ensures forall i :: 0 <= i < |s| - |r| ==> IsWhitespace(s[i])
  {
    if |s| > 0 && IsWhitespace(s[0]) then TrimStart(s[1..]) else s
  }

  function TrimEnd(s: string): (r: string)
    ensures |r| <= |s| && r == s[..|r|]
    ensures |r| > 0 ==> !IsWhitespace(r[|r| - 1])
    ensures forall i :: |r| <= i < |s| ==> IsWhitespace(s[i])
  {
    if |s| > 0 && IsWhitespace(s[|s| - 1]) then TrimEnd(s[..|s| - 1]) else s
  }

  /** `str::trim`: the text without leading and trailing white space. */
  function Trim(s: string): string
  {
    TrimEnd(TrimStart(s))
  }

  /** Trimming leaves a text that starts with a non-space character starting with it. */
  lemma TrimFirst(s: string)
    requires |s| > 0 && !IsWhitespace(s[0])
    ensures |Trim(s)| > 0 && Trim(s)[0] == s[0]
  {
    var t := TrimStart(s);
    assert t == s;
    var u := TrimEnd(t);
    assert |u| > 0;
  }

  /** Trimmed text starts at the first non-space character, after white space only. */
  lemma TrimStartIndex(s: string)
    ensures var w := |s| - |TrimStart(s)|;
            |Trim(s)| > 0 ==> w < |s| && Trim(s)[0] == s[w] && forall i :: 0 <= i < w ==> IsWhitespace(s[i])
  {
  }

  lemma TrimStartKeeps(s: string, c: char)
    requires !IsWhitespace(c)
    ensures c in TrimStart(s) <==> c in s
  {
    var t := TrimStart(s);
    var w := |s| - |t|;
    assert t == s[w..];
    if c in s {
      var i :| 0 <= i < |s| && s[i] == c;
      assert i >= w;
      assert t[i - w] == c;
    }
    if c in t {
      var i :| 0 <= i < |t| && t[i] == c;
      assert s[i + w] == c;
    }
  }

  lemma TrimEndKeeps(s: string, c: char)
    requires !IsWhitespace(c)
    ensures c in TrimEnd(s) <==> c in s
  {
    var u := TrimEnd(s);
    if c in s {
      var i :| 0 <= i < |s| && s[i] == c;
      assert u[i] == c;
    }
    if c in u {
      var i :| 0 <= i < |u| && u[i] == c;
      assert s[i] == c;
    }
  }

  /** Trimming keeps every character that is not white space. */
  lemma TrimKeeps(s: string, c: char)
    requires !IsWhitespace(c)
    ensures c in Trim(s) <==> c in s
  {
    TrimStartKeeps(s, c);
    TrimEndKeeps(TrimStart(s), c);
  }

  function LowerChar(c: char): char
  {
    if 'A' <= c <= 'Z' then (c as int + 32) as char else c
  }

  /** `str::to_lowercase`, restricted to the ASCII letters. */
  function ToLowerAscii(s: string): (r: string)
    ensures |r| == |s| && forall i :: 0 <= i < |s| ==> r[i] == LowerChar(s[i])
  {
    seq(|s|, i requires 0 <= i < |s| => LowerChar(s[i]))
  }

  predicate IsLowerAscii(s: string)
  {
    forall i :: 0 <= i < |s| ==> !('A' <= s[i] <= 'Z')
  }

  /** Text without upper-case ASCII letters is its own lower-case form. */
  lemma ToLowerAsciiFixed(s: string)
    requires IsLowerAscii(s)
    ensures ToLowerAscii(s) == s
  {
  }

  /** `pat` occurs in `s` starting at index `j`. */
  predicate OccursAt(s: string, pat: string, j: nat)
  {
    j + |pat| <= |s| && s[j..j + |pat|] == pat
  }

  /** `str::find(pat)` for a pattern text: the first index where `pat` occurs. */
  function FindText(s: string, pat: string): (r: Option<nat>)
    ensures r.Some? ==> OccursAt(s, pat, r.value)
    ensures r.Some? ==> forall j: nat :: j < r.value ==> !OccursAt(s, pat, j)
    ensures r.None? ==> forall j: nat :: !OccursAt(s, pat, j)
    decreases |s|
  {
    if |pat| > |s| then None
    else if s[..|pat|] == pat then Some(0)
    else
      var r := FindText(s[1..], pat);
      assert forall j: nat :: OccursAt(s, pat, j + 1) <==> OccursAt(s[1..], pat, j) by {
        forall j: nat
          ensures OccursAt(s, pat, j + 1) <==> OccursAt(s[1..], pat, j)
        {
          if j + 1 + |pat| <= |s| {
            var a, b := s[j + 1..j + 1 + |pat|], s[1..][j..j + |pat|];
            assert forall k :: 0 <= k < |pat| ==> a[k] == b[k];
            assert a == b;
          }
        }
      }
      match r
      case None =>
        assert forall j: nat :: !OccursAt(s, pat, j) by {
          forall j: nat
            ensures !OccursAt(s, pat, j)
          {
            if j > 0 {
              assert !OccursAt(s[1..], pat, j - 1);
            }
          }
        }
        None
      case Some(i) =>
        assert forall j: nat :: j < i + 1 ==> !OccursAt(s, pat, j) by {
          forall j: nat | j < i + 1
            ensures !OccursAt(s, pat, j)
          {
            if j > 0 {
              assert !OccursAt(s[1..], pat, j - 1);
            }
          }
        }
        Some(i + 1)
  }

  /** `str::replacen(pat, to, 1)`: the first occurrence of `pat` replaced, or the text unchanged. */
  function ReplaceFirst(s: string, pat: string, to: string): (r: string)
    ensures FindText(s, pat).None? ==> r == s
  {
    match FindText(s, pat)
    case None => s
    case Some(i) => s[..i] + to + s[i + |pat|..]
  }

  /** A line without the carriage return of a CRLF ending. */
  function StripCR(piece: string): string
  {
    if |piece| > 0 && piece[|piece| - 1] == '\r' then piece[..|piece| - 1] else piece
  }

  /**
   * `str::lines`: the text cut at each `\n`, a `\r` just before a `\n`
   * dropped, and no empty last line after a final line ending.
   */
  function Lines(content: string): (lines: seq<string>)
    ensures var parts := Split(content, '\n');
            && (|lines| == |parts| || |lines| == |parts| - 1)
            && (forall i :: 0 <= i < |lines| && i < |parts| - 1 ==> lines[i] == StripCR(parts[i]))
            && (|lines| == |parts| ==> lines[|parts| - 1] == parts[|parts| - 1] != "")
            && (|lines| == |parts| - 1 ==> parts[|parts| - 1] == "")
    ensures forall i :: 0 <= i < |lines| ==> '\n' !in lines[i]
  {
    var parts := Split(content, '\n');
    var init := parts[..|parts| - 1];
    var last := parts[|parts| - 1];
    seq(|init|, i requires 0 <= i < |init| => StripCR(init[i])) + (if last == "" then [] else [last])
  }

  /** Each line is its piece of the text, or that piece without a final `\r`. */
  lemma LinePrefix(content: string, i: nat)
    requires i < |Lines(content)|
    ensures var parts, lines := Split(content, '\n'), Lines(content);
            i < |parts| && (parts[i] == lines[i] || parts[i] == lines[i] + "\r")
  {
    var parts, lines := Split(content, '\n'), Lines(content);
    var piece := parts[i];
    if i < |parts| - 1 && |piece| > 0 && piece[|piece| - 1] == '\r' {
      assert lines[i] == piece[..|piece| - 1];
      assert piece == piece[..|piece| - 1] + "\r";
    }
  }

  /** Replacing one part by a text without the separator: the split of the joined result is the edited parts. */
  lemma SplitJoinEdited(parts: seq<string>, sep: char, i: nat, piece: string)
    requires i < |parts| && sep !in piece
    requires forall j :: 0 <= j < |parts| ==> sep !in parts[j]
    ensures Split(Join(parts[i := piece], sep), sep) == parts[i := piece]
  {
    var edited := parts[i := piece];
    assert forall j :: 0 <= j < |edited| ==> sep !in edited[j];
    SplitJoin(edited, sep);
  }

  /** Each line followed by a `\n`: the text `push_str` builds line by line. */
  function ConcatLines(lines: seq<string>): string
  {
    if |lines| == 0 then "" else lines[0] + "\n" + ConcatLines(lines[1..])
  }

  lemma {:induction false} ConcatLinesAppend(a: seq<string>, b: seq<string>)
    ensures ConcatLines(a + b) == ConcatLines(a) + ConcatLines(b)
    decreases |a|
  {
    if |a| == 0 {
      assert a + b == b;
    } else {
      assert (a + b)[1..] == a[1..] + b;
      ConcatLinesAppend(a[1..], b);
    }
  }

  /** None of the lines holds a line break. */
  predicate NoLineBreaks(lines: seq<string>)
  {
    forall i :: 0 <= i < |lines| ==> '\n' !in lines[i]
  }

  lemma NoLineBreaksAppend(a: seq<string>, b: seq<string>)
    requires NoLineBreaks(a) && NoLineBreaks(b)
    ensures NoLineBreaks(a + b)
  {
    forall i | 0 <= i < |a + b|
      ensures '\n' !in (a + b)[i]
    {
      if i >= |a| {
        assert (a + b)[i] == b[i - |a|];
      }
    }
  }

  /** Splitting lines that hold no `\n` at their line endings gives the lines back, then the parts of what follows. */
  lemma {:induction false} SplitConcatLines(lines: seq<string>, rest: string)
    requires NoLineBreaks(lines)
    ensures Split(ConcatLines(lines) + rest, '\n') == lines + Split(rest, '\n')
    decreases |lines|
  {
    if |lines| == 0 {
      assert ConcatLines(lines) + rest == rest;
    } else {
      var tail := ConcatLines(lines[1..]) + rest;
      assert ConcatLines(lines) + rest == lines[0] + ['\n'] + tail;
      SplitAfter(lines[0], '\n', tail);
      SplitConcatLines(lines[1..], rest);
      ConsAppend(lines, Split(rest, '\n'));
    }
  }

  lemma ConsAppend<T>(s: seq<T>, b: seq<T>)
    requires |s| > 0
    ensures [s[0]] + (s[1..] + b) == s + b
  {
    assert s == [s[0]] + s[1..];
  }

  /** `[String]::join(sep)` with a text separator: nothing for no parts, and `sep` between each two. */
  function JoinText(parts: seq<string>, sep: string): string
  {
    if |parts| == 0 then "" else if |parts| == 1 then parts[0] else parts[0] + sep + JoinText(parts[1..], sep)
  }

  /** A character in none of the parts nor in the separator is not in their join. */
  lemma {:induction false} JoinTextHasNo(parts: seq<string>, sep: string, c: char)
    requires c !in sep
    requires forall i :: 0 <= i < |parts| ==> c !in parts[i]
    ensures c !in JoinText(parts, sep)
    decreases |parts|
  {
    if |parts| > 1 {
      JoinTextHasNo(parts[1..], sep, c);
    }
  }

  /** The parts of a path that name something: the pieces between `/`, less the empty ones and `.`. */
  function NamedParts(pieces: seq<string>): seq<string>
  {
    if |pieces| == 0 then []
    else (if pieces[0] == "" || pieces[0] == "." then [] else [pieces[0]]) + NamedParts(pieces[1..])
  }

  lemma {:induction false} NamedPartsAppend(a: seq<string>, b: seq<string>)
    ensures NamedParts(a + b) == NamedParts(a) + NamedParts(b)
  {
    if |a| > 0 {
      assert (a + b)[1..] == a[1..] + b;
      NamedPartsAppend(a[1..], b);
    } else {
      assert a + b == b;
    }
  }
}
