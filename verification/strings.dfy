/** The string helpers: HTML escaping and unescaping, regular-expression escaping,
    `truncate`, `reverse`, `countOccurrences` and `mask`. A Dafny `char` is a Unicode
    scalar value, while a JavaScript string's `length`, `slice` and `indexOf` count
    UTF-16 code units; the helpers built on those work on `JsString` below. */
module Strings {
  import opened Prelude

  /** One UTF-16 code unit. */
  newtype CodeUnit = x: int | 0 <= x < 0x1_0000

  /** A JavaScript string as `length`, `slice` and `indexOf` see it. */
  type JsString = seq<CodeUnit>

  /** The code units of one character: itself below U+10000, otherwise a surrogate
      pair. */
  function EncodeChar(c: char): (r: JsString)
    ensures 1 <= |r| <= 2
    ensures |r| == 1 <==> (c as int) < 0x1_0000
    ensures |r| == 1 ==> r[0] as int == c as int
    ensures |r| == 2 ==> 0xD800 <= r[0] as int < 0xDC00 <= r[1] as int < 0xE000
  {
    var v := c as int;
    if v < 0x1_0000 then [v as CodeUnit]
    else
      var w := v - 0x1_0000;
      [(0xD800 + w / 0x400) as CodeUnit, (0xDC00 + w % 0x400) as CodeUnit]
  }

  /** The UTF-16 encoding of a string: the value JavaScript works on. */
  function Utf16(s: string): (r: JsString)
    ensures |r| >= |s|
    ensures (forall i :: 0 <= i < |s| ==> (s[i] as int) < 0x1_0000) ==>
              |r| == |s| && forall i :: 0 <= i < |s| ==> r[i] as int == s[i] as int
  {
    if |s| == 0 then [] else EncodeChar(s[0]) + Utf16(s[1..])
  }

  /** The double quote, the single quote and the backslash, by code point. */
  const DoubleQuote: char := 34 as char
  const SingleQuote: char := 39 as char
  const Backslash: char := 92 as char

  /** The characters `escapeHtml` replaces by an entity. */
  predicate HtmlSpecial(c: char) {
    c == '&' || c == '<' || c == '>' || c == DoubleQuote || c == SingleQuote
  }

  /** None of the characters an entity stands for except `&`. */
  predicate Inert(c: char) {
    c != '<' && c != '>' && c != DoubleQuote && c != SingleQuote
  }

  /** The entity `escapeHtml` writes for one character (the character itself when it
      is not special). */
  function EscapeChar(c: char): (r: string)
    ensures HtmlSpecial(c) ==> |r| >= 4 && r[0] == '&' && r[|r| - 1] == ';'
    ensures !HtmlSpecial(c) ==> r == [c]
    ensures forall i :: 0 <= i < |r| ==> Inert(r[i])
  {
    match c
    case '&' => "&amp;"
    case '<' => "&lt;"
    case '>' => "&gt;"
    case _ =>
      if c == DoubleQuote then "&quot;"
      else if c == SingleQuote then "&#39;"
      else [c]
  }

  /** `escapeHtml(str)`: every special character becomes its entity, so none of
      `<`, `>` or a quote is left in the output. */
  function EscapeHtml(s: string): (r: string)
    ensures forall i :: 0 <= i < |r| ==> Inert(r[i])
    ensures |r| >= |s|
  {
    if |s| == 0 then []
    else
      var h, rest := EscapeChar(s[0]), EscapeHtml(s[1..]);
      assert forall i :: |h| <= i < |h| + |rest| ==> (h + rest)[i] == rest[i - |h|];
      h + rest
  }

  /** `unescapeHtml(str)`: a left-to-right scan that replaces each of the five entities
      by its character and copies everything else; replaced text is not rescanned. */
  function UnescapeHtml(s: string): (r: string)
    ensures |r| <= |s|
    ensures '&' !in s ==> r == s
  {
    if |s| == 0 then []
    else
      assert '&' !in s ==> s[0] != '&' && s[0] in s;
      if "&amp;" <= s then "&" + UnescapeHtml(s[5..])
      else if "&lt;" <= s then "<" + UnescapeHtml(s[4..])
      else if "&gt;" <= s then ">" + UnescapeHtml(s[4..])
      else if "&quot;" <= s then [DoubleQuote] + UnescapeHtml(s[6..])
      else if "&#39;" <= s then [SingleQuote] + UnescapeHtml(s[5..])
      else
        assert s == [s[0]] + s[1..];
        [s[0]] + UnescapeHtml(s[1..])
  }

  lemma UnescapeOne(c: char, t: string)
    ensures UnescapeHtml(EscapeChar(c) + t) == [c] + UnescapeHtml(t)
  {
    if HtmlSpecial(c) {
      UnescapeEntity(c, t);
    } else {
      UnescapePlain(c, t);
    }
  }

  /** A character that starts no entity is copied. */
  lemma UnescapePlain(c: char, t: string)
    requires c != '&'
    ensures UnescapeHtml([c] + t) == [c] + UnescapeHtml(t)
  {
    var e := [c] + t;
    assert e[0] == c && e[1..] == t;
    assert !("&amp;" <= e) && !("&lt;" <= e) && !("&gt;" <= e) && !("&quot;" <= e) && !("&#39;" <= e);
  }

  /** The entity of a special character reads back as that character. */
  lemma UnescapeEntity(c: char, t: string)
    requires HtmlSpecial(c)
    ensures UnescapeHtml(EscapeChar(c) + t) == [c] + UnescapeHtml(t)
  {
    var x := EscapeChar(c);
    var e := x + t;
    assert e[..|x|] == x && e[|x|..] == t;
    assert e[0] == '&' && e[1] == x[1];
    if c != '&' {
      assert !("&amp;" <= e);
      if c != '<' {
        assert !("&lt;" <= e);
        if c != '>' {
          assert !("&gt;" <= e);
          if c != DoubleQuote {
            assert !("&quot;" <= e);
          }
        }
      }
    }
  }

  /** Unescaping undoes escaping, for every string. */
  lemma {:induction false} UnescapeEscape(s: string)
    ensures UnescapeHtml(EscapeHtml(s)) == s
  {
    if |s| > 0 {
      UnescapeOne(s[0], EscapeHtml(s[1..]));
      UnescapeEscape(s[1..]);
      assert s == [s[0]] + s[1..];
    }
  }

  /** The characters `escapeRegExp` protects with a backslash. */
  predicate RegExpSpecial(c: char) {
    c in ".*+?^${}()|[]" || c == Backslash
  }

  /** `escapeRegExp(str)`: a backslash in front of every special character. The
      result is a pattern that matches exactly the original text. */
  function EscapeRegExp(s: string): (r: string)
    ensures |s| <= |r| <= 2 * |s|
    ensures |s| > 0 && !RegExpSpecial(s[0]) ==> r[0] == s[0]
    ensures |s| > 0 && RegExpSpecial(s[0]) ==> |r| >= 2 && r[0] == Backslash && r[1] == s[0]
    ensures ReadPattern(r) == Some(s)
  {
    if |s| == 0 then []
    else
      var head := if RegExpSpecial(s[0]) then [Backslash, s[0]] else [s[0]];
      var rest := EscapeRegExp(s[1..]);
      ReadHead(head, rest);
      assert s == [s[0]] + s[1..];
      assert (head + rest)[..|head|] == head;
      head + rest
  }

  /** The text a pattern of literal characters matches, read strictly: a special
      character stands for itself only behind a backslash, and a backslash may only
      protect a special character. Anything else is not such a pattern. */
  function ReadPattern(p: string): (r: Option<string>)
    ensures r.Some? ==> |r.value| <= |p|
  {
    if |p| == 0 then Some([])
    else if p[0] == Backslash then
      if |p| >= 2 && RegExpSpecial(p[1]) then Prepend(p[1], ReadPattern(p[2..])) else None
    else if RegExpSpecial(p[0]) then None
    else Prepend(p[0], ReadPattern(p[1..]))
  }

  /** `c` in front of a successful reading; a failure stays a failure. */
  function Prepend(c: char, r: Option<string>): (q: Option<string>)
    ensures q.Some? <==> r.Some?
    ensures r.Some? ==> q.value == [c] + r.value
  {
    if r.Some? then Some([c] + r.value) else None
  }

  /** One escaped character in front of a pattern is read before the pattern. */
  lemma ReadHead(head: string, rest: string)
    requires (|head| == 1 && head[0] != Backslash && !RegExpSpecial(head[0])) ||
             (|head| == 2 && head[0] == Backslash && RegExpSpecial(head[1]))
    ensures ReadPattern(head + rest) == Prepend(head[|head| - 1], ReadPattern(rest))
  {
    var p := head + rest;
    assert p[|head|..] == rest;
    assert p[0] == head[0];
    if |head| == 2 {
      assert p[1] == head[1];
    }
  }

  /** The escaped text is the only pattern that reads as `s`: reading a pattern gives
      `s` exactly when the pattern is `escapeRegExp(s)`. */
  lemma {:induction false} ReadEscaped(p: string, s: string)
    ensures ReadPattern(p) == Some(s) <==> p == EscapeRegExp(s)
    decreases |p|
  {
    if ReadPattern(p) == Some(s) && |p| > 0 {
      var k := if p[0] == Backslash then 2 else 1;
      ReadEscaped(p[k..], s[1..]);
      assert p == p[..k] + p[k..];
      assert s == [s[0]] + s[1..];
    }
  }

  /** `truncate(str, length, suffix)` exactly as written: `str.slice(0, length -
      suffix.length) + suffix`. When `length` is shorter than the suffix, the slice end
      is negative and counts back from the end of `str`. */
  function TruncateAsWritten(s: JsString, length: int, suffix: JsString): (r: JsString)
    ensures |s| <= length ==> r == s
    ensures |s| > length ==> |r| >= |suffix| && r[|r| - |suffix|..] == suffix
    ensures |s| > length && length >= |suffix| ==> |r| == length && r[..|r| - |suffix|] == s[..length - |suffix|]
  {
    if |s| <= length then s
    else Slice(s, 0, length - |suffix|) + suffix
  }

  /** With the default suffix `"..."` and a limit of 2, the result is longer than the
      input it was meant to shorten: `"abcdef"` becomes `"abcde..."`. */
  lemma TruncateGrows()
    ensures var text: JsString := [97, 98, 99, 100, 101, 102];
      var dots: JsString := [46, 46, 46];
      TruncateAsWritten(text, 2, dots) == text[..5] + dots &&
      |TruncateAsWritten(text, 2, dots)| > |text|
  {
    var text: JsString := [97, 98, 99, 100, 101, 102];
    assert Slice(text, 0, -1) == text[..5];
  }

  /** `truncate` with the slice end clamped at zero: when the text does not fit, the
      result is a prefix of it followed by the suffix, and is never longer than the
      limit or the suffix, whichever is longer. */
  function Truncate(s: JsString, length: int, suffix: JsString): (r: JsString)
    ensures |s| <= length ==> r == s
    ensures |s| > length ==> |r| >= |suffix| && r[|r| - |suffix|..] == suffix
    ensures |s| > length ==> r[..|r| - |suffix|] <= s
    ensures |s| > length ==> |r| <= Max(length, |suffix|)
    ensures length >= |suffix| ==> r == TruncateAsWritten(s, length, suffix)
  {
    if |s| <= length then s
    else s[..Max(length - |suffix|, 0)] + suffix
  }

  /** The limit counts code units: each of two characters above U+FFFF takes two, so
      the text does not fit in 3 and only the suffix is left. */
  lemma TruncateCountsCodeUnits()
    ensures |Utf16("\U{1F600}\U{1F600}")| == 4
    ensures Truncate(Utf16("\U{1F600}\U{1F600}"), 3, Utf16("...")) == Utf16("...")
  {
    assert Utf16("\U{1F600}\U{1F600}") == [0xD83D, 0xDE00, 0xD83D, 0xDE00];
    assert Utf16("...") == [46, 46, 46];
  }

  /** `reverse(str)`. */
  function Reverse(s: string): (r: string)
    ensures |r| == |s|
    ensures forall i :: 0 <= i < |s| ==> r[i] == s[|s| - 1 - i]
  {
    if |s| == 0 then [] else Reverse(s[1..]) + [s[0]]
  }

  /** Reversing twice gives the string back. */
  lemma ReverseTwice(s: string)
    ensures Reverse(Reverse(s)) == s
  {
  }

  /** `sub` occurs in `s` starting at `i`. */
  predicate OccursAt(s: JsString, sub: JsString, i: int) {
    0 <= i && i + |sub| <= |s| && s[i..i + |sub|] == sub
  }

  /** `s.indexOf(sub, from)`: the first occurrence at or after `from`, or -1. */
  function IndexOf(s: JsString, sub: JsString, from: nat): (r: int)
    requires from <= |s|
    ensures r == -1 || (from <= r && OccursAt(s, sub, r))
    ensures r == -1 ==> forall i :: from <= i ==> !OccursAt(s, sub, i)
    ensures r != -1 ==> forall i :: from <= i < r ==> !OccursAt(s, sub, i)
    decreases |s| - from
  {
    if from + |sub| > |s| then -1
    else if s[from..from + |sub|] == sub then from
    else IndexOf(s, sub, from + 1)
  }

  /** Occurrences counted the way a reader counts them: scan left to right, and after
      each match continue behind it, so matches never overlap. */
  function Count(s: JsString, sub: JsString, from: nat): nat
    requires |sub| > 0
    decreases |s| - from
  {
    if from + |sub| > |s| then 0
    else if OccursAt(s, sub, from) then 1 + Count(s, sub, from + |sub|)
    else Count(s, sub, from + 1)
  }

  /** The count from `from` is the count from the next occurrence. */
  lemma {:induction false} CountSkips(s: JsString, sub: JsString, from: nat)
    requires |sub| > 0 && from <= |s|
    ensures IndexOf(s, sub, from) == -1 ==> Count(s, sub, from) == 0
    ensures IndexOf(s, sub, from) != -1 ==> Count(s, sub, from) == Count(s, sub, IndexOf(s, sub, from))
    decreases |s| - from
  {
    if from + |sub| <= |s| && !OccursAt(s, sub, from) {
      CountSkips(s, sub, from + 1);
    }
  }

  /** `countOccurrences(str, substr)`: 0 for an empty `substr`; otherwise repeated
      `indexOf` calls, each starting behind the previous match. */
  method CountOccurrences(s: JsString, sub: JsString) returns (count: nat)
    ensures |sub| == 0 ==> count == 0
    ensures |sub| > 0 ==> count == Count(s, sub, 0)
  {
    if |sub| == 0 { return 0; }
    count := 0;
    var pos := 0;
    while true
      invariant 0 <= pos <= |s|
      invariant count + Count(s, sub, pos) == Count(s, sub, 0)
      decreases |s| - pos
    {
      var next := IndexOf(s, sub, pos);
      CountSkips(s, sub, pos);
      if next == -1 { return; }
      count := count + 1;
      pos := next + |sub|;
    }
  }

  /** The count is zero exactly when `sub` does not occur. */
  lemma {:induction false} CountZero(s: JsString, sub: JsString, from: nat)
    requires |sub| > 0 && from <= |s|
    ensures Count(s, sub, from) == 0 <==> forall i :: from <= i ==> !OccursAt(s, sub, i)
    decreases |s| - from
  {
    if from + |sub| <= |s| && !OccursAt(s, sub, from) {
      CountZero(s, sub, from + 1);
    }
  }

  /** The matches the count stands for fit side by side into the text. */
  lemma {:induction false} CountFits(s: JsString, sub: JsString, from: nat)
    requires |sub| > 0 && from <= |s|
    ensures Count(s, sub, from) * |sub| <= |s| - from
    decreases |s| - from
  {
    if from + |sub| <= |s| {
      if OccursAt(s, sub, from) {
        CountFits(s, sub, from + |sub|);
        var c := Count(s, sub, from + |sub|);
        assert Count(s, sub, from) == 1 + c;
        OneMore(c, |sub|);
      } else {
        CountFits(s, sub, from + 1);
        assert Count(s, sub, from) == Count(s, sub, from + 1);
      }
    }
  }

  lemma OneMore(c: nat, k: nat)
    ensures (1 + c) * k == c * k + k
  {
  }

  /** `char.repeat(n)`. */
  function Repeat(c: JsString, n: nat): (r: JsString)
    ensures |r| == |c| * n
    ensures |c| == 1 ==> forall i :: 0 <= i < |r| ==> r[i] == c[0]
  {
    if n == 0 then [] else c + Repeat(c, n - 1)
  }

  /** `mask(str, start, end, char)`. An absent `end` means the length. With a
      one-character mask and a non-negative `start`, the characters from `start` up
      to `end` (or the end of the text) become the mask and all others stay. */
  function Mask(s: JsString, start: int, end: Option<int>, c: JsString): (r: JsString)
    ensures var e := if end.None? then |s| else end.value;
      start >= |s| || start >= e ==> r == s
    ensures var e := if end.None? then |s| else end.value;
      0 <= start && |c| == 1 ==>
        |r| == |s| &&
        forall i :: 0 <= i < |s| ==> r[i] == (if start <= i < e then c[0] else s[i])
  {
    var len := |s|;
    var e := if end.None? then len else end.value;
    if start >= len || start >= e then s
    else
      var prefix := Slice(s, 0, start);
      var suffix := SliceFrom(s, e);
      var masked := Repeat(c, Min(e, len) - start);
      prefix + masked + suffix
  }

  /** `start` counts code units too, so masking from 1 splits a surrogate pair and
      leaves its first half alone in front of the mask. */
  lemma MaskSplitsSurrogatePair()
    ensures Mask(Utf16("\U{1F600}ab"), 1, None, Utf16("*")) == [0xD83D, 42, 42, 42]
  {
    var text := Utf16("\U{1F600}ab");
    assert text == [0xD83D, 0xDE00, 97, 98];
    assert Utf16("*") == [42];
    assert Repeat(Utf16("*"), 3) == [42, 42, 42];
    assert Slice(text, 0, 1) == [0xD83D];
  }
}
