// The JavaScript string primitives the classifier and the cleaner rely on:
// `replace(/\*/g, "")`, `trim()`, `split(sep)`, `toLowerCase()`, the `\s` and
// `\w` character classes, the `\b` word boundary and decimal number formatting.
// Strings are sequences of characters.
module Strings {

  /** JavaScript's WhiteSpace and LineTerminator code points: what `trim()`
      removes from both ends and what the regex class `\s` matches. */
  predicate IsWhite(c: char) {
    || c == '\t' || c == '\n' || c == '\U{000B}' || c == '\U{000C}' || c == '\r'
    || c == ' ' || c == '\U{00A0}' || c == '\U{1680}' || ('\U{2000}' <= c <= '\U{200A}')
    || c == '\U{2028}' || c == '\U{2029}' || c == '\U{202F}' || c == '\U{205F}'
    || c == '\U{3000}' || c == '\U{FEFF}'
  }

  /** The characters the regex wildcard `.` does not match. */
  predicate IsLineTerminator(c: char) {
    c == '\n' || c == '\r' || c == '\U{2028}' || c == '\U{2029}'
  }

  /** The regex class `\w` (without the `u` flag): ASCII letters, digits and `_`. */
  predicate IsWordChar(c: char) {
    ('a' <= c <= 'z') || ('A' <= c <= 'Z') || ('0' <= c <= '9') || c == '_'
  }

  /** Number of occurrences of `c` in `s`. */
  function Count(s: string, c: char): (n: nat)
    ensures n <= |s|
    ensures n == 0 <==> c !in s
  {
    if s == [] then 0 else (if s[0] == c then 1 else 0) + Count(s[1..], c)
  }

  // ---------------------------------------------------------------------------
  // replace(/\*/g, "")
  // ---------------------------------------------------------------------------

  // `s.replace(/\*/g, "")`: every asterisk removed, everything else kept.
  function Strip(s: string): (r: string)
    ensures '*' !in r
    ensures |r| == |s| - Count(s, '*')
  {
    if s == [] then [] else (if s[0] == '*' then [] else [s[0]]) + Strip(s[1..])
  }

  /** Text without asterisks is left exactly as it is. */
  lemma {:induction false} StripStarFree(s: string)
    requires '*' !in s
    ensures Strip(s) == s
  {
    if s != [] {
      StripStarFree(s[1..]);
    }
  }

  /** Stripping changes a text exactly when the text holds an asterisk. */
  lemma {:induction false} StripUnchangedIff(s: string)
    ensures Strip(s) == s <==> '*' !in s
  {
    if '*' !in s {
      StripStarFree(s);
    }
  }

  /** Stripping twice is stripping once. */
  lemma {:induction false} StripIdempotent(s: string)
    ensures Strip(Strip(s)) == Strip(s)
  {
    StripStarFree(Strip(s));
  }

  /** Stripping works piecewise, so the order of the kept characters is the
      order they had in the input. */
  lemma {:induction false} StripAppend(a: string, b: string)
    ensures Strip(a + b) == Strip(a) + Strip(b)
  {
    if a == [] {
      assert a + b == b;
    } else {
      assert (a + b)[1..] == a[1..] + b;
      StripAppend(a[1..], b);
    }
  }

  /** Every character other than `*` occurs in the result as often as in the input. */
  lemma {:induction false} StripKeepsOthers(s: string)
    ensures forall c :: c != '*' ==> multiset(Strip(s))[c] == multiset(s)[c]
  {
    if s != [] {
      StripKeepsOthers(s[1..]);
      assert s == [s[0]] + s[1..];
    }
  }

  // ---------------------------------------------------------------------------
  // trim()
  // ---------------------------------------------------------------------------

  /** Drops leading white space. */
  function TrimStart(s: string): (r: string)
    ensures |r| <= |s| && r == s[|s| - |r|..]
    ensures r == [] || !IsWhite(r[0])
    ensures forall k :: 0 <= k < |s| - |r| ==> IsWhite(s[k])
  {
    if s == [] || !IsWhite(s[0]) then s else TrimStart(s[1..])
  }

  /** Drops trailing white space. */
  function TrimEnd(s: string): (r: string)
    ensures |r| <= |s| && r == s[..|r|]
    ensures r == [] || !IsWhite(r[|r| - 1])
    ensures forall k :: |r| <= k < |s| ==> IsWhite(s[k])
  {
    if s == [] || !IsWhite(s[|s| - 1]) then s else TrimEnd(s[..|s| - 1])
  }

  /** `s.trim()`. */
  function Trim(s: string): string {
    TrimEnd(TrimStart(s))
  }

  /** Cutting off a part of `s` that lacks `c` keeps `c`'s membership. */
  lemma CutKeepsAbsent(s: string, lo: nat, hi: nat, c: char)
    requires lo <= hi <= |s|
    requires forall k :: 0 <= k < lo || hi <= k < |s| ==> s[k] != c
    ensures c in s[lo..hi] <==> c in s
  {
    if c in s {
      var k :| 0 <= k < |s| && s[k] == c;
      assert s[lo..hi][k - lo] == c;
    }
    if c in s[lo..hi] {
      var k :| 0 <= k < hi - lo && s[lo..hi][k] == c;
      assert s[lo + k] == c;
    }
  }

  lemma TrimStartKeepsNonWhite(s: string, c: char)
    requires !IsWhite(c)
    ensures c in TrimStart(s) <==> c in s
  {
    var d := |s| - |TrimStart(s)|;
    forall k | 0 <= k < d || |s| <= k < |s|
      ensures s[k] != c
    {
      assert IsWhite(s[k]);
    }
    CutKeepsAbsent(s, d, |s|, c);
    assert s[d..|s|] == TrimStart(s);
  }

  lemma TrimEndKeepsNonWhite(s: string, c: char)
    requires !IsWhite(c)
    ensures c in TrimEnd(s) <==> c in s
  {
    var e := |TrimEnd(s)|;
    forall k | 0 <= k < 0 || e <= k < |s|
      ensures s[k] != c
    {
      assert IsWhite(s[k]);
    }
    CutKeepsAbsent(s, 0, e, c);
    assert s[0..e] == TrimEnd(s);
  }

  /** Trimming removes only white space: a character that is not white space
      occurs in the trimmed text exactly when it occurs in the text. */
  lemma TrimKeepsNonWhite(s: string, c: char)
    requires !IsWhite(c)
    ensures c in Trim(s) <==> c in s
  {
    TrimStartKeepsNonWhite(s, c);
    TrimEndKeepsNonWhite(TrimStart(s), c);
  }

  /** A line is blank (its trimmed form is empty) exactly when all of it is white space. */
  lemma TrimEmptyIff(s: string)
    ensures Trim(s) == [] <==> forall k :: 0 <= k < |s| ==> IsWhite(s[k])
  {
    var t := TrimStart(s);
    if Trim(s) == [] {
      assert t == [];
    }
  }

  // ---------------------------------------------------------------------------
  // split(sep) with a one-character separator, and its inverse join(sep)
  // ---------------------------------------------------------------------------

  /** `s.split(sep)` for a one-character separator: the pieces between separators. */
  function Split(s: string, sep: char): (parts: seq<string>)
    ensures |parts| == Count(s, sep) + 1
    ensures forall k :: 0 <= k < |parts| ==> sep !in parts[k]
  {
    if s == [] then [[]]
    else
      var rest := Split(s[1..], sep);
      if s[0] == sep then [[]] + rest else [[s[0]] + rest[0]] + rest[1..]
  }

  /** `parts.join(sep)`. */
  function Join(parts: seq<string>, sep: char): string
    requires |parts| >= 1
  {
    if |parts| == 1 then parts[0] else parts[0] + [sep] + Join(parts[1..], sep)
  }

  /** Prepending a character to the first piece prepends it to the join. */
  lemma JoinPrepend(c: char, parts: seq<string>, sep: char)
    requires |parts| >= 1
    ensures Join([[c] + parts[0]] + parts[1..], sep) == [c] + Join(parts, sep)
  {
    var front := [[c] + parts[0]] + parts[1..];
    if |parts| > 1 {
      assert front[1..] == parts[1..];
    }
  }

  /** Splitting loses nothing: joining the pieces back gives the text. */
  lemma {:induction false} SplitJoin(s: string, sep: char)
    ensures Join(Split(s, sep), sep) == s
  {
    if s != [] {
      var rest := Split(s[1..], sep);
      SplitJoin(s[1..], sep);
      if s[0] == sep {
        assert ([[]] + rest)[1..] == rest;
        assert Join([[]] + rest, sep) == [] + [sep] + Join(rest, sep);
      } else {
        JoinPrepend(s[0], rest, sep);
      }
      assert s == [s[0]] + s[1..];
    }
  }

  // ---------------------------------------------------------------------------
  // toLowerCase()
  // ---------------------------------------------------------------------------

  function LowerChar(c: char): char {
    if 'A' <= c <= 'Z' then (c as int + 32) as char else c
  }

  /** `s.toLowerCase()` restricted to ASCII letters: the result has the
      input's length, holds no upper-case ASCII letter, keeps every character
      that is not an upper-case ASCII letter, and maps each upper-case letter
      to its own lower-case letter, 32 code points further on. */
  function Lower(s: string): (r: string)
    ensures |r| == |s|
    ensures forall k :: 0 <= k < |r| ==> !('A' <= r[k] <= 'Z')
    ensures forall k :: 0 <= k < |r| && !('A' <= s[k] <= 'Z') ==> r[k] == s[k]
    ensures forall k :: 0 <= k < |r| && 'A' <= s[k] <= 'Z' ==> 'a' <= r[k] <= 'z'
    ensures forall k :: 0 <= k < |r| && 'A' <= s[k] <= 'Z' ==> r[k] as int == s[k] as int + 32
  {
    seq(|s|, k requires 0 <= k < |s| => LowerChar(s[k]))
  }

  /** Lower-casing changes a text exactly when it holds an upper-case ASCII
      letter, so lower-casing twice is lower-casing once. */
  lemma LowerUnchangedIff(s: string)
    ensures Lower(s) == s <==> forall k :: 0 <= k < |s| ==> !('A' <= s[k] <= 'Z')
    ensures Lower(Lower(s)) == Lower(s)
  {
    var r := Lower(s);
    if forall k :: 0 <= k < |s| ==> !('A' <= s[k] <= 'Z') {
      assert forall k :: 0 <= k < |s| ==> r[k] == s[k];
    }
    var rr := Lower(r);
    assert forall k :: 0 <= k < |r| ==> rr[k] == r[k];
  }

  /** `needle` occurs in `s` starting at position `p`. */
  predicate OccursAt(s: string, needle: string, p: nat) {
    p + |needle| <= |s| && s[p..p + |needle|] == needle
  }

  /** `s.includes(needle)`. */
  predicate Contains(s: string, needle: string) {
    exists p: nat | p <= |s| :: OccursAt(s, needle, p)
  }

  /** A needle holding a character the text lacks does not occur in it. */
  lemma AbsentCharNotContained(s: string, needle: string, c: char)
    requires c in needle && c !in s
    ensures !Contains(s, needle)
  {
    var i :| 0 <= i < |needle| && needle[i] == c;
    forall p: nat | p <= |s|
      ensures !OccursAt(s, needle, p)
    {
      if p + |needle| <= |s| {
        assert s[p..p + |needle|][i] == s[p + i] != c;
      }
    }
  }

  // ---------------------------------------------------------------------------
  // \b(w1|w2|...)\b
  // ---------------------------------------------------------------------------

  /** The regex assertion `\b` at position `p` of `s`: exactly one of the
      characters on either side is a word character. */
  predicate BoundaryAt(s: string, p: nat)
    requires p <= |s|
  {
    (0 < p && IsWordChar(s[p - 1])) != (p < |s| && IsWordChar(s[p]))
  }

  /** `w` occurs at position `p` of `s` with a word boundary on both sides. */
  predicate WordAt(s: string, w: string, p: nat) {
    p + |w| <= |s| && s[p..p + |w|] == w && BoundaryAt(s, p) && BoundaryAt(s, p + |w|)
  }

  /** `/\bw\b/.test(s)`. */
  predicate HasWord(s: string, w: string) {
    exists p: nat | p <= |s| :: WordAt(s, w, p)
  }

  /** `/\b(w1|w2|...)\b/.test(s)`: some alternative occurs as a whole word. */
  predicate HasAnyWord(s: string, words: seq<string>) {
    exists k | 0 <= k < |words| :: HasWord(s, words[k])
  }

  /** Inside a text made of word characters only there is no word boundary. */
  lemma NoInnerBoundary(s: string, p: nat)
    requires p <= |s| && forall k :: 0 <= k < |s| ==> IsWordChar(s[k])
    ensures 0 < p < |s| ==> !BoundaryAt(s, p)
  {
    if 0 < p < |s| {
      assert IsWordChar(s[p - 1]) && IsWordChar(s[p]);
    }
  }

  /** In a text made of word characters only, the one whole word is the text
      itself (or the empty alternative, which matches at the start). */
  lemma OneWordText(s: string, w: string)
    requires |s| > 0 && forall k :: 0 <= k < |s| ==> IsWordChar(s[k])
    ensures HasWord(s, w) <==> w == s || w == []
  {
    if HasWord(s, w) {
      var p: nat :| p <= |s| && WordAt(s, w, p);
      NoInnerBoundary(s, p);
    }
    if w == s {
      assert WordAt(s, w, 0);
    }
    if w == [] {
      assert WordAt(s, w, 0);
    }
  }

  // ---------------------------------------------------------------------------
  // Decimal formatting of a natural number, as in `${n}`
  // ---------------------------------------------------------------------------

  function DigitChar(d: nat): char
    requires d < 10
  {
    ('0' as int + d) as char
  }

  /** The decimal digits of `n`, most significant first, no leading zeros. */
  function NatToString(n: nat): (r: string)
    ensures |r| >= 1
    ensures forall k :: 0 <= k < |r| ==> '0' <= r[k] <= '9'
    decreases n
  {
    if n < 10 then [DigitChar(n)] else NatToString(n / 10) + [DigitChar(n % 10)]
  }

  /** Reads a string of decimal digits back as a number. */
  function ParseDigits(s: string): nat
    requires forall k :: 0 <= k < |s| ==> '0' <= s[k] <= '9'
  {
    if s == [] then 0
    else ParseDigits(s[..|s| - 1]) * 10 + (s[|s| - 1] as int - '0' as int)
  }

  /** Formatting a number and reading it back gives the number. */
  lemma {:induction false} NatToStringRoundTrip(n: nat)
    ensures ParseDigits(NatToString(n)) == n
    decreases n
  {
    if n >= 10 {
      var r := NatToString(n);
      assert r[..|r| - 1] == NatToString(n / 10);
      NatToStringRoundTrip(n / 10);
    }
  }

  /** Distinct numbers format to distinct strings. */
  lemma NatToStringInjective(m: nat, n: nat)
    requires NatToString(m) == NatToString(n)
    ensures m == n
  {
    NatToStringRoundTrip(m);
    NatToStringRoundTrip(n);
  }
}
