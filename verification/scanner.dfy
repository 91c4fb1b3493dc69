// The asterisk-span scan `text.match(/\*([^*]+)\*/g)`: a leftmost,
// non-overlapping search for a `*`, one or more characters other than `*`,
// and a closing `*`. At a `*` whose next `*` follows immediately, or which has
// no later `*` at all, the search moves on by one position.
module Scanner {
  import opened Strings

  /** A half-open range `[start, end)` of positions in a text. */
  datatype Span = Span(start: nat, end: nat)

  /** Between positions `a` and `b` there is no `*`. */
  predicate NoStarBetween(s: string, a: nat, b: nat)
    requires b <= |s|
  {
    forall k :: a < k < b ==> s[k] != '*'
  }

  /** `sp` is one match of the pattern in `s`: it starts and ends with `*`,
      holds at least one character between them, and none of those is `*`. */
  predicate IsSegment(s: string, sp: Span) {
    && sp.start + 3 <= sp.end <= |s|
    && s[sp.start] == '*'
    && s[sp.end - 1] == '*'
    && NoStarBetween(s, sp.start, sp.end - 1)
  }

  /** The spans come left to right and do not overlap. */
  predicate InOrder(spans: seq<Span>) {
    forall a, b :: 0 <= a < b < |spans| ==> spans[a].end <= spans[b].start
  }

  /** Total number of positions the spans cover. */
  function TotalLength(spans: seq<Span>): int {
    if spans == [] then 0 else (spans[0].end - spans[0].start) + TotalLength(spans[1..])
  }

  /** Position of the first `*` at or after `i`, or `|s|` when there is none. */
  function NextStar(s: string, i: nat): (j: nat)
    requires i <= |s|
    ensures i <= j <= |s|
    ensures j < |s| ==> s[j] == '*'
    ensures forall k :: i <= k < j ==> s[k] != '*'
    decreases |s| - i
  {
    if i == |s| || s[i] == '*' then i else NextStar(s, i + 1)
  }

  /** The matches of the global regex search, started at position `i`. */
  function Scan(s: string, i: nat): (spans: seq<Span>)
    requires i <= |s|
    ensures forall k :: 0 <= k < |spans| ==> IsSegment(s, spans[k]) && i <= spans[k].start
    ensures InOrder(spans)
    ensures 0 <= TotalLength(spans) <= |s| - i
    decreases |s| - i
  {
    if i == |s| then []
    else if s[i] != '*' then Scan(s, i + 1)
    else
      var j := NextStar(s, i + 1);
      if j == |s| || j == i + 1 then Scan(s, i + 1)
      else [Span(i, j + 1)] + Scan(s, j + 1)
  }

  /** The spans of all matches in `s`. */
  function Spans(s: string): seq<Span> {
    Scan(s, 0)
  }

  /** The texts covered by `spans`. */
  function Substrings(s: string, spans: seq<Span>): (parts: seq<string>)
    requires forall k :: 0 <= k < |spans| ==> IsSegment(s, spans[k])
    ensures |parts| == |spans|
    ensures forall k :: 0 <= k < |parts| ==> IsSegment(s, spans[k]) && parts[k] == s[spans[k].start..spans[k].end]
  {
    if spans == [] then []
    else
      var sp := spans[0];
      assert IsSegment(s, sp);
      [s[sp.start..sp.end]] + Substrings(s, spans[1..])
  }

  // `text.match(/\*([^*]+)\*/g) || []`: the matched texts, in order.
  function Segments(s: string): seq<string> {
    Substrings(s, Spans(s))
  }

  /** `segments.join('').length`. */
  function JoinedLength(parts: seq<string>): nat {
    if parts == [] then 0 else |parts[0]| + JoinedLength(parts[1..])
  }

  /** Somewhere at or after `i`, two consecutive asterisks enclose at least one
      character: the shape `*x*` with `x` non-empty and free of `*`. */
  predicate HasStarPairFrom(s: string, i: nat) {
    exists a, b :: i <= a && a + 1 < b < |s| && s[a] == '*' && s[b] == '*' && NoStarBetween(s, a, b)
  }

  // ---------------------------------------------------------------------------
  // Properties
  // ---------------------------------------------------------------------------

  /** The scan finds nothing exactly when no `*x*` with non-empty, star-free
      `x` occurs in the text. */
  lemma {:induction false} ScanEmptyIff(s: string, i: nat)
    requires i <= |s|
    ensures Scan(s, i) == [] <==> !HasStarPairFrom(s, i)
    decreases |s| - i
  {
    if i < |s| {
      ScanEmptyIff(s, i + 1);
      if s[i] == '*' {
        var j := NextStar(s, i + 1);
        if j < |s| && j > i + 1 {
          assert NoStarBetween(s, i, j);
        } else if HasStarPairFrom(s, i) {
          var a, b :| i <= a && a + 1 < b < |s| && s[a] == '*' && s[b] == '*' && NoStarBetween(s, a, b);
          assert HasStarPairFrom(s, i + 1);
        }
      } else if HasStarPairFrom(s, i) {
        var a, b :| i <= a && a + 1 < b < |s| && s[a] == '*' && s[b] == '*' && NoStarBetween(s, a, b);
        assert a != i;
        assert HasStarPairFrom(s, i + 1);
      }
    }
  }

  /** The scan at a `*` that opens a match ending at `t - 1`: that match
      comes first, then the scan from `t`. */
  lemma ScanAtMatch(s: string, i: nat, t: nat)
    requires i < |s| && s[i] == '*'
    requires t == NextStar(s, i + 1) + 1 && i + 2 < t <= |s|
    ensures Scan(s, i) == [Span(i, t)] + Scan(s, t)
  {
  }

  /** The scan at a `*` with no closing `*` after one or more other
      characters, or at a plain character, moves on by one position. */
  lemma ScanStep(s: string, i: nat, t: nat)
    requires i < |s| && t == i + 1
    requires s[i] != '*' || NextStar(s, t) == |s| || NextStar(s, t) == t
    ensures Scan(s, i) == Scan(s, t)
  {
  }

  /** After the opening `*` of a `*x*`, the next `*` is its closing one. */
  lemma NextStarCloses(s: string, a: nat, b: nat)
    requires a < b < |s| && s[b] == '*' && NoStarBetween(s, a, b)
    ensures NextStar(s, a + 1) == b
  {
  }

  /** Putting a span in front shifts every later span one index on. */
  lemma ConsIndex(x: Span, rest: seq<Span>, m: nat, a: nat)
    requires m < |rest| && rest[m].start <= a < rest[m].end
    ensures m + 1 < |[x] + rest| && ([x] + rest)[m + 1].start <= a < ([x] + rest)[m + 1].end
  {
    assert ([x] + rest)[m + 1] == rest[m];
  }

  /** The index of a span of `Scan(s, i)` that covers the opening `*` at `a`
      of a `*x*`, found by following the scan. */
  lemma {:induction false} CoveringSpan(s: string, i: nat, a: nat, b: nat) returns (k: nat)
    requires i <= a && a + 1 < b < |s| && s[a] == '*' && s[b] == '*' && NoStarBetween(s, a, b)
    ensures k < |Scan(s, i)| && Scan(s, i)[k].start <= a < Scan(s, i)[k].end
    decreases |s| - i, 1
  {
    var j := NextStar(s, i + 1);
    if s[i] != '*' || (a != i && (j == |s| || j == i + 1)) {
      k := CoveringSpanAfterStep(s, i, i + 1, a, b);
    } else if a == i {
      NextStarCloses(s, a, b);
      k := CoveringSpanInMatch(s, i, j + 1, a);
    } else if a > j {
      k := CoveringSpanAfterMatch(s, i, j + 1, a, b);
    } else {
      k := CoveringSpanInMatch(s, i, j + 1, a);
    }
  }

  /** `CoveringSpan` when the scan moves on by one position from `i`. */
  lemma {:induction false} CoveringSpanAfterStep(s: string, i: nat, t: nat, a: nat, b: nat) returns (k: nat)
    requires t <= a && a + 1 < b < |s| && s[a] == '*' && s[b] == '*' && NoStarBetween(s, a, b)
    requires t == i + 1 && (s[i] != '*' || NextStar(s, t) == |s| || NextStar(s, t) == t)
    ensures k < |Scan(s, i)| && Scan(s, i)[k].start <= a < Scan(s, i)[k].end
    decreases |s| - i, 0
  {
    k := CoveringSpan(s, t, a, b);
    ScanStep(s, i, t);
  }

  /** `CoveringSpan` when `a` lies inside the match that starts at `i`. */
  lemma CoveringSpanInMatch(s: string, i: nat, t: nat, a: nat) returns (k: nat)
    requires i < |s| && s[i] == '*'
    requires t == NextStar(s, i + 1) + 1 && i + 2 < t <= |s| && i <= a < t
    ensures k < |Scan(s, i)| && Scan(s, i)[k].start <= a < Scan(s, i)[k].end
  {
    ScanAtMatch(s, i, t);
    k := 0;
  }

  /** `CoveringSpan` when the match that starts at `i` ends before `a`. */
  lemma {:induction false} CoveringSpanAfterMatch(s: string, i: nat, t: nat, a: nat, b: nat) returns (k: nat)
    requires t <= a && a + 1 < b < |s| && s[a] == '*' && s[b] == '*' && NoStarBetween(s, a, b)
    requires i < |s| && s[i] == '*' && t == NextStar(s, i + 1) + 1 && i + 2 < t
    ensures k < |Scan(s, i)| && Scan(s, i)[k].start <= a < Scan(s, i)[k].end
    decreases |s| - i, 0
  {
    var m := CoveringSpan(s, t, a, b);
    ScanAtMatch(s, i, t);
    ConsIndex(Span(i, t), Scan(s, t), m, a);
    k := m + 1;
  }

  /** The scan misses no match: the opening `*` of every `*x*` at or after
      `i` (with `x` non-empty and star-free) lies inside some span the scan
      returns, either as the opening `*` of its own match or inside an earlier
      match that took its `*` as the closing one. */
  lemma ScanComplete(s: string, i: nat, a: nat, b: nat)
    requires i <= a && a + 1 < b < |s| && s[a] == '*' && s[b] == '*' && NoStarBetween(s, a, b)
    ensures exists k :: 0 <= k < |Scan(s, i)| && Scan(s, i)[k].start <= a < Scan(s, i)[k].end
  {
    var k := CoveringSpan(s, i, a, b);
  }

  /** The text has no match exactly when it has no `*x*` shape; in particular
      a text without `*`, `"*"` and `"**"` have none. */
  lemma SegmentsEmptyIff(s: string)
    ensures Segments(s) == [] <==> !HasStarPairFrom(s, 0)
  {
    ScanEmptyIff(s, 0);
  }

  /** Every match is at least three characters long, starts and ends with `*`
      and has no `*` inside; matches come from the text left to right without
      overlapping. */
  lemma SegmentShape(s: string)
    ensures forall k :: 0 <= k < |Segments(s)| ==>
      var seg := Segments(s)[k];
      && |seg| >= 3 && seg[0] == '*' && seg[|seg| - 1] == '*'
      && '*' !in seg[1..|seg| - 1]
    ensures forall a, b :: 0 <= a < b < |Spans(s)| ==> Spans(s)[a].end <= Spans(s)[b].start
  {
    var spans := Spans(s);
    forall k | 0 <= k < |Segments(s)|
      ensures var seg := Segments(s)[k];
        && |seg| >= 3 && seg[0] == '*' && seg[|seg| - 1] == '*'
        && '*' !in seg[1..|seg| - 1]
    {
      assert IsSegment(s, spans[k]);
      SpanText(s, spans[k]);
    }
  }

  /** The text of one match starts and ends with `*` and has no `*` between. */
  lemma SpanText(s: string, sp: Span)
    requires IsSegment(s, sp)
    ensures var seg := s[sp.start..sp.end];
      && |seg| >= 3 && seg[0] == '*' && seg[|seg| - 1] == '*'
      && '*' !in seg[1..|seg| - 1]
  {
    var seg := s[sp.start..sp.end];
    forall m | 0 < m < |seg| - 1
      ensures seg[m] != '*'
    {
      assert seg[m] == s[sp.start + m];
    }
  }

  lemma {:induction false} JoinedLengthOfSubstrings(s: string, spans: seq<Span>)
    requires forall k :: 0 <= k < |spans| ==> IsSegment(s, spans[k])
    ensures JoinedLength(Substrings(s, spans)) == TotalLength(spans)
  {
    if spans != [] {
      JoinedLengthOfSubstrings(s, spans[1..]);
      assert Substrings(s, spans)[1..] == Substrings(s, spans[1..]);
    }
  }

  /** The matched texts together are never longer than the text, so the
      wrapped ratio `segments.join('').length / text.length` is at most 1. */
  lemma WrappedLengthBound(s: string)
    ensures JoinedLength(Segments(s)) <= |s|
  {
    JoinedLengthOfSubstrings(s, Spans(s));
  }

  /** The scan passes over a stretch without `*` without finding anything. */
  lemma {:induction false} ScanSkipsStarFree(s: string, i: nat, j: nat)
    requires i <= j <= |s|
    requires forall k :: i <= k < j ==> s[k] != '*'
    ensures Scan(s, i) == Scan(s, j)
    decreases j - i
  {
    if i < j {
      ScanSkipsStarFree(s, i, j - 1);
      ScanStepsOverPlain(s, j - 1);
    }
  }

  /** The scan passes over a character that is not `*`. */
  lemma ScanStepsOverPlain(s: string, i: nat)
    requires i < |s| && s[i] != '*'
    ensures Scan(s, i) == Scan(s, i + 1)
  {
  }

  /** A text made of star-free text, one `*x*` segment and star-free text has
      exactly that segment as its only match. */
  lemma SoleSegment(a: string, seg: string, c: string)
    requires '*' !in a && '*' !in c
    requires |seg| >= 3 && seg[0] == '*' && seg[|seg| - 1] == '*' && '*' !in seg[1..|seg| - 1]
    ensures Segments(a + seg + c) == [seg]
  {
    var s := a + seg + c;
    var i, e := |a|, |a| + |seg|;
    forall k | 0 <= k < i
      ensures s[k] != '*'
    {
      assert s[k] == a[k];
    }
    forall k | e <= k < |s|
      ensures s[k] != '*'
    {
      assert s[k] == c[k - e];
    }
    forall k | i < k < e - 1
      ensures s[k] != '*'
    {
      assert s[k] == seg[k - i] == seg[1..|seg| - 1][k - i - 1];
    }
    assert s[i] == '*' && s[e - 1] == '*';
    ScanSkipsStarFree(s, 0, i);
    ScanSkipsStarFree(s, e, |s|);
    assert NextStar(s, i + 1) == e - 1;
    assert Spans(s) == [Span(i, e)];
    assert s[i..e] == seg;
  }
}
