// `hasCharacterActions(text)`: decides whether the asterisks of a text mark
// roleplay actions (kept) or are formatting (removed). Each `*...*` segment
// earns "action" points for action verbs, manner adverbs and short pronoun
// phrases, and "formatting" points for being long, shouted or one word; the
// text as a whole earns formatting points when most of it is wrapped. The
// text is classified as actions when the action score beats the formatting
// score by more than 2.
module Classifier {
  import opened Strings
  import opened Scanner

  /** The alternatives of `\b(walks?|runs?|...|shouts?)\b`, each optional `s`
      written out. As written, `cries?` matches "crie" and "cries", not "cry". */
  const ActionWords: seq<string> := [
    "walk", "walks", "run", "runs", "sit", "sits", "stand", "stands",
    "move", "moves", "grab", "grabs", "take", "takes", "hold", "holds",
    "smile", "smiles", "frown", "frowns", "nod", "nods", "look", "looks",
    "laugh", "laughs", "crie", "cries", "whisper", "whispers", "shout", "shouts"
  ]

  /** The alternatives of `\b(nervously|...|confidently)\b`. */
  const EmotionWords: seq<string> := [
    "nervously", "quickly", "slowly", "gently", "hesitantly", "confidently"
  ]

  /** The alternatives of `\b(i|you|he|she|they)\b`. */
  const Pronouns: seq<string> := ["i", "you", "he", "she", "they"]

  // `segment.replace(/\*/g, '').toLowerCase()`.
  function Content(segment: string): string {
    Lower(Strip(segment))
  }

  /** `content.split(' ').length`. */
  function WordCount(content: string): nat {
    |Split(content, ' ')|
  }

  /** `/^[A-Z\s]+$/.test(content)`: non-empty, and every character an
      upper-case ASCII letter or white space. */
  predicate CapsOrSpaceOnly(content: string) {
    |content| > 0 && forall k :: 0 <= k < |content| ==> ('A' <= content[k] <= 'Z') || IsWhite(content[k])
  }

  /** The action points one segment's content earns. */
  function ActionPoints(content: string): (p: nat)
    ensures p <= 4
    ensures p > 0 <==>
      HasAnyWord(content, ActionWords) || HasAnyWord(content, EmotionWords)
      || (HasAnyWord(content, Pronouns) && Count(content, ' ') < 8)
  {
    (if HasAnyWord(content, ActionWords) then 2 else 0)
    + (if HasAnyWord(content, EmotionWords) then 1 else 0)
    + (if HasAnyWord(content, Pronouns) && WordCount(content) <= 8 then 1 else 0)
  }

  /** The formatting points one segment's content earns. */
  function FormattingPoints(content: string): (p: nat)
    ensures p <= 3
    ensures p == 0 ==> ' ' in content && |content| <= 100
  {
    (if |content| > 50 && !HasAnyWord(content, ActionWords) then 1 else 0)
    + (if CapsOrSpaceOnly(content) || Contains(content, "!!!") || WordCount(content) == 1 then 1 else 0)
    + (if |content| > 100 then 1 else 0)
  }

  /** The contents of all segments, in order. */
  function Contents(segments: seq<string>): seq<string> {
    seq(|segments|, k requires 0 <= k < |segments| => Content(segments[k]))
  }

  /** Total action points, summed left to right as the source's loop does. */
  function SumAction(contents: seq<string>): (n: nat)
    ensures n <= 4 * |contents|
  {
    if contents == [] then 0
    else SumAction(contents[..|contents| - 1]) + ActionPoints(contents[|contents| - 1])
  }

  /** Total per-segment formatting points, summed left to right. */
  function SumFormatting(contents: seq<string>): (n: nat)
    ensures n <= 3 * |contents|
  {
    if contents == [] then 0
    else SumFormatting(contents[..|contents| - 1]) + FormattingPoints(contents[|contents| - 1])
  }

  /** The wrapped-ratio rule: 3 formatting points when the segments cover more
      than 70% of the text, `segments.join('').length / text.length > 0.7`,
      compared here without division. */
  function WrappingPoints(text: string): nat {
    if 10 * JoinedLength(Segments(text)) > 7 * |text| then 3 else 0
  }

  /** `text.split('\n').filter(l => l.trim())`. */
  function NonBlankLines(text: string): seq<string> {
    NonBlank(Split(text, '\n'))
  }

  /** The lines whose trimmed form is not empty, in order. */
  function NonBlank(lines: seq<string>): (r: seq<string>)
    ensures |r| <= |lines|
    ensures forall k :: 0 <= k < |r| ==> Trim(r[k]) != []
  {
    if lines == [] then []
    else (if Trim(lines[0]) != [] then [lines[0]] else []) + NonBlank(lines[1..])
  }

  /** `line.trim().match(/^\*.*\*$/)`: the trimmed line has at least two
      characters, starts and ends with `*`, and `.` matches everything between,
      that is, nothing between is a line terminator. */
  predicate IsWrappedLine(line: string) {
    var t := Trim(line);
    && |t| >= 2 && t[0] == '*' && t[|t| - 1] == '*'
    && forall k :: 0 < k < |t| - 1 ==> !IsLineTerminator(t[k])
  }

  /** Number of wrapped lines. */
  function CountWrapped(lines: seq<string>): (n: nat)
    ensures n <= |lines|
  {
    if lines == [] then 0 else (if IsWrappedLine(lines[0]) then 1 else 0) + CountWrapped(lines[1..])
  }

  /** The paragraph-consistency rule: 3 formatting points when there are more
      than 3 non-blank lines and more than 80% of them are wrapped,
      compared here without division. */
  function ParagraphPoints(text: string): nat {
    ParagraphBonus(NonBlankLines(text))
  }

  /** The paragraph-consistency rule on the non-blank lines. */
  function ParagraphBonus(lines: seq<string>): nat {
    if |lines| > 3 && 5 * CountWrapped(lines) > 4 * |lines| then 3 else 0
  }

  datatype Scores = Scores(action: nat, formatting: nat)

  /** The two scores of a text. Every segment adds at most 4 action points and
      at most 3 formatting points; the two whole-text rules add at most 6. */
  function Score(text: string): (sc: Scores)
    ensures sc.action <= 4 * |Segments(text)|
    ensures sc.formatting <= 6 + 3 * |Segments(text)|
  {
    var contents := Contents(Segments(text));
    Scores(SumAction(contents),
           WrappingPoints(text) + ParagraphPoints(text) + SumFormatting(contents))
  }

  /** `hasCharacterActions(text)`. */
  function HasCharacterActions(text: string): bool {
    if '*' !in Trim(text) then false
    else if |Segments(text)| == 0 then false
    else
      var sc := Score(text);
      sc.action > sc.formatting + 2
  }

  /** The loop of the source over the segments' contents, accumulating both
      per-segment scores left to right. */
  method SumScores(contents: seq<string>) returns (action: nat, formatting: nat)
    ensures action == SumAction(contents)
    ensures formatting == SumFormatting(contents)
  {
    action, formatting := 0, 0;
    var i := 0;
    while i < |contents|
      invariant 0 <= i <= |contents|
      invariant action == SumAction(contents[..i])
      invariant formatting == SumFormatting(contents[..i])
    {
      assert contents[..i + 1][..i] == contents[..i];
      action := action + ActionPoints(contents[i]);
      formatting := formatting + FormattingPoints(contents[i]);
      i := i + 1;
    }
    assert contents[..i] == contents;
  }

  /** The classifier as the source writes it: early exits, the two whole-text
      rules, then the loop over the segments. */
  method Classify(text: string) returns (preserve: bool)
    ensures preserve == HasCharacterActions(text)
    ensures preserve ==> '*' in text && |Segments(text)| > 0
  {
    TrimKeepsNonWhite(text, '*');
    if '*' !in Trim(text) {
      return false;
    }
    var segments := Segments(text);
    if |segments| == 0 {
      return false;
    }
    var action, formatting := SumScores(Contents(segments));
    formatting := WrappingPoints(text) + ParagraphPoints(text) + formatting;
    preserve := action > formatting + 2;
  }

  // ---------------------------------------------------------------------------
  // Properties
  // ---------------------------------------------------------------------------

  /** The verdict is exactly "the text has an asterisk, at least one segment,
      and an action score more than 2 above the formatting score". */
  lemma VerdictIff(text: string)
    ensures HasCharacterActions(text) <==>
      '*' in text && |Segments(text)| > 0 && Score(text).action > Score(text).formatting + 2
  {
    TrimKeepsNonWhite(text, '*');
  }

  /** A text without `*` is never classified as actions. */
  lemma NoAsteriskIsNotAction(text: string)
    requires '*' !in text
    ensures !HasCharacterActions(text)
  {
    TrimKeepsNonWhite(text, '*');
  }

  /** A text with no `*x*` shape (non-empty, star-free `x`) is never
      classified as actions, whatever else it holds. */
  lemma NoStarPairIsNotAction(text: string)
    requires !HasStarPairFrom(text, 0)
    ensures !HasCharacterActions(text)
  {
    SegmentsEmptyIff(text);
  }

  /** `"*"` and `"**"` are not actions: neither has a segment. */
  lemma LoneStarsAreNotActions()
    ensures !HasCharacterActions("*") && !HasCharacterActions("**")
  {
    NoStarPairIsNotAction("*");
    NoStarPairIsNotAction("**");
  }

  lemma {:induction false} SumActionZero(contents: seq<string>)
    requires forall k :: 0 <= k < |contents| ==> ActionPoints(contents[k]) == 0
    ensures SumAction(contents) == 0
  {
    if contents != [] {
      SumActionZero(contents[..|contents| - 1]);
    }
  }

  /** A text classified as actions has a segment whose content earns action
      points: an action verb, a manner adverb, or a pronoun in at most eight
      words. */
  lemma ActionsNeedActionSegment(text: string)
    requires HasCharacterActions(text)
    ensures exists k :: 0 <= k < |Segments(text)| && ActionPoints(Content(Segments(text)[k])) > 0
  {
    var contents := Contents(Segments(text));
    if forall k :: 0 <= k < |contents| ==> ActionPoints(contents[k]) == 0 {
      SumActionZero(contents);
      assert false;
    }
  }

  /** A text with a single segment that covers more than 70% of it is never
      classified as actions: the segment earns at most 4 action points while
      the wrapping rule alone gives 3 formatting points. This covers a text
      that is one `*...*` span. */
  lemma SingleWrappedSegmentIsNotAction(text: string)
    requires |Segments(text)| == 1
    requires 10 * |Segments(text)[0]| > 7 * |text|
    ensures !HasCharacterActions(text)
  {
    var segments := Segments(text);
    assert JoinedLength(segments) == |segments[0]| + JoinedLength(segments[1..]);
    assert WrappingPoints(text) == 3;
  }

  /** The content of `*x*`, for `x` free of asterisks and upper-case letters,
      is `x` itself. */
  lemma ContentOfPlainSegment(x: string)
    requires '*' !in x
    requires forall k :: 0 <= k < |x| ==> !('A' <= x[k] <= 'Z')
    ensures Content("*" + x + "*") == x
  {
    StripAppend("*" + x, "*");
    StripAppend("*", x);
    StripStarFree(x);
    assert Strip("*") == [];
  }

  /** A one-line text with a single segment covering at most 70% of it earns
      neither whole-text bonus: its scores are the segment's own. */
  lemma OneLineOneSegmentScore(text: string, seg: string)
    requires Segments(text) == [seg]
    requires '\n' !in text
    requires 10 * |seg| <= 7 * |text|
    ensures Score(text) == Scores(ActionPoints(Content(seg)), FormattingPoints(Content(seg)))
  {
    SingleLineNoBonus(text);
    assert WrappingPoints(text) == 0 by {
      assert JoinedLength([seg]) == |seg| + JoinedLength([]);
    }
    assert Contents([seg]) == [Content(seg)];
    SumsOfOne(Content(seg));
  }

  /** A text without a line break is one line, so the paragraph rule never
      applies to it. */
  lemma SingleLineNoBonus(text: string)
    requires '\n' !in text
    ensures ParagraphPoints(text) == 0
  {
    assert |NonBlankLines(text)| <= |Split(text, '\n')| == 1;
  }

  /** The sums over one content are that content's points. */
  lemma SumsOfOne(x: string)
    ensures SumAction([x]) == ActionPoints(x)
    ensures SumFormatting([x]) == FormattingPoints(x)
  {
    assert [x][..0] == [];
  }

  /** One plain segment `*x*` on a single line, covering at most 70% of the
      text, decides the verdict by its own points. */
  lemma OneLineOneSegmentVerdict(a: string, x: string, c: string)
    requires '*' !in a && '*' !in x && '*' !in c && |x| >= 1
    requires forall k :: 0 <= k < |x| ==> !('A' <= x[k] <= 'Z')
    requires '\n' !in a && '\n' !in x && '\n' !in c
    requires 10 * (|x| + 2) <= 7 * (|a| + |x| + 2 + |c|)
    ensures HasCharacterActions(a + ("*" + x + "*") + c) <==>
      ActionPoints(x) > FormattingPoints(x) + 2
  {
    var seg := "*" + x + "*";
    var text := a + seg + c;
    assert seg[1..|seg| - 1] == x;
    SoleSegment(a, seg, c);
    ContentOfPlainSegment(x);
    assert '\n' !in text;
    OneLineOneSegmentScore(text, seg);
    VerdictIff(text);
    assert text[|a|] == '*';
  }

  /** The paragraph rule needs at least four wrapped, non-blank lines. */
  lemma ParagraphBonusNeedsFourWrappedLines(text: string)
    requires ParagraphPoints(text) == 3
    ensures CountWrapped(NonBlankLines(text)) >= 4
    ensures |NonBlankLines(text)| >= 4
  {
  }

  lemma {:induction false} CountWrappedAll(lines: seq<string>)
    requires forall k :: 0 <= k < |lines| ==> IsWrappedLine(lines[k])
    ensures CountWrapped(lines) == |lines|
  {
    if lines != [] {
      CountWrappedAll(lines[1..]);
    }
  }

  /** Four or more non-blank lines, all of them wrapped, earn the paragraph
      points. */
  lemma AllLinesWrappedEarnsBonus(lines: seq<string>)
    requires |lines| >= 4
    requires forall k :: 0 <= k < |lines| ==> IsWrappedLine(lines[k])
    ensures ParagraphBonus(lines) == 3
  {
    CountWrappedAll(lines);
  }

  /** "More than 80%" is strict: four wrapped lines out of five earn nothing. */
  lemma FourOfFiveWrappedEarnsNothing(lines: seq<string>)
    requires |lines| == 5 && CountWrapped(lines) == 4
    ensures ParagraphBonus(lines) == 0
  {
  }

  /** With at most three non-blank lines the paragraph rule never applies. */
  lemma FewLinesNoBonus(text: string)
    requires |NonBlankLines(text)| <= 3
    ensures ParagraphPoints(text) == 0
  {
  }

  /** The `/^[A-Z\s]+$/` test runs on lower-cased content, so it can only
      succeed on content made entirely of white space. */
  lemma CapsTestOnlyMatchesWhitespace(x: string)
    ensures CapsOrSpaceOnly(Lower(x)) <==> |x| > 0 && forall k :: 0 <= k < |x| ==> IsWhite(x[k])
  {
    var r := Lower(x);
    if CapsOrSpaceOnly(r) {
      forall k | 0 <= k < |x|
        ensures IsWhite(x[k])
      {
        assert IsWhite(r[k]);
      }
    }
  }
}
