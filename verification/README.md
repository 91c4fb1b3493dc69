# asterisks-begone, modelled in Dafny

asterisks-begone is a SillyTavern extension. It removes the asterisks that
character cards use as decorative formatting. It tries to keep them when a
keyword score reads them as roleplay actions, as for `*nods slowly*` inside a
line of narrative (`Examples.NodsSlowlyAmidNarrativeIsAction`); a text that is
only `*she nods slowly*` still counts as formatting, because the lone segment
covers more than 70% of it (`Classifier.SingleWrappedSegmentIsNotAction`).
Once any considered field looks like formatting, or when action checking is
switched off, every field is stripped (`Cleaner.AllOrNothing`,
`Cleaner.CheckingOffAlwaysCleans`). This project models the
extension's decision and cleaning logic in `index.js` as pure Dafny functions
over strings, and proves properties of the model. The model has three parts:

- **The classifier** `hasCharacterActions(text)` (modules `Scanner` and
  `Classifier`). It covers:
  - the global scan of `text.match(/\*([^*]+)\*/g)`;
  - the wrapped-ratio rule and the paragraph-consistency rule;
  - per-segment keyword scoring, with `\b…\b` word regexes modelled over
    ASCII word characters;
  - the final verdict `actionScore > formattingScore + 2`.

  `Classify` is the source's loop, written as a method. It is proved equal to
  the functional definition `HasCharacterActions`.
- **The gates** `hasAnyAsterisks` and `shouldCleanAnyField` (module `Fields`).
  They run over a record of the character's text fields. The two settings the
  source reads from the stored extension settings, `checkForCharacterActions`
  and `cleanDescription`, are parameters here.
- **The cleaning step** (module `Cleaner`). It covers:
  - `cleanField`;
  - the chained calls for the example messages, the first message and the
    description;
  - the mapping over the alternate greetings, which records
    `Alternate greeting <i+1>`;
  - the decision whether the greetings are written back;
  - which notification `removeAsterisks` ends with.

Module `Strings` holds the JavaScript string primitives the code relies on:
- `replace(/\*/g, "")`;
- `trim()` over the JavaScript white-space set;
- `split`;
- ASCII `toLowerCase()`;
- `includes`;
- the `\b` word match;
- decimal formatting of a number.

Module `Examples` states, as lemmas, the classifier's verdict on concrete texts.

Three behaviours of the code are modelled as written and stated as lemmas:
- The capitals test `/^[A-Z\s]+$/` runs on content that is already lower-cased.
  So it matches only content made entirely of white space
  (`CapsTestOnlyMatchesWhitespace`).
- The alternative `cries?` matches "crie" and "cries", not "cry"
  (`CriesAlternatives`).
- After the gate passes, `removeAsterisks` always has changes. Its last
  "No asterisks found to remove" branch is therefore never reached
  (`RemoveAsterisksOutcomes`).

The ratio tests `> 0.7` and `> 0.8` are compared by cross-multiplication
(`10 * wrapped > 7 * length`, `5 * wrappedLines > 4 * lines`).

Facts about `index.js` that are easy to expect otherwise:
- It has no dialogue handling and no per-field policy. Stripping is all or
  nothing (`AllOrNothing`, `MixedVerdictsCleanBoth`).
- A narrative sentence with a lone `*waves*` is formatting, not actions,
  because "waves" is on no word list (`WavesAmidNarrativeIsNotAction`).
- Four wrapped lines out of five earn no paragraph points, because the rule
  asks for strictly more than 80% (`FourOfFiveWrappedEarnsNothing`).

## Model

| member | source | states |
|---|---|---|
| Strings.Strip | index.js:185 | The stripped value holds no `*`, and it is shorter than the input by exactly the number of asterisks. |
| Strings.StripKeepsOthers | index.js:185 | Every character other than `*` occurs in the stripped value exactly as often as in the input. |
| Strings.StripStarFree | index.js:228 | A value without `*` is left unchanged, so a greeting without `*` maps to itself. |
| Strings.StripUnchangedIff | index.js:185-186 | Stripping leaves a value equal to itself exactly when the value has no `*`, so `cleaned !== value` holds whenever `value.includes('*')`. |
| Strings.StripIdempotent | index.js:185 | Stripping a stripped value changes nothing. |
| Strings.StripAppend | index.js:185 | Stripping a concatenation strips each part. |
| Strings.TrimKeepsNonWhite | index.js:113 | A non-white-space character occurs in `text.trim()` exactly when it occurs in `text`, so the first test of `hasCharacterActions` asks whether `text` has a `*`. |
| Strings.TrimEmptyIff | index.js:125 | A line is dropped as blank exactly when every character of it is white space. |
| Strings.Split | index.js:135 | `split(' ')` yields one more piece than there are spaces, and no piece holds a space. |
| Strings.SplitJoin | index.js:125 | Joining the pieces of `split('\n')` with line breaks restores the text, so the lines lose nothing. |
| Strings.Lower | index.js:134 | Lower-casing keeps the length, leaves no upper-case ASCII letter, keeps every other character, and maps each upper-case ASCII letter to its own lower-case letter. |
| Strings.LowerUnchangedIff | index.js:134 | Lower-casing leaves a text unchanged exactly when it has no upper-case ASCII letter, and lower-casing twice is lower-casing once. |
| Strings.OneWordText | index.js:130 | In a text made only of word characters, a non-empty alternative of `\b(...)\b` matches exactly when it is the whole text. |
| Strings.AbsentCharNotContained | index.js:144 | `includes('!!!')` is false on content without `!`. |
| Strings.NatToStringRoundTrip | index.js:229 | The decimal form of the greeting number reads back as that number, so no two greetings share a name. |
| Strings.NatToStringInjective | index.js:229 | Different numbers have different decimal forms. |
| Scanner.Scan | index.js:115 | Every match starts and ends with `*`, has at least one character between them, and none of those is `*`. The matches come left to right without overlap, and together they cover at most the scanned part of the text. |
| Scanner.ScanComplete | index.js:115 | The scan misses no match. The opening `*` of every `*x*` at or after the start position, with `x` non-empty and star-free, lies inside a returned span. Either it opens its own match, or it closes an earlier one. |
| Scanner.ScanEmptyIff | index.js:115-116 | The scan from a position finds no match exactly when no `*x*`, with `x` non-empty and star-free, starts at or after that position. |
| Scanner.SegmentsEmptyIff | index.js:115-116 | `text.match(...)` is empty exactly when the text has no `*x*` shape. |
| Scanner.SegmentShape | index.js:115 | Each matched segment has at least three characters, starts and ends with `*`, and has no `*` inside. The spans do not overlap. |
| Scanner.SpanText | index.js:115 | The text of one match has the segment shape above. |
| Scanner.Substrings | index.js:115 | The k-th segment is the text of the k-th matched span. |
| Scanner.JoinedLengthOfSubstrings | index.js:121 | `segments.join('').length` equals the number of positions the spans cover. |
| Scanner.WrappedLengthBound | index.js:121 | `segments.join('').length` never exceeds `text.length`, so the wrapped ratio is at most 1. |
| Scanner.ScanSkipsStarFree | index.js:115 | The scan passes over a stretch without `*` and finds the same matches after it. |
| Scanner.SoleSegment | index.js:115 | Star-free text, one `*x*` and star-free text give exactly that one segment. |
| Classifier.ActionPoints | index.js:138-140 | A segment earns at most 4 action points. It earns some exactly when its content has an action word, an emotion word, or a pronoun within at most eight words. |
| Classifier.FormattingPoints | index.js:143-145 | A segment earns at most 3 formatting points. When it earns none, its content has a space and at most 100 characters. |
| Classifier.Score | index.js:118-146 | The action score is at most 4 per segment. The formatting score is at most 3 per segment plus 6 from the two whole-text rules. |
| Classifier.SumScores | index.js:133-146 | The loop over the segments' contents accumulates exactly the per-segment action and formatting totals. |
| Classifier.Classify | index.js:112-149 | The classifier written as the source's loop returns exactly the verdict of the functional model. A positive verdict implies that the text has a `*` and at least one segment. |
| Classifier.VerdictIff | index.js:113-148 | The verdict holds exactly when the text has a `*`, at least one segment, and an action score more than 2 above the formatting score. |
| Classifier.NoAsteriskIsNotAction | index.js:113 | A text without `*` is never actions. |
| Classifier.NoStarPairIsNotAction | index.js:115-116 | A text with no `*x*` shape is never actions. |
| Classifier.LoneStarsAreNotActions | index.js:113-116 | `"*"` and `"**"` are not actions. |
| Classifier.ActionsNeedActionSegment | index.js:133-148 | A text classified as actions has a segment whose content earns action points. |
| Classifier.SingleWrappedSegmentIsNotAction | index.js:121-148 | A text whose only segment covers more than 70% of it is never actions. |
| Classifier.ContentOfPlainSegment | index.js:134 | The content of `*x*` is `x` when `x` has no `*` and no upper-case letter. |
| Classifier.SingleLineNoBonus | index.js:125-127 | A text without a line break never earns the paragraph points. |
| Classifier.SumsOfOne | index.js:133-146 | With one segment, the totals are that segment's points. |
| Classifier.OneLineOneSegmentScore | index.js:118-146 | A one-line text with one segment covering at most 70% of it is scored by that segment alone. |
| Classifier.OneLineOneSegmentVerdict | index.js:112-148 | For one plain `*x*` on one line, covering at most 70% of the text, the verdict is exactly "x's action points exceed its formatting points by more than 2". |
| Classifier.ParagraphBonusNeedsFourWrappedLines | index.js:127 | The paragraph points need at least four non-blank lines and at least four wrapped ones. |
| Classifier.AllLinesWrappedEarnsBonus | index.js:125-127 | Four or more non-blank lines, all wrapped, earn the paragraph points. |
| Classifier.FourOfFiveWrappedEarnsNothing | index.js:127 | Four wrapped lines out of five earn no paragraph points, because more than 80% is strict. |
| Classifier.FewLinesNoBonus | index.js:127 | Three or fewer non-blank lines never earn the paragraph points. |
| Classifier.CapsTestOnlyMatchesWhitespace | index.js:134-144 | The capitals test on lower-cased content succeeds exactly when the content is non-empty white space. |
| Fields.PresentGreetingsMembership | index.js:168 | A text is among the present greetings exactly when some greeting slot holds it. |
| Fields.GreetingsExistIff | index.js:168-179 | `alternateGreetings.some(g => g?... && p(g))` holds exactly when some present greeting satisfies `p`. |
| Fields.ConsideredTextsExistIff | index.js:163-180 | Some considered text satisfies a test exactly when the examples, the first message, the description (only when enabled) or some present greeting does. |
| Fields.HasAnyAsterisksIff | index.js:163-169 | `hasAnyAsterisks` holds exactly when some considered text has a `*`. The description is considered only when `cleanDescription` is set. |
| Fields.ShouldCleanAnyFieldIff | index.js:171-180 | `shouldCleanAnyField` holds exactly when checking is off, or some considered text has a `*` and is not classified as actions. |
| Fields.ShouldCleanImpliesHasAny | index.js:171-180 | With checking on, `shouldCleanAnyField` implies `hasAnyAsterisks`. |
| Fields.DescriptionIgnoredWhenDisabled | index.js:167-178 | With `cleanDescription` off, changing the description changes neither gate. |
| Cleaner.CleanField | index.js:182-192 | `cleanField` reports a change exactly when the value has a `*`. The value written is the stripped value, with no `*` left. The field name is appended once exactly when there was a `*`, and never otherwise. |
| Cleaner.StarredIndices | index.js:227-232 | The greeting indices selected are exactly those whose greeting holds a `*`, in increasing order. |
| Cleaner.CleanGreetings | index.js:227-232 | The greeting mapping keeps the list's length and order, leaves every greeting without `*` (and every missing one) as it was, and replaces every greeting with a `*` by its stripped text. |
| Cleaner.CleanGreetingsNames | index.js:229 | The names appended by the mapping are `Alternate greeting <i+1>` for the starred greetings, in index order. |
| Cleaner.GreetingNameInjective | index.js:229 | Different greeting indices give different names. |
| Cleaner.GreetingNamesMembership | index.js:229 | A greeting's name occurs among the names of a list of indices exactly when its index does. |
| Cleaner.GreetingNamesDistinct | index.js:227-232 | The greeting mapping records no name twice. |
| Cleaner.GreetingNamesExact | index.js:227-232 | The name of greeting `k` is recorded exactly when greeting `k` holds a `*`. |
| Cleaner.CleanTextFields | index.js:216-224 | Covers the three `cleanField` calls. The examples and the first message are stripped. The description is stripped when enabled and untouched otherwise. Some call reports a change exactly when one of those fields has a `*`. The names are recorded in source order. |
| Cleaner.CleanAll | index.js:212-237 | Covers the whole cleaning step. Every considered field is stripped. `hasChanges` equals `hasAnyAsterisks`. The greetings are written back exactly when some greeting had a `*`. `cleanedFields` lists the starred text fields, then the starred greetings' names. |
| Cleaner.GreetingsWrittenIff | index.js:234-235 | The cleaned greeting list differs from the original exactly when some greeting had a `*`. When it does not differ, it equals the original. |
| Cleaner.RemoveAsterisksOutcomes | index.js:204-245 | `removeAsterisks` stops with "no asterisks" exactly when no considered field has one. It stops with "actions detected" exactly when there are asterisks but the gate refuses. It cleans otherwise. It never ends in the "no asterisks found" branch after cleaning. |
| Cleaner.AllOrNothing | index.js:212-237 | Once the gate passes, every considered field with a `*` is stripped, whatever its own verdict. No considered field keeps a `*`. |
| Cleaner.NamesStartWithBothMessages | index.js:216-217 | When both messages have a `*`, the cleaned-field list starts with "Example messages" then "First message". |
| Cleaner.MixedVerdictsCleanBoth | index.js:208-220 | With checking on, examples classified as actions are still stripped when the first message needs cleaning. Both are reported. |
| Cleaner.CheckingOffAlwaysCleans | index.js:204-210 | With checking off, any considered `*` leads to cleaning. |
| Cleaner.SecondRunFindsNothing | index.js:204-231 | Running the cleaner again on the values it wrote ends with "no asterisks". |
| Examples.CriesAlternatives | index.js:130 | As written, the action alternative `cries?` matches "crie" and "cries" as whole words, and no alternative matches "cry". |
| Examples.WavesHelloIsNotAction | index.js:121-148 | `*waves hello*` alone is formatting. |
| Examples.SheNodsSlowlyAloneIsNotAction | index.js:121-148 | `*she nods slowly*` alone is formatting: its at most 4 action points never exceed the 3 wrapping points by more than 2. |
| Examples.WavesEarnsNoActionPoints | index.js:130-140 | The content "waves" matches none of the three word lists. |
| Examples.WavesAmidNarrativeIsNotAction | index.js:112-148 | A lone `*waves*` amid any asterisk-free narrative is formatting. |
| Examples.MixedNarrativeIsNotAction | index.js:112-148 | `He said "hi" and then *waves* before walking to the door, smiling the whole way.` is formatting. |
| Examples.ActionAndEmotionPoints | index.js:138-145 | A short phrase of several words, without `!`, holding an action word and an emotion word earns at least 3 action points and no formatting point. |
| Examples.NodsSlowlyAmidNarrativeIsAction | index.js:112-148 | `*nods slowly*` amid asterisk-free one-line narrative of at least six characters is actions. |

## Left out

- Settings initialisation, persistence and the settings panel (`extension_settings`, `saveSettingsDebounced`, `addSettings`). These are host state, a network fetch and UI wiring. The two settings the logic reads are parameters.
- `checkAndAddButton` and its `buttonAdded`, `isAddingButton` and `buttonAddTimeout` flags. These handle timer-debounced DOM insertion.
- The `$(document).ready` event hooks.
- `getCharacterFields` and the context and character lookup at the start of `removeAsterisks` (no character selected, character data not found). These are DOM and host reads. The field record is an input value.
- All side effects of `removeAsterisks`:
  - writing values into the editor fields;
  - `character.data` assignments;
  - `JSON.stringify` into the greetings template;
  - `trigger("change")`;
  - clicking the save button;
  - the toast notifications.

  `RemoveAsterisks` returns which notification would be shown. `CleanAll` returns the values that would be written.
- The description is written twice in the source, once by `cleanField` and once into `character.data`. Both writes hold the same stripped text, so the model records it once.
- The `try`/`catch` around `removeAsterisks`. The modelled logic throws on no input the record can hold.
- Alternate greetings that are neither strings nor missing. `g?.includes` would throw on them. Greetings are modelled as optional strings.
- Null or undefined `text` passed to `hasCharacterActions`. Texts are always strings here.
- Strings.Lower: lowers only ASCII letters. JavaScript's `toLowerCase` also lowers non-ASCII letters, which can change which characters reach the word tests.
- Lengths are counted in characters, while JavaScript counts UTF-16 code units. The two differ for characters outside the Basic Multilingual Plane, which changes the `length` tests and the wrapped ratio for such texts. `\b` and `\w` without the `u` flag are ASCII-only in JavaScript, as `Strings.IsWordChar` is.
- Classifier.WrappingPoints and Classifier.ParagraphBonus: the floating-point divisions are compared exactly by cross-multiplication. They agree with the source's double arithmetic only for texts shorter than about 10^14 characters.
- Cleaner.CleanField: the source's final `return false` is unreachable, because a value with a `*` always changes when stripped (`StripUnchangedIff`). It is not modelled as a separate branch.
