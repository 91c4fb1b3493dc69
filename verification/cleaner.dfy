// The cleaning step of `removeAsterisks`: `cleanField` for the example
// messages, the first message and (when enabled) the description, and the
// mapping over the alternate greetings. It strips every asterisk from every
// considered field that has one, whatever the classifier says of that field:
// the decision to clean is taken once, for the whole character. Writing the
// values back to the editor, saving and the notifications are left to the
// caller; `RemoveAsterisks` returns which notification the source would show.
module Cleaner {
  import opened Strings
  import opened Classifier
  import opened Fields

  /** What `cleanField` returns (`changed`), the value it writes to the editor
      field (`value`), and the list of cleaned field names after it. */
  datatype FieldCleaning = FieldCleaning(changed: bool, value: string, cleanedFields: seq<string>)

  /** `cleanField(selector, value, fieldName, cleanedFields)`. A value with a `*`
      is always changed by stripping, so the source's final `return false` is
      never reached and is not modelled (see `StripUnchangedIff`). */
  function CleanField(value: string, fieldName: string, cleanedFields: seq<string>): (r: FieldCleaning)
    ensures r.changed <==> '*' in value
    ensures r.value == Strip(value) && '*' !in r.value
    ensures r.cleanedFields == cleanedFields + (if '*' in value then [fieldName] else [])
  {
    StripUnchangedIff(value);
    if '*' !in value then FieldCleaning(false, value, cleanedFields)
    else FieldCleaning(true, Strip(value), cleanedFields + [fieldName])
  }

  /** `` `Alternate greeting ${i + 1}` `` for the greeting at index `i`. */
  function GreetingName(i: nat): string {
    "Alternate greeting " + NatToString(i + 1)
  }

  /** The indices of the greetings that hold a `*`, in increasing order. */
  function StarredIndices(gs: seq<Option<string>>): (idx: seq<nat>)
    ensures forall j :: 0 <= j < |idx| ==> idx[j] < |gs| && GreetingHasStar(gs[idx[j]])
    ensures forall k :: 0 <= k < |gs| && GreetingHasStar(gs[k]) ==> k in idx
    ensures forall a, b :: 0 <= a < b < |idx| ==> idx[a] < idx[b]
  {
    if gs == [] then []
    else
      var prefix := StarredIndices(gs[..|gs| - 1]);
      if GreetingHasStar(gs[|gs| - 1]) then prefix + [|gs| - 1] else prefix
  }

  /** The names of the greetings at the given indices. */
  function GreetingNames(idx: seq<nat>): (names: seq<string>)
    ensures |names| == |idx|
  {
    if idx == [] then [] else GreetingNames(idx[..|idx| - 1]) + [GreetingName(idx[|idx| - 1])]
  }

  /** The mapping over `alternateGreetings`: the new list and the names it
      appends to `cleanedFields`. */
  function CleanGreetings(gs: seq<Option<string>>): (r: (seq<Option<string>>, seq<string>))
    ensures |r.0| == |gs|
    ensures forall k :: 0 <= k < |gs| && !GreetingHasStar(gs[k]) ==> r.0[k] == gs[k]
    ensures forall k :: 0 <= k < |gs| && GreetingHasStar(gs[k]) ==> r.0[k] == Some(Strip(gs[k].value))
  {
    if gs == [] then ([], [])
    else
      var prefix := CleanGreetings(gs[..|gs| - 1]);
      var i := |gs| - 1;
      if GreetingHasStar(gs[i]) then (prefix.0 + [Some(Strip(gs[i].value))], prefix.1 + [GreetingName(i)])
      else (prefix.0 + [gs[i]], prefix.1)
  }

  /** The greeting step records one name per greeting that holds a `*`, in
      index order. */
  lemma {:induction false} CleanGreetingsNames(gs: seq<Option<string>>)
    ensures CleanGreetings(gs).1 == GreetingNames(StarredIndices(gs))
  {
    if gs != [] {
      var init := gs[..|gs| - 1];
      CleanGreetingsNames(init);
      var idx := StarredIndices(init);
      if GreetingHasStar(gs[|gs| - 1]) {
        var full := idx + [|gs| - 1];
        assert full[..|full| - 1] == idx;
        assert GreetingNames(full) == GreetingNames(idx) + [GreetingName(|gs| - 1)];
      }
    }
  }

  /** The state after the cleaning step: the values written back to each
      field, whether the alternate greetings were written back, the names of
      the cleaned fields, and `hasChanges`. */
  datatype Cleaning = Cleaning(
    examples: string,
    firstMessage: string,
    description: string,
    alternateGreetings: seq<Option<string>>,
    greetingsWritten: bool,
    cleanedFields: seq<string>,
    hasChanges: bool)

  /** Some greeting of the cleaned list differs from the original one at the
      same index: `cleanedGreetings.some((g, i) => g !== greetings[i])`. */
  predicate AnyGreetingDiffers(cleaned: seq<Option<string>>, original: seq<Option<string>>)
    requires |cleaned| == |original|
  {
    exists k | 0 <= k < |cleaned| :: cleaned[k] != original[k]
  }

  /** The three `cleanField` calls for the text fields, chained through
      `cleanedFields`; the description is passed over when `cleanDescription`
      is off. */
  function CleanTextFields(f: CharacterFields, cleanDescription: bool): (r: (FieldCleaning, FieldCleaning, FieldCleaning))
    ensures r.0.value == Strip(f.examples) && r.1.value == Strip(f.firstMessage)
    ensures cleanDescription ==> r.2.value == Strip(f.description)
    ensures !cleanDescription ==> r.2.value == f.description
    ensures (r.0.changed || r.1.changed || r.2.changed) <==>
      '*' in f.examples || '*' in f.firstMessage || (cleanDescription && '*' in f.description)
    ensures r.2.cleanedFields ==
      (if '*' in f.examples then ["Example messages"] else [])
      + (if '*' in f.firstMessage then ["First message"] else [])
      + (if cleanDescription && '*' in f.description then ["Description"] else [])
  {
    var ex := CleanField(f.examples, "Example messages", []);
    var fm := CleanField(f.firstMessage, "First message", ex.cleanedFields);
    var desc :=
      if cleanDescription then CleanField(f.description, "Description", fm.cleanedFields)
      else FieldCleaning(false, f.description, fm.cleanedFields);
    var exName: seq<string> := if '*' in f.examples then ["Example messages"] else [];
    var fmName: seq<string> := if '*' in f.firstMessage then ["First message"] else [];
    var descName: seq<string> := if cleanDescription && '*' in f.description then ["Description"] else [];
    assert ex.cleanedFields == exName;
    assert fm.cleanedFields == exName + fmName;
    assert desc.cleanedFields == exName + fmName + descName;
    (ex, fm, desc)
  }

  /** Cleans every field that holds a `*`, once the gates have passed. */
  function CleanAll(f: CharacterFields, cleanDescription: bool): (c: Cleaning)
    ensures c.examples == Strip(f.examples) && c.firstMessage == Strip(f.firstMessage)
    ensures cleanDescription ==> c.description == Strip(f.description)
    ensures !cleanDescription ==> c.description == f.description
    ensures c.alternateGreetings == CleanGreetings(f.alternateGreetings).0
    ensures c.hasChanges <==> HasAnyAsterisks(f, cleanDescription)
    ensures c.greetingsWritten <==>
      exists k | 0 <= k < |f.alternateGreetings| :: GreetingHasStar(f.alternateGreetings[k])
    ensures c.cleanedFields ==
      (if '*' in f.examples then ["Example messages"] else [])
      + (if '*' in f.firstMessage then ["First message"] else [])
      + (if cleanDescription && '*' in f.description then ["Description"] else [])
      + GreetingNames(StarredIndices(f.alternateGreetings))
  {
    var (ex, fm, desc) := CleanTextFields(f, cleanDescription);
    var greetings := CleanGreetings(f.alternateGreetings);
    var hasChanges := ex.changed || fm.changed || desc.changed || greetings.1 != [];
    var written := hasChanges && AnyGreetingDiffers(greetings.0, f.alternateGreetings);
    GreetingsWrittenIff(f.alternateGreetings);
    CleanGreetingsNames(f.alternateGreetings);
    Cleaning(
      ex.value, fm.value, desc.value,
      if written then greetings.0 else f.alternateGreetings,
      written, desc.cleanedFields + greetings.1, hasChanges)
  }

  /** The cleaned greeting list differs from the original exactly when some
      greeting had a `*`, and then some name was recorded. */
  lemma GreetingsWrittenIff(gs: seq<Option<string>>)
    ensures AnyGreetingDiffers(CleanGreetings(gs).0, gs) <==>
      exists k | 0 <= k < |gs| :: GreetingHasStar(gs[k])
    ensures CleanGreetings(gs).1 != [] <==> exists k | 0 <= k < |gs| :: GreetingHasStar(gs[k])
    ensures !AnyGreetingDiffers(CleanGreetings(gs).0, gs) ==> CleanGreetings(gs).0 == gs
  {
    var cleaned := CleanGreetings(gs).0;
    var idx := StarredIndices(gs);
    CleanGreetingsNames(gs);
    if exists k | 0 <= k < |gs| :: GreetingHasStar(gs[k]) {
      var k :| 0 <= k < |gs| && GreetingHasStar(gs[k]);
      StripUnchangedIff(gs[k].value);
      assert cleaned[k] != gs[k];
      assert k in idx;
    }
    if !AnyGreetingDiffers(cleaned, gs) {
      assert cleaned == gs;
    }
  }

  /** The notification `removeAsterisks` ends with. */
  datatype Outcome =
    | NoAsterisksFound          // "No asterisks found to remove", before cleaning
    | ActionsDetected           // "Character actions detected. ..."
    | Cleaned(result: Cleaning) // "Asterisks, BEGONE!" after writing back
    | NoChanges(result: Cleaning) // "No asterisks found to remove", after cleaning

  /** The decisions of `removeAsterisks` for a selected character. */
  function RemoveAsterisks(f: CharacterFields, settings: Settings): Outcome {
    if !HasAnyAsterisks(f, settings.cleanDescription) then NoAsterisksFound
    else if !ShouldCleanAnyField(f, settings) then ActionsDetected
    else
      var c := CleanAll(f, settings.cleanDescription);
      if c.hasChanges then Cleaned(c) else NoChanges(c)
  }

  // ---------------------------------------------------------------------------
  // Properties
  // ---------------------------------------------------------------------------

  /** Different indices give different greeting names. */
  lemma GreetingNameInjective(i: nat, j: nat)
    requires GreetingName(i) == GreetingName(j)
    ensures i == j
  {
    var prefix := "Alternate greeting ";
    assert GreetingName(i)[|prefix|..] == NatToString(i + 1);
    assert GreetingName(j)[|prefix|..] == NatToString(j + 1);
    NatToStringInjective(i + 1, j + 1);
  }

  lemma {:induction false} GreetingNamesMembership(idx: seq<nat>, i: nat)
    ensures GreetingName(i) in GreetingNames(idx) <==> i in idx
  {
    if idx != [] {
      GreetingNamesMembership(idx[..|idx| - 1], i);
      var last := idx[|idx| - 1];
      assert idx == idx[..|idx| - 1] + [last];
      if GreetingName(i) == GreetingName(last) {
        GreetingNameInjective(i, last);
      }
    }
  }

  /** The greeting step records the name of greeting `k` exactly when that
      greeting holds a `*`. */
  lemma GreetingNamesExact(gs: seq<Option<string>>, k: nat)
    requires k < |gs|
    ensures GreetingName(k) in CleanGreetings(gs).1 <==> GreetingHasStar(gs[k])
  {
    CleanGreetingsNames(gs);
    GreetingNamesMembership(StarredIndices(gs), k);
  }

  /** The `m`-th name is the name of the `m`-th index. */
  lemma {:induction false} GreetingNamesAt(idx: seq<nat>, m: nat)
    requires m < |idx|
    ensures GreetingNames(idx)[m] == GreetingName(idx[m])
    decreases |idx|
  {
    if m < |idx| - 1 {
      var init := idx[..|idx| - 1];
      GreetingNamesAt(init, m);
      assert init[m] == idx[m];
    }
  }

  /** The greeting step records no name twice. */
  lemma GreetingNamesDistinct(gs: seq<Option<string>>)
    ensures var names := CleanGreetings(gs).1;
      forall a, b :: 0 <= a < b < |names| ==> names[a] != names[b]
  {
    CleanGreetingsNames(gs);
    var idx := StarredIndices(gs);
    var names := CleanGreetings(gs).1;
    forall a, b | 0 <= a < b < |names|
      ensures names[a] != names[b]
    {
      GreetingNamesAt(idx, a);
      GreetingNamesAt(idx, b);
      if names[a] == names[b] {
        GreetingNameInjective(idx[a], idx[b]);
      }
    }
  }

  /** `removeAsterisks` stops with "no asterisks" exactly when no considered
      field has one, stops with "actions detected" exactly when there are
      asterisks but the gate refuses, cleans otherwise, and never reaches its
      final "no asterisks found" branch after cleaning. */
  lemma RemoveAsterisksOutcomes(f: CharacterFields, settings: Settings)
    ensures RemoveAsterisks(f, settings) == NoAsterisksFound <==> !HasAnyAsterisks(f, settings.cleanDescription)
    ensures RemoveAsterisks(f, settings) == ActionsDetected <==>
      HasAnyAsterisks(f, settings.cleanDescription) && !ShouldCleanAnyField(f, settings)
    ensures RemoveAsterisks(f, settings).Cleaned? <==>
      HasAnyAsterisks(f, settings.cleanDescription) && ShouldCleanAnyField(f, settings)
    ensures !RemoveAsterisks(f, settings).NoChanges?
  {
  }

  /** All or nothing: once the gate passes, every considered field that holds
      a `*` is stripped, whatever the classifier says of it, and no considered
      field keeps a `*`. */
  lemma AllOrNothing(f: CharacterFields, settings: Settings)
    requires RemoveAsterisks(f, settings).Cleaned?
    ensures var c := RemoveAsterisks(f, settings).result;
      && c.examples == Strip(f.examples) && '*' !in c.examples
      && c.firstMessage == Strip(f.firstMessage) && '*' !in c.firstMessage
      && (settings.cleanDescription ==> c.description == Strip(f.description) && '*' !in c.description)
      && |c.alternateGreetings| == |f.alternateGreetings|
      && forall k :: 0 <= k < |c.alternateGreetings| ==> !GreetingHasStar(c.alternateGreetings[k])
  {
  }

  lemma NamesStartWithBothMessages(f: CharacterFields, cleanDescription: bool)
    requires '*' in f.examples && '*' in f.firstMessage
    ensures var names := CleanAll(f, cleanDescription).cleanedFields;
      |names| >= 2 && names[0] == "Example messages" && names[1] == "First message"
  {
    var descName: seq<string> := if cleanDescription && '*' in f.description then ["Description"] else [];
    var messages: seq<string> := ["Example messages"] + ["First message"];
    var text := messages + descName;
    assert text[0] == messages[0] && text[1] == messages[1];
    var names := CleanAll(f, cleanDescription).cleanedFields;
    assert names == text + GreetingNames(StarredIndices(f.alternateGreetings));
    assert names[0] == text[0] && names[1] == text[1];
  }

  /** A field read as actions is still stripped when another field is read as
      formatting: with checking on, examples classified as actions and a first
      message that needs cleaning both lose their asterisks and both are
      reported. */
  lemma MixedVerdictsCleanBoth(f: CharacterFields, settings: Settings)
    requires settings.checkForCharacterActions
    requires '*' in f.examples && HasCharacterActions(f.examples)
    requires NeedsCleaning(f.firstMessage)
    ensures RemoveAsterisks(f, settings).Cleaned?
    ensures var c := RemoveAsterisks(f, settings).result;
      && c.examples == Strip(f.examples) && c.firstMessage == Strip(f.firstMessage)
      && |c.cleanedFields| >= 2
      && c.cleanedFields[0] == "Example messages" && c.cleanedFields[1] == "First message"
  {
    assert ShouldCleanAnyField(f, settings);
    var c := CleanAll(f, settings.cleanDescription);
    assert RemoveAsterisks(f, settings) == Cleaned(c);
    NamesStartWithBothMessages(f, settings.cleanDescription);
  }

  /** With checking off, any considered `*` leads to cleaning. */
  lemma CheckingOffAlwaysCleans(f: CharacterFields, settings: Settings)
    requires !settings.checkForCharacterActions
    requires HasAnyAsterisks(f, settings.cleanDescription)
    ensures RemoveAsterisks(f, settings).Cleaned?
  {
  }

  /** Cleaning is idempotent at the level of the character: running the
      cleaner again on the values it wrote finds nothing to remove. */
  lemma SecondRunFindsNothing(f: CharacterFields, settings: Settings)
    requires RemoveAsterisks(f, settings).Cleaned?
    ensures var c := RemoveAsterisks(f, settings).result;
      RemoveAsterisks(CharacterFields(c.examples, c.firstMessage, c.alternateGreetings, c.description), settings)
        == NoAsterisksFound
  {
  }
}
