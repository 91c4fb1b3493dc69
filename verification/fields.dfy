// The gates `hasAnyAsterisks(fields)` and `shouldCleanAnyField(fields)`. They
// look at the example messages, the first message, the alternate greetings
// and, when the `cleanDescription` setting is on, the description. The two
// settings the source reads from the extension's stored settings are
// parameters here.
module Fields {
  import opened Strings
  import opened Classifier

  datatype Option<T> = None | Some(value: T)

  /** The character's text fields, as read from the editor. An alternate
      greeting may be missing (`null`), which `g?.includes('*')` tolerates. */
  datatype CharacterFields = CharacterFields(
    examples: string,
    firstMessage: string,
    alternateGreetings: seq<Option<string>>,
    description: string)

  /** The two settings the cleaner consults. */
  datatype Settings = Settings(checkForCharacterActions: bool, cleanDescription: bool)

  /** `g?.includes('*')`. */
  predicate GreetingHasStar(g: Option<string>) {
    g.Some? && '*' in g.value
  }

  /** `text.includes('*') && !hasCharacterActions(text)`: the field holds
      asterisks that the classifier does not read as actions. */
  predicate NeedsCleaning(text: string) {
    '*' in text && !HasCharacterActions(text)
  }

  /** `g?.includes('*') && !hasCharacterActions(g)`. */
  predicate GreetingNeedsCleaning(g: Option<string>) {
    g.Some? && NeedsCleaning(g.value)
  }

  /** `hasAnyAsterisks(fields)`. */
  predicate HasAnyAsterisks(f: CharacterFields, cleanDescription: bool) {
    || '*' in f.examples
    || '*' in f.firstMessage
    || (cleanDescription && '*' in f.description)
    || exists k | 0 <= k < |f.alternateGreetings| :: GreetingHasStar(f.alternateGreetings[k])
  }

  /** `shouldCleanAnyField(fields)`. */
  predicate ShouldCleanAnyField(f: CharacterFields, settings: Settings) {
    if !settings.checkForCharacterActions then true
    else
      || NeedsCleaning(f.examples)
      || NeedsCleaning(f.firstMessage)
      || (settings.cleanDescription && NeedsCleaning(f.description))
      || exists k | 0 <= k < |f.alternateGreetings| :: GreetingNeedsCleaning(f.alternateGreetings[k])
  }

  // ---------------------------------------------------------------------------
  // Reference: the list of texts the gates consider
  // ---------------------------------------------------------------------------

  /** The greetings that are present, in order. */
  function PresentGreetings(gs: seq<Option<string>>): (r: seq<string>)
    ensures |r| <= |gs|
  {
    if gs == [] then []
    else (if gs[0].Some? then [gs[0].value] else []) + PresentGreetings(gs[1..])
  }

  /** Every text the gates look at: examples, first message, the description
      when it is enabled, and every present alternate greeting. */
  function ConsideredTexts(f: CharacterFields, cleanDescription: bool): seq<string> {
    [f.examples, f.firstMessage]
    + (if cleanDescription then [f.description] else [])
    + PresentGreetings(f.alternateGreetings)
  }

  /** A text is a present greeting exactly when some greeting holds it. */
  lemma {:induction false} PresentGreetingsMembership(gs: seq<Option<string>>, t: string)
    ensures t in PresentGreetings(gs) <==> exists k :: 0 <= k < |gs| && gs[k] == Some(t)
  {
    if gs != [] {
      PresentGreetingsMembership(gs[1..], t);
      if exists k :: 0 <= k < |gs| && gs[k] == Some(t) {
        var k :| 0 <= k < |gs| && gs[k] == Some(t);
        if k > 0 {
          assert gs[1..][k - 1] == Some(t);
        }
      }
      if exists k :: 0 <= k < |gs[1..]| && gs[1..][k] == Some(t) {
        var k :| 0 <= k < |gs[1..]| && gs[1..][k] == Some(t);
        assert gs[k + 1] == Some(t);
      }
    }
  }

  // ---------------------------------------------------------------------------
  // Properties
  // ---------------------------------------------------------------------------

  /** Some present greeting satisfies `p` exactly when some present greeting
      text does. */
  lemma GreetingsExistIff(gs: seq<Option<string>>, p: string -> bool)
    ensures (exists k | 0 <= k < |gs| :: gs[k].Some? && p(gs[k].value)) <==>
      exists t :: t in PresentGreetings(gs) && p(t)
  {
    if exists k | 0 <= k < |gs| :: gs[k].Some? && p(gs[k].value) {
      var k :| 0 <= k < |gs| && gs[k].Some? && p(gs[k].value);
      PresentGreetingsMembership(gs, gs[k].value);
    }
    if exists t :: t in PresentGreetings(gs) && p(t) {
      var t :| t in PresentGreetings(gs) && p(t);
      PresentGreetingsMembership(gs, t);
    }
  }

  /** Some considered text satisfies `p` exactly when one of the fields the
      gates look at, field by field, does. */
  lemma ConsideredTextsExistIff(f: CharacterFields, cleanDescription: bool, p: string -> bool)
    ensures (exists t :: t in ConsideredTexts(f, cleanDescription) && p(t)) <==>
      || p(f.examples) || p(f.firstMessage) || (cleanDescription && p(f.description))
      || exists k | 0 <= k < |f.alternateGreetings| ::
           f.alternateGreetings[k].Some? && p(f.alternateGreetings[k].value)
  {
    var gs := f.alternateGreetings;
    var front := [f.examples, f.firstMessage] + (if cleanDescription then [f.description] else []);
    var ts := ConsideredTexts(f, cleanDescription);
    assert ts == front + PresentGreetings(gs);
    GreetingsExistIff(gs, p);
    if exists t :: t in ts && p(t) {
      var t :| t in ts && p(t);
      if t !in front {
        assert t in PresentGreetings(gs);
      }
    }
    if exists t :: t in PresentGreetings(gs) && p(t) {
      var t :| t in PresentGreetings(gs) && p(t);
      assert t in ts;
    }
    assert f.examples in ts && f.firstMessage in ts;
    if cleanDescription {
      assert f.description in ts;
    }
  }

  /** `hasAnyAsterisks` holds exactly when some considered text has a `*`. */
  lemma HasAnyAsterisksIff(f: CharacterFields, cleanDescription: bool)
    ensures HasAnyAsterisks(f, cleanDescription) <==>
      exists t :: t in ConsideredTexts(f, cleanDescription) && '*' in t
  {
    ConsideredTextsExistIff(f, cleanDescription, t => '*' in t);
  }

  /** With checking off `shouldCleanAnyField` always holds; with checking on it
      holds exactly when some considered text has a `*` and is not classified
      as actions. */
  lemma ShouldCleanAnyFieldIff(f: CharacterFields, settings: Settings)
    ensures ShouldCleanAnyField(f, settings) <==>
      || !settings.checkForCharacterActions
      || exists t :: t in ConsideredTexts(f, settings.cleanDescription) && NeedsCleaning(t)
  {
    ConsideredTextsExistIff(f, settings.cleanDescription, t => NeedsCleaning(t));
  }

  /** With checking on, deciding to clean implies there are asterisks to clean. */
  lemma ShouldCleanImpliesHasAny(f: CharacterFields, settings: Settings)
    requires settings.checkForCharacterActions
    requires ShouldCleanAnyField(f, settings)
    ensures HasAnyAsterisks(f, settings.cleanDescription)
  {
    if exists k | 0 <= k < |f.alternateGreetings| :: GreetingNeedsCleaning(f.alternateGreetings[k]) {
      var k :| 0 <= k < |f.alternateGreetings| && GreetingNeedsCleaning(f.alternateGreetings[k]);
      assert GreetingHasStar(f.alternateGreetings[k]);
    }
  }

  /** With `cleanDescription` off, the description has no say in either gate. */
  lemma DescriptionIgnoredWhenDisabled(f: CharacterFields, settings: Settings, d: string)
    requires !settings.cleanDescription
    ensures HasAnyAsterisks(f.(description := d), false) == HasAnyAsterisks(f, false)
    ensures ShouldCleanAnyField(f.(description := d), settings) == ShouldCleanAnyField(f, settings)
  {
    assert f.(description := d).alternateGreetings == f.alternateGreetings;
  }
}
