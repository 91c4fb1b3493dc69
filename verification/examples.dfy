// The classifier's verdict on concrete texts, stated as lemmas. Long texts
// are written as concatenations of short pieces.
module Examples {
  import opened Strings
  import opened Scanner
  import opened Classifier

  /** A text that is one `*...*` span is formatting. */
  lemma WavesHelloIsNotAction()
    ensures !HasCharacterActions("*waves hello*")
  {
    var seg := "*waves hello*";
    assert "" + seg + "" == seg;
    SoleSegment("", seg, "");
    SingleWrappedSegmentIsNotAction(seg);
  }

  /** `*she nods slowly*` on its own is formatting too: the action keywords
      cannot outweigh the 3 wrapping points plus the margin of 2. */
  lemma SheNodsSlowlyAloneIsNotAction()
    ensures !HasCharacterActions("*she nods slowly*")
  {
    var seg := "*she nods slowly*";
    assert "" + seg + "" == seg;
    SoleSegment("", seg, "");
    SingleWrappedSegmentIsNotAction(seg);
  }

  /** The content of `*waves*` is "waves". */
  lemma WavesContent()
    ensures Content("*waves*") == "waves"
  {
    var x := "waves";
    assert '*' !in x && forall k :: 0 <= k < |x| ==> !('A' <= x[k] <= 'Z');
    ContentOfPlainSegment(x);
    assert "*" + x + "*" == "*waves*";
  }

  /** "waves" is one word and on none of the three word lists. */
  lemma WavesEarnsNoActionPoints()
    ensures ActionPoints("waves") == 0
  {
    var s := "waves";
    assert forall k :: 0 <= k < |s| ==> IsWordChar(s[k]);
    forall k | 0 <= k < |ActionWords| ensures !HasWord(s, ActionWords[k]) {
      OneWordText(s, ActionWords[k]);
    }
    forall k | 0 <= k < |EmotionWords| ensures !HasWord(s, EmotionWords[k]) {
      OneWordText(s, EmotionWords[k]);
    }
    forall k | 0 <= k < |Pronouns| ensures !HasWord(s, Pronouns[k]) {
      OneWordText(s, Pronouns[k]);
    }
  }

  /** `*waves*` is a well-formed segment. */
  lemma WavesShape()
    ensures "*waves*"[0] == '*' && "*waves*"[6] == '*' && '*' !in "*waves*"[1..6]
  {
  }

  /** "waves" is not on the action list, so a lone `*waves*` amid any
      asterisk-free narrative is formatting, however much narrative there is. */
  lemma WavesAmidNarrativeIsNotAction(a: string, c: string)
    requires '*' !in a && '*' !in c
    ensures !HasCharacterActions(a + "*waves*" + c)
  {
    var text := a + "*waves*" + c;
    WavesShape();
    SoleSegment(a, "*waves*", c);
    WavesContent();
    WavesEarnsNoActionPoints();
    if HasCharacterActions(text) {
      ActionsNeedActionSegment(text);
      assert false;
    }
  }

  /** The narrative of the example below has no asterisk. */
  lemma MixedNarrativePlain()
    ensures '*' !in "He said \"hi\" and then "
    ensures '*' !in " before walking to the door," + " smiling the whole way."
  {
  }

  /** Dialogue and narrative around a lone `*waves*`. */
  lemma MixedNarrativeIsNotAction()
    ensures !HasCharacterActions(
      "He said \"hi\" and then " + "*waves*" + (" before walking to the door," + " smiling the whole way."))
  {
    MixedNarrativePlain();
    WavesAmidNarrativeIsNotAction("He said \"hi\" and then ", " before walking to the door," + " smiling the whole way.");
  }

  /** "nods" and "slowly" each occur as whole words. */
  lemma NodsSlowlyWords()
    ensures HasAnyWord("nods slowly", ActionWords)
    ensures HasAnyWord("nods slowly", EmotionWords)
  {
    var s := "nods slowly";
    assert s[0..4] == "nods";
    assert WordAt(s, "nods", 0) && ActionWords[21] == "nods";
    assert s[5..11] == "slowly";
    assert WordAt(s, "slowly", 5) && EmotionWords[2] == "slowly";
  }

  /** A phrase of more than one word, short and without `!`, that holds both
      an action word and an emotion word earns at least 2 + 1 action points
      and no formatting point. */
  lemma ActionAndEmotionPoints(x: string)
    requires HasAnyWord(x, ActionWords) && HasAnyWord(x, EmotionWords)
    requires ' ' in x && '!' !in x && |x| <= 50
    requires !('A' <= x[0] <= 'Z') && !IsWhite(x[0])
    ensures ActionPoints(x) >= 3
    ensures FormattingPoints(x) == 0
  {
    AbsentCharNotContained(x, "!!!", '!');
  }

  /** "cry" is one word and on no alternative of the action list. */
  lemma CryIsNoActionWord()
    ensures !HasAnyWord("cry", ActionWords)
  {
    var s := "cry";
    assert forall k :: 0 <= k < |s| ==> IsWordChar(s[k]);
    forall k | 0 <= k < |ActionWords| ensures !HasWord(s, ActionWords[k]) {
      OneWordText(s, ActionWords[k]);
    }
  }

  /** As written, the alternative `cries?` matches "crie" and "cries" but
      not "cry". */
  lemma CriesAlternatives()
    ensures HasAnyWord("crie", ActionWords) && HasAnyWord("cries", ActionWords)
    ensures !HasAnyWord("cry", ActionWords)
  {
    assert WordAt("crie", "crie", 0) && ActionWords[26] == "crie";
    assert WordAt("cries", "cries", 0) && ActionWords[27] == "cries";
    CryIsNoActionWord();
  }

  /** The character-level facts about "nods slowly" the example below uses. */
  lemma NodsSlowlyShape()
    ensures "*nods slowly*" == "*" + "nods slowly" + "*"
    ensures '*' !in "nods slowly" && '\n' !in "nods slowly"
    ensures forall k :: 0 <= k < |"nods slowly"| ==> !('A' <= "nods slowly"[k] <= 'Z')
    ensures ' ' in "nods slowly" && '!' !in "nods slowly" && !IsWhite("nods slowly"[0])
  {
  }

  /** The phrase's action points exceed its formatting points by more than 2. */
  lemma NodsSlowlyOutscores()
    ensures ActionPoints("nods slowly") > FormattingPoints("nods slowly") + 2
  {
    NodsSlowlyShape();
    NodsSlowlyWords();
    ActionAndEmotionPoints("nods slowly");
  }

  /** `*nods slowly*` amid asterisk-free, one-line narrative of at least six
      characters is an action: 3 action points against no formatting points,
      since the segment then covers at most 70% of the text. */
  lemma NodsSlowlyAmidNarrativeIsAction(a: string, c: string)
    requires '*' !in a && '*' !in c && '\n' !in a && '\n' !in c
    requires |a| + |c| >= 6
    ensures HasCharacterActions(a + "*nods slowly*" + c)
  {
    NodsSlowlyShape();
    NodsSlowlyOutscores();
    OneLineOneSegmentVerdict(a, "nods slowly", c);
  }
}
