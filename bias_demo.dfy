/**
 * The mock detector of the `BiasDemo` component: a blank text only raises
 * a toast; otherwise a random bias type and score are drawn and the text is
 * rewritten by three case-insensitive replace-alls, with no word
 * boundaries, in a fixed order.
 */
module BiasDemo {
  import opened Wrappers
  import opened Text
  import opened Replace

  datatype DemoResult = DemoResult(kind: string, score: real, correctedText: string)

  const BiasTypes: seq<string> := ["Gender", "Religion", "Race"]

  /** `/he|him|his/gi`, `/she|her/gi` and `/mankind/gi`, alternatives in pattern order. */
  const MaleForms: seq<string> := ["he", "him", "his"]
  const FemaleForms: seq<string> := ["she", "her"]
  const MankindForm: seq<string> := ["mankind"]

  const Neutral := "they/them"
  const Humankind := "humankind"

  // The sentinel, written in four pieces so that `SentinelHasNoH` can check each short literal on its own.
  const NoCorrections := "No corrections" + " needed - " + "text appears" + " neutral."

  predicate IsBiasType(kind: string) {
    kind == "Gender" || kind == "Religion" || kind == "Race"
  }

  /** `Math.floor(Math.random() * biasTypes.length)`, given the draw. */
  function TypeIndex(draw: real): (k: nat)
    requires 0.0 <= draw < 1.0
    ensures k < |BiasTypes|
  {
    (draw * 3.0).Floor
  }

  /**
   * `parseFloat((Math.random() * 0.5 + 0.3).toFixed(2))`, given the draw:
   * rounded to hundredths, halves upward.
   */
  function Score(draw: real): real {
    ((draw * 0.5 + 0.3) * 100.0 + 0.5).Floor as real / 100.0
  }

  /** The score is a whole number of hundredths between 0.30 and 0.80. */
  lemma ScoreBounds(draw: real)
    requires 0.0 <= draw < 1.0
    ensures 0.3 <= Score(draw) <= 0.8
    ensures (Score(draw) * 100.0).Floor as real == Score(draw) * 100.0
  {
    var f := ((draw * 0.5 + 0.3) * 100.0 + 0.5).Floor;
    assert 30 <= f <= 80;
  }

  lemma FormsValid()
    ensures NonEmptyPatterns(MaleForms) && Lengthening(MaleForms, Neutral)
    ensures NonEmptyPatterns(FemaleForms) && Lengthening(FemaleForms, Neutral)
    ensures NonEmptyPatterns(MankindForm) && Lengthening(MankindForm, Humankind)
  {
  }

  /** The three replacements, in the order the component chains them. */
  function Corrected(text: string): string {
    FormsValid();
    var a := ReplaceAny(text, MaleForms, Neutral);
    var b := ReplaceAny(a, FemaleForms, Neutral);
    ReplaceAny(b, MankindForm, Humankind)
  }

  /** The result the demo shows after pressing "Detect", or the old one when the text is blank. */
  function DemoDetect(prev: Option<DemoResult>, inputText: string, typeDraw: real, scoreDraw: real)
    : (r: Option<DemoResult>)
    requires 0.0 <= typeDraw < 1.0
    ensures IsBlank(inputText) ==> r == prev
    ensures !IsBlank(inputText) ==> r.Some? && r.value.kind in BiasTypes
  {
    TrimEmptyIffBlank(inputText);
    if Trim(inputText) == [] then prev
    else
      var corrected := Corrected(inputText);
      Some(DemoResult(
        BiasTypes[TypeIndex(typeDraw)],
        Score(scoreDraw),
        if corrected != inputText then corrected else NoCorrections))
  }

  /** A shown result names one of the three bias types and a score between 0.30 and 0.80. */
  lemma DemoResultInRange(prev: Option<DemoResult>, inputText: string, typeDraw: real, scoreDraw: real)
    requires 0.0 <= typeDraw < 1.0 && 0.0 <= scoreDraw < 1.0 && !IsBlank(inputText)
    ensures var r := DemoDetect(prev, inputText, typeDraw, scoreDraw).value;
      IsBiasType(r.kind) && 0.3 <= r.score <= 0.8
  {
    TrimEmptyIffBlank(inputText);
    ScoreBounds(scoreDraw);
  }

  // ---------------------------------------------------------------------
  // The she/her rule never fires

  /** `he` ignoring case at `i`. */
  predicate HeAt(u: string, i: nat) {
    i + 1 < |u| && Lower(u[i]) == 'h' && Lower(u[i + 1]) == 'e'
  }

  function MaleFrom(s: string, j: nat): string
    requires j <= |s|
  {
    FormsValid();
    ReplaceAnyFrom(s, MaleForms, Neutral, j)
  }

  /** The first character of the rewritten rest: `t` of a replacement or the kept character. */
  lemma MaleFromFirst(s: string, j: nat)
    requires j < |s|
    ensures |MaleFrom(s, j)| > 0
    ensures MaleFrom(s, j)[0] == if AlternativeAt(s, MaleForms, j).Some? then 't' else s[j]
  {
    FormsValid();
    var r := AlternativeAt(s, MaleForms, j);
    if r.Some? {
      ReplaceAnyFromAtMatch(s, MaleForms, Neutral, j, r.value);
    } else {
      ReplaceAnyFromAtOther(s, MaleForms, Neutral, j);
    }
  }

  /** A kept `h` is not followed by `e` in the input, or `he` would have matched there. */
  lemma KeptHNotBeforeE(s: string, j: nat)
    requires j + 1 < |s| && AlternativeAt(s, MaleForms, j).None? && Lower(s[j]) == 'h'
    ensures Lower(s[j + 1]) != 'e'
  {
  }

  /** The rewritten rest never starts with `he`. */
  lemma MaleFromNoHeStart(s: string, j: nat)
    requires j <= |s|
    ensures !HeAt(MaleFrom(s, j), 0)
  {
    FormsValid();
    if j < |s| {
      MaleFromFirst(s, j);
      var r := AlternativeAt(s, MaleForms, j);
      if r.None? && Lower(s[j]) == 'h' && j + 1 < |s| {
        ReplaceAnyFromAtOther(s, MaleForms, Neutral, j);
        MaleFromFirst(s, j + 1);
        KeptHNotBeforeE(s, j);
        assert MaleFrom(s, j)[1] == MaleFrom(s, j + 1)[0];
      } else if r.None? && j + 1 == |s| {
        ReplaceAnyFromAtOther(s, MaleForms, Neutral, j);
        assert MaleFrom(s, j + 1) == [];
      }
    }
  }

  /** Neither `she` nor `her` can start inside `they/them`. */
  lemma NoFemaleInNeutral(u: string, k: nat)
    requires k < |Neutral|
    ensures !MatchAt(Neutral + u, "she", k) && !MatchAt(Neutral + u, "her", k)
  {
    var t := Neutral + u;
    if MatchAt(t, "she", k) {
      MatchAtChar(t, "she", k, 0);
    }
    if MatchAt(t, "her", k) {
      MatchAtChar(t, "her", k, 0);
      MatchAtChar(t, "her", k, 2);
    }
  }

  /** A match at or after the junction of `x + u` is a match in `u`. */
  lemma MatchShift(x: string, u: string, p: string, k: nat)
    requires k >= |x|
    ensures MatchAt(x + u, p, k) == MatchAt(u, p, k - |x|)
  {
    if k + |p| <= |x + u| {
      assert (x + u)[k..k + |p|] == u[k - |x|..k - |x| + |p|];
    }
  }

  /** No `she` and no `her` anywhere in `u`, ignoring case. */
  predicate NoFemaleForm(u: string) {
    forall k :: 0 <= k < |u| ==> !MatchAt(u, "she", k) && !MatchAt(u, "her", k)
  }

  /** A text whose tail is free of `she` and `her`, and whose head starts neither, is free of them. */
  lemma AppendNoFemale(x: string, rest: string)
    requires NoFemaleForm(rest)
    requires forall k :: 0 <= k < |x| ==> !MatchAt(x + rest, "she", k) && !MatchAt(x + rest, "her", k)
    ensures NoFemaleForm(x + rest)
  {
    forall k | |x| <= k < |x + rest|
      ensures !MatchAt(x + rest, "she", k) && !MatchAt(x + rest, "her", k)
    {
      MatchShift(x, rest, "she", k);
      MatchShift(x, rest, "her", k);
    }
  }

  /** A replacement in front of a rest free of `she` and `her` keeps it free of them. */
  lemma NoFemaleAfterMatch(s: string, j: nat, m: nat)
    requires j < |s| && AlternativeAt(s, MaleForms, j) == Some(m)
    requires j + |MaleForms[m]| <= |s| && NoFemaleForm(MaleFrom(s, j + |MaleForms[m]|))
    ensures NoFemaleForm(MaleFrom(s, j))
  {
    FormsValid();
    var rest := MaleFrom(s, j + |MaleForms[m]|);
    ReplaceAnyFromAtMatch(s, MaleForms, Neutral, j, m);
    forall k | 0 <= k < |Neutral| {
      NoFemaleInNeutral(rest, k);
    }
    AppendNoFemale(Neutral, rest);
  }

  /** A kept character in front of a rest free of `she` and `her` keeps it free of them. */
  lemma NoFemaleAfterKept(s: string, j: nat)
    requires j < |s| && AlternativeAt(s, MaleForms, j).None? && NoFemaleForm(MaleFrom(s, j + 1))
    ensures NoFemaleForm(MaleFrom(s, j))
  {
    FormsValid();
    ReplaceAnyFromAtOther(s, MaleForms, Neutral, j);
    JunctionNoFemale(s, j);
    AppendNoFemale([s[j]], MaleFrom(s, j + 1));
  }

  /** The output of the first replacement has no `she` and no `her` in it. */
  lemma {:induction false} MaleFromNoFemale(s: string, j: nat)
    requires j <= |s|
    ensures NoFemaleForm(MaleFrom(s, j))
    decreases |s| - j
  {
    if j < |s| {
      FormsValid();
      var r := AlternativeAt(s, MaleForms, j);
      if r.Some? {
        MaleFromNoFemale(s, j + |MaleForms[r.value]|);
        NoFemaleAfterMatch(s, j, r.value);
      } else {
        MaleFromNoFemale(s, j + 1);
        NoFemaleAfterKept(s, j);
      }
    }
  }

  /** Neither `she` nor `her` starts at a kept character. */
  lemma JunctionNoFemale(s: string, j: nat)
    requires j < |s| && AlternativeAt(s, MaleForms, j).None?
    ensures !MatchAt(MaleFrom(s, j), "she", 0) && !MatchAt(MaleFrom(s, j), "her", 0)
  {
    FormsValid();
    var u := MaleFrom(s, j);
    var rest := MaleFrom(s, j + 1);
    ReplaceAnyFromAtOther(s, MaleForms, Neutral, j);
    if MatchAt(u, "she", 0) {
      MatchAtChar(u, "she", 0, 1);
      MatchAtChar(u, "she", 0, 2);
      MaleFromNoHeStart(s, j + 1);
    }
    if MatchAt(u, "her", 0) {
      MatchAtChar(u, "her", 0, 0);
      MatchAtChar(u, "her", 0, 1);
      MaleFromFirst(s, j + 1);
      KeptHNotBeforeE(s, j);
    }
  }

  /** After the first replacement the `/she|her/gi` rule finds nothing, so it leaves the text as it is. */
  lemma FemaleRuleNeverFires(text: string)
    ensures var a := ReplaceAny(text, MaleForms, Neutral);
      !OccursFrom(a, FemaleForms, 0) && ReplaceAny(a, FemaleForms, Neutral) == a
  {
    FormsValid();
    var a := ReplaceAny(text, MaleForms, Neutral);
    MaleFromNoFemale(text, 0);
    if OccursFrom(a, FemaleForms, 0) {
      var k :| 0 <= k < |a| && AlternativeAt(a, FemaleForms, k).Some?;
      AlternativeAtSpec(a, FemaleForms, k);
    }
    ReplaceAnyFromGrows(a, FemaleForms, Neutral, 0);
  }

  // ---------------------------------------------------------------------
  // When the sentinel shows

  /**
   * The corrected text equals the input exactly when the input has no
   * `he`, `him`, `his` and no `mankind`, ignoring case; otherwise it is
   * strictly longer.
   */
  lemma CorrectedUnchangedIff(text: string)
    ensures Corrected(text) == text <==>
      !OccursFrom(text, MaleForms, 0) && !OccursFrom(text, MankindForm, 0)
    ensures Corrected(text) != text ==> |Corrected(text)| > |text|
  {
    FormsValid();
    var a := ReplaceAny(text, MaleForms, Neutral);
    var b := ReplaceAny(a, FemaleForms, Neutral);
    ReplaceAnyFromGrows(text, MaleForms, Neutral, 0);
    FemaleRuleNeverFires(text);
    ReplaceAnyFromGrows(b, MankindForm, Humankind, 0);
  }

  /** When some rule fired, the corrected text holds an `h` from a replacement, which the sentinel lacks. */
  lemma CorrectedShowsH(text: string)
    requires OccursFrom(text, MaleForms, 0) || OccursFrom(text, MankindForm, 0)
    ensures 'h' in Corrected(text)
  {
    FormsValid();
    var a := ReplaceAny(text, MaleForms, Neutral);
    var b := ReplaceAny(a, FemaleForms, Neutral);
    FemaleRuleNeverFires(text);
    assert 'h' in Neutral && 'h' in Humankind;
    if OccursFrom(b, MankindForm, 0) {
      ReplaceAnyFromShows(b, MankindForm, Humankind, 0, 'h');
    } else {
      ReplaceAnyFromGrows(b, MankindForm, Humankind, 0);
      ReplaceAnyFromGrows(text, MaleForms, Neutral, 0);
      assert text[0..] == text;
      assert OccursFrom(text, MaleForms, 0);
      ReplaceAnyFromShows(text, MaleForms, Neutral, 0, 'h');
    }
  }

  /** The sentinel has no `h`, which every replacement brings in. */
  lemma SentinelHasNoH()
    ensures 'h' !in NoCorrections
  {
    assert 'h' !in "No corrections";
    assert 'h' !in " needed - ";
    assert 'h' !in "text appears";
    assert 'h' !in " neutral.";
  }

  /** On a non-blank text the demo shows the corrected text when it differs, and the sentinel otherwise. */
  lemma ShownText(prev: Option<DemoResult>, inputText: string, typeDraw: real, scoreDraw: real)
    requires 0.0 <= typeDraw < 1.0 && !IsBlank(inputText)
    ensures DemoDetect(prev, inputText, typeDraw, scoreDraw).value.correctedText ==
      if Corrected(inputText) != inputText then Corrected(inputText) else NoCorrections
  {
    TrimEmptyIffBlank(inputText);
  }

  /**
   * On a non-blank text the shown correction is the sentinel exactly when
   * the text has no `he`, `him`, `his` and no `mankind`, ignoring case;
   * otherwise it is the longer corrected text.
   */
  lemma SentinelIffNothingToCorrect(prev: Option<DemoResult>, inputText: string, typeDraw: real, scoreDraw: real)
    requires 0.0 <= typeDraw < 1.0 && !IsBlank(inputText)
    ensures var shown := DemoDetect(prev, inputText, typeDraw, scoreDraw).value.correctedText;
      && (shown == NoCorrections <==>
        !OccursFrom(inputText, MaleForms, 0) && !OccursFrom(inputText, MankindForm, 0))
      && (shown != NoCorrections ==> shown == Corrected(inputText) && |shown| > |inputText|)
  {
    ShownText(prev, inputText, typeDraw, scoreDraw);
    CorrectedUnchangedIff(inputText);
    if OccursFrom(inputText, MaleForms, 0) || OccursFrom(inputText, MankindForm, 0) {
      CorrectedShowsH(inputText);
      SentinelHasNoH();
    }
  }

  // ---------------------------------------------------------------------
  // Examples

  /** No alternative of `/he|him|his/gi` starts at a character other than `h`. */
  lemma NoMaleFormAt(s: string, i: nat)
    requires i < |s| && Lower(s[i]) != 'h'
    ensures AlternativeAt(s, MaleForms, i).None?
  {
    forall k | 0 <= k < |MaleForms|
      ensures !MatchAt(s, MaleForms[k], i)
    {
      var p := MaleForms[k];
      assert |p| > 0 && p[0] == 'h';
      if MatchAt(s, p, i) {
        MatchAtChar(s, p, i, 0);
      }
    }
    AlternativeAtSpec(s, MaleForms, i);
  }

  /** `mankind` cannot match in a text with no `a`, so its rule leaves such a text as it is. */
  lemma NoMankindWithoutA(u: string)
    requires 'a' !in u && 'A' !in u
    ensures ReplaceAny(u, MankindForm, Humankind) == u
  {
    FormsValid();
    forall k | 0 <= k < |u|
      ensures AlternativeAt(u, MankindForm, k).None?
    {
      if MatchAt(u, MankindForm[0], k) {
        MatchAtChar(u, MankindForm[0], k, 1);
      }
    }
    ReplaceAnyFromUnchanged(u, MankindForm, Humankind, 0);
    assert u[0..] == u;
  }

  /** Only the first and the last rules can change a text. */
  lemma CorrectedSkipsFemale(text: string)
    ensures Corrected(text) == ReplaceAny(ReplaceAny(text, MaleForms, Neutral), MankindForm, Humankind)
  {
    FemaleRuleNeverFires(text);
  }

  lemma NeutralHasNoA()
    ensures 'a' !in "t" + Neutral && 'A' !in "t" + Neutral
  {
  }

  /** The first replacement turns the `he` inside `the` into `they/them`. */
  // `s` stands for the literal: with `"the"` in the goal the solver unfolds the scan on constants and the proof costs about twice as much.
  lemma MaleStepOnThe(s: string)
    requires s == "the"
    ensures ReplaceAny(s, MaleForms, Neutral) == "t" + Neutral
  {
    FormsValid();
    NoMaleFormAt(s, 0);
    ReplaceAnyFromAtOther(s, MaleForms, Neutral, 0);
    assert s[1..3] == MaleForms[0];
    LowerWordFixed(MaleForms[0]);
    ReplaceAnyFromAtMatch(s, MaleForms, Neutral, 1, 0);
  }

  /** Without word boundaries `he` is replaced inside words too: `the` becomes `tthey/them`. */
  lemma TheBecomesTtheyThem()
    ensures Corrected("the") == "t" + Neutral
  {
    MaleStepOnThe("the");
    CorrectedSkipsFemale("the");
    NeutralHasNoA();
    NoMankindWithoutA("t" + Neutral);
  }
}
