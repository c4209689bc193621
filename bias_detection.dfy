/**
 * The word-list bias annotator of the `BiasDetection` component: it splits
 * the input at word boundaries, tests every piece against five fixed
 * patterns, annotates each hit, summarises the annotations, rewrites the
 * text with the suggested corrections and marks the biased pieces for
 * display.
 */
module BiasDetection {
  import opened Wrappers
  import opened Text
  import opened WordSplit
  import opened Replace

  /** One annotation: the matched piece, its bias type, a confidence and a correction. */
  datatype BiasWord = BiasWord(word: string, kind: string, confidence: real, correction: string)

  datatype BiasResult = BiasResult(
    originalText: string,
    correctedText: string,
    biasedWords: seq<BiasWord>,
    summary: string)

  /** One entry of the pattern table: `/\b(w1|w2|…)\b/gi`, its type and its correction. */
  datatype BiasPattern = BiasPattern(words: seq<string>, kind: string, correction: string)

  const MalePronouns := BiasPattern(["he", "him", "his", "man", "men", "mankind"], "Gender", "they/them")
  const FemalePronouns := BiasPattern(["she", "her", "hers", "woman", "women"], "Gender", "they/them")
  const GenderedTitles := BiasPattern(["chairman", "policeman", "fireman"], "Gender", "chairperson/police officer")
  const AgeTerms := BiasPattern(["old", "elderly", "aged"], "Race", "older adult")
  const CasualTerms := BiasPattern(["guys", "dude", "bro"], "Gender", "everyone/folks")

  /** `biasPatterns`, in the order the inner loop tries them. */
  const BiasPatterns: seq<BiasPattern> := [MalePronouns, FemalePronouns, GenderedTitles, AgeTerms, CasualTerms]

  const NoBiasSummary := "No significant bias detected in the text."

  // ---------------------------------------------------------------------
  // The pattern table

  /** Listed words are lower-case letters and shorter than the correction. */
  predicate ValidPattern(bp: BiasPattern) {
    forall m :: 0 <= m < |bp.words| ==> IsLowerWord(bp.words[m]) && |bp.words[m]| < |bp.correction|
  }

  /** No word is listed by both patterns. */
  predicate Apart(a: BiasPattern, b: BiasPattern) {
    forall m, n :: 0 <= m < |a.words| && 0 <= n < |b.words| ==> a.words[m] != b.words[n]
  }

  /** What the annotator relies on in a pattern table. */
  predicate ValidTable(bps: seq<BiasPattern>) {
    && (forall k :: 0 <= k < |bps| ==> ValidPattern(bps[k]))
    && (forall k, j :: 0 <= k < j < |bps| ==> Apart(bps[k], bps[j]))
  }

  lemma MalePronounsValid() ensures ValidPattern(MalePronouns) {}
  lemma FemalePronounsValid() ensures ValidPattern(FemalePronouns) {}
  lemma GenderedTitlesValid() ensures ValidPattern(GenderedTitles) {}
  lemma AgeTermsValid() ensures ValidPattern(AgeTerms) {}
  lemma CasualTermsValid() ensures ValidPattern(CasualTerms) {}

  lemma MalePronounsApart()
    ensures Apart(MalePronouns, FemalePronouns) && Apart(MalePronouns, GenderedTitles)
    ensures Apart(MalePronouns, AgeTerms) && Apart(MalePronouns, CasualTerms)
  {
  }

  lemma OtherPatternsApart()
    ensures Apart(FemalePronouns, GenderedTitles) && Apart(FemalePronouns, AgeTerms)
    ensures Apart(FemalePronouns, CasualTerms) && Apart(GenderedTitles, AgeTerms)
    ensures Apart(GenderedTitles, CasualTerms) && Apart(AgeTerms, CasualTerms)
  {
  }

  lemma BiasPatternsApart(k: nat, j: nat)
    requires k < j < |BiasPatterns|
    ensures Apart(BiasPatterns[k], BiasPatterns[j])
  {
    MalePronounsApart();
    OtherPatternsApart();
    if k == 0 {
      if j == 1 { assert BiasPatterns[j] == FemalePronouns; }
      else if j == 2 { assert BiasPatterns[j] == GenderedTitles; }
      else if j == 3 { assert BiasPatterns[j] == AgeTerms; }
      else { assert BiasPatterns[j] == CasualTerms; }
    } else if k == 1 {
      if j == 2 { assert BiasPatterns[j] == GenderedTitles; }
      else if j == 3 { assert BiasPatterns[j] == AgeTerms; }
      else { assert BiasPatterns[j] == CasualTerms; }
    } else if k == 2 {
      if j == 3 { assert BiasPatterns[j] == AgeTerms; }
      else { assert BiasPatterns[j] == CasualTerms; }
    } else {
      assert BiasPatterns[j] == CasualTerms;
    }
  }

  lemma BiasPatternsWellFormed(k: nat)
    requires k < |BiasPatterns|
    ensures ValidPattern(BiasPatterns[k])
  {
    if k == 0 { MalePronounsValid(); }
    else if k == 1 { FemalePronounsValid(); }
    else if k == 2 { GenderedTitlesValid(); }
    else if k == 3 { AgeTermsValid(); }
    else { CasualTermsValid(); }
  }

  /** The five patterns list lower-case words, no word twice, each shorter than its correction. */
  lemma BiasPatternsValid()
    ensures ValidTable(BiasPatterns)
  {
    forall k | 0 <= k < |BiasPatterns|
      ensures ValidPattern(BiasPatterns[k])
    {
      BiasPatternsWellFormed(k);
    }
    forall k, j | 0 <= k < j < |BiasPatterns|
      ensures Apart(BiasPatterns[k], BiasPatterns[j])
    {
      BiasPatternsApart(k, j);
    }
  }

  predicate IsGenderOrRace(kind: string) {
    kind == "Gender" || kind == "Race"
  }

  /** The table only has the types Gender and Race. */
  lemma BiasPatternKinds()
    ensures forall k :: 0 <= k < |BiasPatterns| ==> IsGenderOrRace(BiasPatterns[k].kind)
  {
  }

  // ---------------------------------------------------------------------
  // Matching a piece against a pattern

  /** What `pattern.test(s)` decides: `\b(w1|…)\b` matches somewhere in `s`. */
  ghost predicate PatternTest(bp: BiasPattern, s: string) {
    exists m, i :: 0 <= m < |bp.words| && WholeWordAt(s, bp.words[m], i)
  }

  /** The pattern lists the piece, ignoring case. */
  predicate Fires(bp: BiasPattern, token: string) {
    LowerStr(token) in bp.words
  }

  /** A piece a pattern fires on is a non-empty run of letters, shorter than the correction. */
  lemma FiredTokenIsWord(bp: BiasPattern, token: string)
    requires ValidPattern(bp) && Fires(bp, token)
    ensures |token| > 0 && AllWordChars(token) && |token| < |bp.correction|
  {
    var w := LowerStr(token);
    var m :| 0 <= m < |bp.words| && bp.words[m] == w;
    assert IsLowerWord(w);
    forall i | 0 <= i < |token|
      ensures IsWordChar(token[i])
    {
      assert w[i] == Lower(token[i]);
    }
  }

  /** `trim` keeps a piece a pattern fires on as it is. */
  lemma FiredTokenTrimmed(bp: BiasPattern, token: string)
    requires ValidPattern(bp) && Fires(bp, token)
    ensures Trim(token) == token
  {
    FiredTokenIsWord(bp, token);
    TrimWordRun(token);
  }

  /**
   * On a piece of `split(/\b/)` the pattern's search succeeds exactly when
   * the whole piece is one of the listed words, ignoring case: `\b` can only
   * sit at the two ends of a run.
   */
  lemma TestIsWholeToken(bp: BiasPattern, token: string)
    requires ValidPattern(bp) && IsRun(token)
    ensures PatternTest(bp, token) <==> Fires(bp, token)
  {
    if Fires(bp, token) {
      FiresIsTest(bp, token);
    }
    if PatternTest(bp, token) {
      var m, i :| 0 <= m < |bp.words| && WholeWordAt(token, bp.words[m], i);
      TestIsFires(bp, token, m, i);
    }
  }

  lemma FiresIsTest(bp: BiasPattern, token: string)
    requires ValidPattern(bp) && Fires(bp, token)
    ensures WholeWordAt(token, LowerStr(token), 0)
  {
    var w := LowerStr(token);
    FiredTokenIsWord(bp, token);
    var m :| 0 <= m < |bp.words| && bp.words[m] == w;
    assert IsLowerWord(w);
    LowerWordFixed(w);
    assert token[0..|w|] == token;
    assert MatchAt(token, w, 0);
    assert IsWordChar(token[0]) && IsWordChar(token[|token| - 1]);
  }

  lemma TestIsFires(bp: BiasPattern, token: string, m: nat, i: int)
    requires ValidPattern(bp) && IsRun(token) && m < |bp.words| && WholeWordAt(token, bp.words[m], i)
    ensures Fires(bp, token)
  {
    var w := bp.words[m];
    assert IsLowerWord(w);
    LowerWordFixed(w);
    WholeWordInRun(token, w, i);
  }

  /** Some pattern lists the piece. */
  predicate Flagged(bps: seq<BiasPattern>, token: string) {
    exists k :: 0 <= k < |bps| && Fires(bps[k], token)
  }

  /** Matching ignores case: the piece `HIS` is listed by the first pattern. */
  lemma UpperCaseFlagged()
    ensures Fires(MalePronouns, "HIS") && Flagged(BiasPatterns, "HIS")
  {
    assert LowerStr("HIS") == "his";
    assert BiasPatterns[0] == MalePronouns;
  }

  /** Matching is whole-piece: `the` and `hello` contain `he` but no pattern lists them. */
  lemma WordsContainingHeNotFlagged()
    ensures !Flagged(BiasPatterns, "the") && !Flagged(BiasPatterns, "hello")
  {
    LowerWordFixed("the");
    LowerWordFixed("hello");
    BiasPatternsValid();
  }

  // ---------------------------------------------------------------------
  // Annotating

  /** `Math.random() * 0.3 + 0.7`, given the draw. */
  function Confidence(draw: real): (c: real)
    ensures 0.0 <= draw < 1.0 ==> 0.7 <= c < 1.0
  {
    draw * 0.3 + 0.7
  }

  function Annotation(token: string, bp: BiasPattern, draw: real): BiasWord {
    BiasWord(Trim(token), bp.kind, Confidence(draw), bp.correction)
  }

  /**
   * What the inner `forEach` pushes for one piece, pattern by pattern;
   * `n` draws of `random` were made before it (`random(m)` is the `m`-th
   * call of `Math.random` in the pass).
   */
  function TokenAnnotations(token: string, bps: seq<BiasPattern>, n: nat, random: nat -> real): seq<BiasWord>
    decreases |bps|
  {
    if bps == [] then []
    else
      PushIf(TokenAnnotations(token, bps[..|bps| - 1], n, random), Fires(bps[|bps| - 1], token),
        token, bps[|bps| - 1], n, random)
  }

  /** One `biasedWords.push` when the test hit: the new annotation takes the next draw. */
  function PushIf(prev: seq<BiasWord>, hit: bool, token: string, bp: BiasPattern, n: nat, random: nat -> real)
    : seq<BiasWord>
  {
    if hit then prev + [Annotation(token, bp, random(n + |prev|))] else prev
  }

  /** What the outer `forEach` has pushed after the given pieces. */
  function Annotations(bps: seq<BiasPattern>, tokens: seq<string>, random: nat -> real): seq<BiasWord>
    decreases |tokens|
  {
    if tokens == [] then []
    else
      var prev := Annotations(bps, tokens[..|tokens| - 1], random);
      prev + TokenAnnotations(tokens[|tokens| - 1], bps, |prev|, random)
  }

  // ---------------------------------------------------------------------
  // The `g` flag: `test` resumes at the pattern's `lastIndex`

  /** The first listed word, in the alternation's order, that stands as a whole word at `i`. */
  function WordAt(words: seq<string>, s: string, i: nat): (r: Option<nat>)
    ensures r.Some? ==> r.value < |words| && WholeWordAt(s, words[r.value], i)
    ensures r.Some? ==> forall m :: 0 <= m < r.value ==> !WholeWordAt(s, words[m], i)
    ensures r.None? ==> forall m :: 0 <= m < |words| ==> !WholeWordAt(s, words[m], i)
  {
    if words == [] then None
    else if WholeWordAt(s, words[0], i) then Some(0)
    else
      var r := WordAt(words[1..], s, i);
      if r.Some? then Some(r.value + 1) else None
  }

  /**
   * `pattern.test(s)` on a pattern with the `g` flag, from its `lastIndex`:
   * the search tries each position from `lastIndex` on, up to and including
   * the end of `s`. It answers whether it matched and the new `lastIndex`:
   * the end of the match after a hit, 0 after a miss or when `lastIndex` was
   * already past the end of `s`.
   */
  function TestGlobal(bp: BiasPattern, s: string, lastIndex: nat): (bool, nat)
    decreases |s| + 1 - lastIndex
  {
    if lastIndex > |s| then (false, 0)
    else
      var a := WordAt(bp.words, s, lastIndex);
      if a.Some? then (true, lastIndex + |bp.words[a.value]|)
      else TestGlobal(bp, s, lastIndex + 1)
  }

  /** `test` hits exactly when some listed word stands as a whole word at or after `lastIndex`. */
  lemma {:induction false} TestGlobalHits(bp: BiasPattern, s: string, lastIndex: nat)
    ensures TestGlobal(bp, s, lastIndex).0
      <==> exists m, j :: 0 <= m < |bp.words| && lastIndex <= j && WholeWordAt(s, bp.words[m], j)
    decreases |s| + 1 - lastIndex
  {
    if lastIndex <= |s| {
      var a := WordAt(bp.words, s, lastIndex);
      if a.Some? {
        assert WholeWordAt(s, bp.words[a.value], lastIndex);
      } else {
        TestGlobalHits(bp, s, lastIndex + 1);
        if exists m, j :: 0 <= m < |bp.words| && lastIndex <= j && WholeWordAt(s, bp.words[m], j) {
          var m, j :| 0 <= m < |bp.words| && lastIndex <= j && WholeWordAt(s, bp.words[m], j);
          assert j != lastIndex;
        }
      }
    }
  }

  /** A miss always leaves `lastIndex` at 0. */
  lemma {:induction false} TestGlobalMissResets(bp: BiasPattern, s: string, lastIndex: nat)
    ensures !TestGlobal(bp, s, lastIndex).0 ==> TestGlobal(bp, s, lastIndex).1 == 0
    decreases |s| + 1 - lastIndex
  {
    if lastIndex <= |s| && WordAt(bp.words, s, lastIndex).None? {
      TestGlobalMissResets(bp, s, lastIndex + 1);
    }
  }

  predicate ValidPatterns(bps: seq<BiasPattern>) {
    forall k :: 0 <= k < |bps| ==> ValidPattern(bps[k])
  }

  predicate AllZero(lastIndex: seq<nat>) {
    forall k :: 0 <= k < |lastIndex| ==> lastIndex[k] == 0
  }

  function Zeros(n: nat): (z: seq<nat>)
    ensures |z| == n && AllZero(z)
  {
    seq(n, k => 0)
  }

  /** From `lastIndex` 0, `test` on a run of one character class hits exactly when the pattern lists the run. */
  lemma TestFromStart(bp: BiasPattern, token: string)
    requires ValidPattern(bp) && IsRun(token)
    ensures TestGlobal(bp, token, 0).0 == Fires(bp, token)
  {
    TestGlobalHits(bp, token, 0);
    TestIsWholeToken(bp, token);
  }

  /** On a piece without word characters `test` misses, whatever `lastIndex` was, and resets it to 0. */
  lemma TestMissesGap(bp: BiasPattern, token: string, lastIndex: nat)
    requires ValidPattern(bp) && NoWordChars(token)
    ensures TestGlobal(bp, token, lastIndex) == (false, 0)
    ensures !Fires(bp, token)
  {
    TestGlobalHits(bp, token, lastIndex);
    TestGlobalMissResets(bp, token, lastIndex);
    forall m, j | 0 <= m < |bp.words| && lastIndex <= j
      ensures !WholeWordAt(token, bp.words[m], j)
    {
    }
    var w := LowerStr(token);
    forall m | 0 <= m < |bp.words|
      ensures bp.words[m] != w
    {
      assert IsLowerWord(bp.words[m]);
      if |token| > 0 {
        assert w[0] == Lower(token[0]) && !IsWordChar(token[0]);
      }
    }
  }

  /**
   * What the inner `forEach` pushes for one piece over the first `j`
   * patterns, each resuming at its own `lastIndex`, and their `lastIndex`
   * afterwards; `n` draws of `random` were made before it.
   */
  function PieceTests(
    token: string, bps: seq<BiasPattern>, lastIndex: seq<nat>, j: nat, n: nat, random: nat -> real)
    : (r: (seq<BiasWord>, seq<nat>))
    requires j <= |bps| && |lastIndex| == |bps|
    ensures |r.1| == j
  {
    if j == 0 then ([], [])
    else
      var prev := PieceTests(token, bps, lastIndex, j - 1, n, random);
      var t := TestGlobal(bps[j - 1], token, lastIndex[j - 1]);
      (PushIf(prev.0, t.0, token, bps[j - 1], n, random), prev.1 + [t.1])
  }

  /** The outer `forEach`: the pieces in turn, every `lastIndex` starting at 0 as the patterns are built afresh. */
  function ScanTests(bps: seq<BiasPattern>, tokens: seq<string>, random: nat -> real): (r: (seq<BiasWord>, seq<nat>))
    ensures |r.1| == |bps|
    decreases |tokens|
  {
    if tokens == [] then ([], Zeros(|bps|))
    else
      var prev := ScanTests(bps, tokens[..|tokens| - 1], random);
      var more := PieceTests(tokens[|tokens| - 1], bps, prev.1, |bps|, |prev.0|, random);
      (prev.0 + more.0, more.1)
  }

  /** With every `lastIndex` at 0, a run gets the annotations of the stateless search. */
  lemma {:induction false} PieceTestsFromZero(
    token: string, bps: seq<BiasPattern>, lastIndex: seq<nat>, j: nat, n: nat, random: nat -> real)
    requires ValidPatterns(bps) && IsRun(token) && j <= |bps| && |lastIndex| == |bps| && AllZero(lastIndex)
    ensures PieceTests(token, bps, lastIndex, j, n, random).0 == TokenAnnotations(token, bps[..j], n, random)
  {
    if j > 0 {
      PieceTestsFromZero(token, bps, lastIndex, j - 1, n, random);
      PieceTestsZeroStep(token, bps, lastIndex, j, n, random);
    }
  }

  /** One more pattern at `lastIndex` 0 keeps the stateful and the stateless annotations equal. */
  lemma PieceTestsZeroStep(
    token: string, bps: seq<BiasPattern>, lastIndex: seq<nat>, j: nat, n: nat, random: nat -> real)
    requires 0 < j <= |bps| && |lastIndex| == |bps| && lastIndex[j - 1] == 0
    requires ValidPattern(bps[j - 1]) && IsRun(token)
    requires PieceTests(token, bps, lastIndex, j - 1, n, random).0 == TokenAnnotations(token, bps[..j - 1], n, random)
    ensures PieceTests(token, bps, lastIndex, j, n, random).0 == TokenAnnotations(token, bps[..j], n, random)
  {
    TokenAnnotationsLast(bps, token, j, n, random);
    PieceTestsAtZero(token, bps, lastIndex, j, n, random);
  }

  /** A pattern whose `lastIndex` is 0 annotates a run exactly when it lists the run. */
  lemma PieceTestsAtZero(
    token: string, bps: seq<BiasPattern>, lastIndex: seq<nat>, j: nat, n: nat, random: nat -> real)
    requires 0 < j <= |bps| && |lastIndex| == |bps| && lastIndex[j - 1] == 0
    requires ValidPattern(bps[j - 1]) && IsRun(token)
    ensures PieceTests(token, bps, lastIndex, j, n, random).0
      == PushIf(PieceTests(token, bps, lastIndex, j - 1, n, random).0, Fires(bps[j - 1], token), token, bps[j - 1], n, random)
  {
    TestFromStart(bps[j - 1], token);
  }

  /** A piece without word characters gets nothing and leaves every `lastIndex` at 0. */
  lemma {:induction false} PieceTestsOnGap(
    token: string, bps: seq<BiasPattern>, lastIndex: seq<nat>, j: nat, n: nat, random: nat -> real)
    requires ValidPatterns(bps) && NoWordChars(token) && j <= |bps| && |lastIndex| == |bps|
    ensures PieceTests(token, bps, lastIndex, j, n, random).0 == []
    ensures AllZero(PieceTests(token, bps, lastIndex, j, n, random).1)
    ensures TokenAnnotations(token, bps[..j], n, random) == []
  {
    if j > 0 {
      PieceTestsOnGap(token, bps, lastIndex, j - 1, n, random);
      TokenAnnotationsLast(bps, token, j, n, random);
      TestMissesGap(bps[j - 1], token, lastIndex[j - 1]);
    }
  }

  /** Pieces of one character class each, word and non-word pieces taking turns. */
  predicate Alternating(tokens: seq<string>) {
    && (forall k :: 0 <= k < |tokens| ==> IsRun(tokens[k]) || tokens[k] == [])
    && (forall k :: 0 < k < |tokens| ==> StartsWithWordChar(tokens[k - 1]) != StartsWithWordChar(tokens[k]))
  }

  /**
   * Over alternating pieces the carried `lastIndex` changes nothing: a word
   * piece always follows a non-word piece, whose miss reset every pattern.
   */
  lemma {:induction false} ScanTestsStateless(bps: seq<BiasPattern>, tokens: seq<string>, random: nat -> real)
    requires ValidPatterns(bps) && Alternating(tokens)
    ensures ScanTests(bps, tokens, random).0 == Annotations(bps, tokens, random)
    ensures tokens == [] || !StartsWithWordChar(tokens[|tokens| - 1]) ==> AllZero(ScanTests(bps, tokens, random).1)
    decreases |tokens|
  {
    if tokens != [] {
      var n := |tokens| - 1;
      var t := tokens[n];
      assert Alternating(tokens[..n]);
      ScanTestsStateless(bps, tokens[..n], random);
      var prev := ScanTests(bps, tokens[..n], random);
      if StartsWithWordChar(t) {
        assert IsRun(t) && (n == 0 || !StartsWithWordChar(tokens[n - 1]));
        PieceTestsFromZero(t, bps, prev.1, |bps|, |prev.0|, random);
        assert bps[..|bps|] == bps;
      } else {
        assert NoWordChars(t);
        PieceTestsOnGap(t, bps, prev.1, |bps|, |prev.0|, random);
        assert bps[..|bps|] == bps;
      }
    }
  }

  /** The pieces of `split(/\b/)` alternate, so the `g` flag never changes what `detectBias` finds. */
  lemma LastIndexHarmless(bps: seq<BiasPattern>, s: string, random: nat -> real)
    requires ValidPatterns(bps)
    ensures ScanTests(bps, SplitAtWordBoundaries(s), random).0
      == Annotations(bps, SplitAtWordBoundaries(s), random)
  {
    if s != [] {
      RunsAlternate(s);
    }
    ScanTestsStateless(bps, SplitAtWordBoundaries(s), random);
  }

  /** The inner `forEach` of `detectBias`: every pattern tried on one piece, moving its `lastIndex`. */
  method AnnotatePiece(
    word: string, biasPatterns: seq<BiasPattern>, lastIndex: seq<nat>, before: seq<BiasWord>, random: nat -> real)
    returns (biasedWords: seq<BiasWord>, lastIndexAfter: seq<nat>)
    requires |lastIndex| == |biasPatterns|
    ensures var r := PieceTests(word, biasPatterns, lastIndex, |biasPatterns|, |before|, random);
      biasedWords == before + r.0 && lastIndexAfter == r.1
  {
    biasedWords := before;
    lastIndexAfter := lastIndex;
    var j := 0;
    while j < |biasPatterns|
      invariant 0 <= j <= |biasPatterns| && |lastIndexAfter| == |biasPatterns|
      invariant var r := PieceTests(word, biasPatterns, lastIndex, j, |before|, random);
        biasedWords == before + r.0 && lastIndexAfter[..j] == r.1
      invariant forall k :: j <= k < |biasPatterns| ==> lastIndexAfter[k] == lastIndex[k]
    {
      var bp := biasPatterns[j];
      var t := TestGlobal(bp, word, lastIndexAfter[j]);
      if t.0 {
        biasedWords := biasedWords + [Annotation(word, bp, random(|biasedWords|))];
      }
      lastIndexAfter := lastIndexAfter[j := t.1];
      j := j + 1;
    }
  }

  /** The annotation pass of `detectBias`: the outer `forEach` over the pieces, on freshly built patterns. */
  method ScanForBias(inputText: string, biasPatterns: seq<BiasPattern>, random: nat -> real)
    returns (biasedWords: seq<BiasWord>)
    ensures biasedWords == ScanTests(biasPatterns, SplitAtWordBoundaries(inputText), random).0
    ensures ValidPatterns(biasPatterns) ==>
      biasedWords == Annotations(biasPatterns, SplitAtWordBoundaries(inputText), random)
  {
    biasedWords := [];
    var lastIndex := Zeros(|biasPatterns|);
    var words := SplitAtWordBoundaries(inputText);
    var i := 0;
    while i < |words|
      invariant 0 <= i <= |words|
      invariant (biasedWords, lastIndex) == ScanTests(biasPatterns, words[..i], random)
    {
      biasedWords, lastIndex := AnnotatePiece(words[i], biasPatterns, lastIndex, biasedWords, random);
      assert words[..i + 1][..i] == words[..i];
      i := i + 1;
    }
    assert words[..i] == words;
    if ValidPatterns(biasPatterns) {
      LastIndexHarmless(biasPatterns, inputText, random);
    }
  }

  // ---------------------------------------------------------------------
  // What the annotations are

  /** Two patterns of a valid table never fire on the same piece. */
  lemma OneFires(bps: seq<BiasPattern>, token: string, k: nat, j: nat)
    requires ValidTable(bps) && k < j < |bps| && Fires(bps[j], token)
    ensures !Fires(bps[k], token)
  {
  }

  /** Over the first `j` patterns a piece gets the annotation of the one that lists it, or none. */
  lemma {:induction false} TokenAnnotationsPrefix(
    bps: seq<BiasPattern>, token: string, j: nat, n: nat, random: nat -> real)
    requires ValidTable(bps) && j <= |bps|
    ensures (forall k :: 0 <= k < j ==> !Fires(bps[k], token))
      ==> TokenAnnotations(token, bps[..j], n, random) == []
    ensures forall k :: 0 <= k < j && Fires(bps[k], token) ==>
      TokenAnnotations(token, bps[..j], n, random) == [Annotation(token, bps[k], random(n))]
  {
    if j > 0 {
      TokenAnnotationsPrefix(bps, token, j - 1, n, random);
      TokenAnnotationsLast(bps, token, j, n, random);
      if Fires(bps[j - 1], token) {
        forall k | 0 <= k < j - 1
          ensures !Fires(bps[k], token)
        {
          OneFires(bps, token, k, j - 1);
        }
        assert TokenAnnotations(token, bps[..j - 1], n, random) == [];
      }
    }
  }

  /** The annotations over the first `j` patterns extend those over the first `j - 1`. */
  lemma TokenAnnotationsLast(bps: seq<BiasPattern>, token: string, j: nat, n: nat, random: nat -> real)
    requires 0 < j <= |bps|
    ensures TokenAnnotations(token, bps[..j], n, random)
      == PushIf(TokenAnnotations(token, bps[..j - 1], n, random), Fires(bps[j - 1], token), token, bps[j - 1], n, random)
  {
    assert bps[..j][..j - 1] == bps[..j - 1];
  }

  /** Each piece gets exactly one annotation if a pattern lists it, and none otherwise. */
  lemma TokenAnnotationsOne(bps: seq<BiasPattern>, token: string, n: nat, random: nat -> real)
    requires ValidTable(bps)
    ensures !Flagged(bps, token) ==> TokenAnnotations(token, bps, n, random) == []
    ensures forall k :: 0 <= k < |bps| && Fires(bps[k], token) ==>
      TokenAnnotations(token, bps, n, random) == [Annotation(token, bps[k], random(n))]
  {
    TokenAnnotationsPrefix(bps, token, |bps|, n, random);
    assert bps[..|bps|] == bps;
  }

  /** `tokens.filter(Flagged)`. */
  function FlaggedTokens(bps: seq<BiasPattern>, tokens: seq<string>): seq<string> {
    if tokens == [] then []
    else (if Flagged(bps, tokens[0]) then [tokens[0]] else []) + FlaggedTokens(bps, tokens[1..])
  }

  lemma {:induction false} FlaggedTokensAppend(bps: seq<BiasPattern>, tokens: seq<string>, t: string)
    ensures FlaggedTokens(bps, tokens + [t])
      == FlaggedTokens(bps, tokens) + (if Flagged(bps, t) then [t] else [])
  {
    if tokens != [] {
      assert (tokens + [t])[1..] == tokens[1..] + [t];
      FlaggedTokensAppend(bps, tokens[1..], t);
    } else {
      assert [t][1..] == [];
    }
  }

  lemma {:induction false} FlaggedTokensIn(bps: seq<BiasPattern>, tokens: seq<string>, t: string)
    requires t in FlaggedTokens(bps, tokens)
    ensures t in tokens && Flagged(bps, t)
  {
    if t !in (if Flagged(bps, tokens[0]) then [tokens[0]] else []) {
      FlaggedTokensIn(bps, tokens[1..], t);
    }
  }

  function Words(bws: seq<BiasWord>): seq<string> {
    seq(|bws|, i requires 0 <= i < |bws| => bws[i].word)
  }

  /** The annotation carries the type and correction of a pattern that lists its word. */
  predicate FromPattern(bps: seq<BiasPattern>, b: BiasWord) {
    exists k :: 0 <= k < |bps| && Fires(bps[k], b.word)
      && b.kind == bps[k].kind && b.correction == bps[k].correction
  }

  /** The annotation a flagged piece gets, in the terms of `AnnotationsFollowTokens`. */
  lemma TokenAnnotationsShape(bps: seq<BiasPattern>, t: string, n: nat, random: nat -> real)
    requires ValidTable(bps)
    ensures !Flagged(bps, t) ==> TokenAnnotations(t, bps, n, random) == []
    ensures Flagged(bps, t) ==> var anns := TokenAnnotations(t, bps, n, random);
      |anns| == 1 && anns[0].word == t && FromPattern(bps, anns[0])
      && anns[0].confidence == Confidence(random(n))
    ensures Words(TokenAnnotations(t, bps, n, random)) == if Flagged(bps, t) then [t] else []
  {
    TokenAnnotationsOne(bps, t, n, random);
    if Flagged(bps, t) {
      var k :| 0 <= k < |bps| && Fires(bps[k], t);
      FiredTokenTrimmed(bps[k], t);
      var b := Annotation(t, bps[k], random(n));
      assert TokenAnnotations(t, bps, n, random) == [b];
      assert FromPattern(bps, b);
      assert Words([b]) == [t];
    }
  }

  /** The words of the annotations are the flagged pieces, in text order. */
  lemma {:induction false} AnnotationsFollowTokens(bps: seq<BiasPattern>, tokens: seq<string>, random: nat -> real)
    requires ValidTable(bps)
    ensures Words(Annotations(bps, tokens, random)) == FlaggedTokens(bps, tokens)
    decreases |tokens|
  {
    if tokens != [] {
      var init := tokens[..|tokens| - 1];
      var t := tokens[|tokens| - 1];
      var prev := Annotations(bps, init, random);
      var last := TokenAnnotations(t, bps, |prev|, random);
      AnnotationsFollowTokens(bps, init, random);
      TokenAnnotationsShape(bps, t, |prev|, random);
      assert tokens == init + [t];
      FlaggedTokensAppend(bps, init, t);
      assert Annotations(bps, tokens, random) == prev + last;
      WordsAppend(prev, last);
    }
  }

  lemma WordsAppend(a: seq<BiasWord>, b: seq<BiasWord>)
    ensures Words(a + b) == Words(a) + Words(b)
  {
  }

  /**
   * Each annotation carries the type and correction of the pattern listing
   * its word, and the `i`-th one took the `i`-th random draw.
   */
  lemma {:induction false} AnnotationsFromPatterns(bps: seq<BiasPattern>, tokens: seq<string>, random: nat -> real)
    requires ValidTable(bps)
    ensures forall i :: 0 <= i < |Annotations(bps, tokens, random)| ==>
      FromPattern(bps, Annotations(bps, tokens, random)[i])
      && Annotations(bps, tokens, random)[i].confidence == Confidence(random(i))
    decreases |tokens|
  {
    if tokens != [] {
      var init := tokens[..|tokens| - 1];
      var t := tokens[|tokens| - 1];
      var prev := Annotations(bps, init, random);
      var last := TokenAnnotations(t, bps, |prev|, random);
      var anns := Annotations(bps, tokens, random);
      AnnotationsFromPatterns(bps, init, random);
      TokenAnnotationsShape(bps, t, |prev|, random);
      assert anns == prev + last;
      forall i | 0 <= i < |anns|
        ensures FromPattern(bps, anns[i]) && anns[i].confidence == Confidence(random(i))
      {
        if i < |prev| {
          assert anns[i] == prev[i];
        } else {
          assert anns[i] == last[0];
        }
      }
    }
  }

  /** A text of word characters only is a single piece. */
  lemma WordIsOnePiece(s: string)
    requires |s| > 0 && AllWordChars(s)
    ensures SplitAtWordBoundaries(s) == [s]
  {
    var n := RunLength(s);
    assert n == |s|;
    assert s[..n] == s && s[n..] == [];
    assert Runs(s) == [s[..n]] + Runs(s[n..]);
  }

  /** Over one piece, the annotations are that piece's. */
  lemma AnnotationsOnePiece(bps: seq<BiasPattern>, t: string, random: nat -> real)
    ensures Annotations(bps, [t], random) == TokenAnnotations(t, bps, 0, random)
  {
    assert [t][..0] == [];
  }

  /** A text that is one listed word gets exactly that word's annotation. */
  lemma SingleWordAnnotated(t: string, k: nat, random: nat -> real)
    requires k < |BiasPatterns| && Fires(BiasPatterns[k], t)
    ensures Analysis(t, random).biasedWords == [Annotation(t, BiasPatterns[k], random(0))]
  {
    BiasPatternsValid();
    FiredTokenIsWord(BiasPatterns[k], t);
    WordIsOnePiece(t);
    AnnotationsOnePiece(BiasPatterns, t, random);
    TokenAnnotationsOne(BiasPatterns, t, 0, random);
  }

  /** `chairman` alone gets one annotation: type Gender, correction `chairperson/police officer`. */
  lemma ChairmanAnnotated(random: nat -> real)
    ensures Analysis("chairman", random).biasedWords
      == [BiasWord("chairman", "Gender", Confidence(random(0)), "chairperson/police officer")]
  {
    var s := "chairman";
    LowerWordFixed(s);
    assert Fires(BiasPatterns[2], s);
    SingleWordAnnotated(s, 2, random);
    GenderedTitlesValid();
    FiredTokenTrimmed(GenderedTitles, s);
  }

  // ---------------------------------------------------------------------
  // Summary

  /** Index of the first occurrence of `x`. */
  function FirstIndex(xs: seq<string>, x: string): (k: nat)
    requires x in xs
    ensures k < |xs| && xs[k] == x && forall j :: 0 <= j < k ==> xs[j] != x
  {
    if xs[0] == x then 0 else 1 + FirstIndex(xs[1..], x)
  }

  lemma {:induction false} FirstIndexAppend(xs: seq<string>, y: string, x: string)
    requires x in xs
    ensures FirstIndex(xs + [y], x) == FirstIndex(xs, x)
  {
    if xs[0] != x {
      assert (xs + [y])[1..] == xs[1..] + [y];
      FirstIndexAppend(xs[1..], y, x);
    }
  }

  lemma FirstIndicesKept(xs: seq<string>, y: string)
    ensures forall x :: x in xs ==> FirstIndex(xs + [y], x) == FirstIndex(xs, x)
  {
    forall x | x in xs ensures FirstIndex(xs + [y], x) == FirstIndex(xs, x) {
      FirstIndexAppend(xs, y, x);
    }
  }

  /** `[...new Set(xs)]`: the distinct elements in order of first occurrence. */
  function Distinct(xs: seq<string>): (d: seq<string>)
    ensures forall x :: x in d <==> x in xs
    ensures forall i, j :: 0 <= i < j < |d| ==> d[i] != d[j]
    ensures forall i, j :: 0 <= i < j < |d| ==> FirstIndex(xs, d[i]) < FirstIndex(xs, d[j])
    decreases |xs|
  {
    if xs == [] then []
    else
      var init := xs[..|xs| - 1];
      var y := xs[|xs| - 1];
      var d := Distinct(init);
      assert xs == init + [y];
      FirstIndicesKept(init, y);
      if y in d then d
      else
        assert FirstIndex(xs, y) == |init|;
        d + [y]
  }

  /** The first element is the first one kept. */
  lemma {:induction false} DistinctFirst(xs: seq<string>)
    requires |xs| > 0
    ensures |Distinct(xs)| > 0 && Distinct(xs)[0] == xs[0]
    decreases |xs|
  {
    if |xs| > 1 {
      var init := xs[..|xs| - 1];
      DistinctFirst(init);
      assert init[0] == xs[0];
    }
  }

  function Kinds(bws: seq<BiasWord>): seq<string> {
    seq(|bws|, i requires 0 <= i < |bws| => bws[i].kind)
  }

  /** The `summary` of a result. */
  function Summary(bws: seq<BiasWord>): string {
    if |bws| > 0 then
      "Detected " + NatToString(|bws|) + " potentially biased phrase(s) related to "
      + Join(Distinct(Kinds(bws)), ", ") + "."
    else NoBiasSummary
  }

  /** The summary is the "no bias" sentence exactly when there is no annotation. */
  lemma SummaryNoBiasIffEmpty(bws: seq<BiasWord>)
    ensures Summary(bws) == NoBiasSummary <==> |bws| == 0
  {
    if |bws| > 0 {
      assert Summary(bws)[0] == 'D' && NoBiasSummary[0] == 'N';
    }
  }

  /** Of three Gender-or-Race types, two are the same. */
  lemma TwoKinds(a: string, b: string, c: string)
    requires IsGenderOrRace(a) && IsGenderOrRace(b) && IsGenderOrRace(c)
    ensures a == b || b == c || a == c
  {
  }

  /**
   * When every annotation is of type Gender or Race, the summary names one
   * of the two or both, the type of the first annotation first.
   */
  lemma SummaryTypes(bws: seq<BiasWord>)
    requires |bws| > 0 && forall i :: 0 <= i < |bws| ==> IsGenderOrRace(bws[i].kind)
    ensures var d := Distinct(Kinds(bws));
      1 <= |d| <= 2 && d[0] == bws[0].kind
      && (forall i :: 0 <= i < |d| ==> IsGenderOrRace(d[i]))
      && (|d| == 2 ==> d[0] != d[1])
  {
    var ks := Kinds(bws);
    var d := Distinct(ks);
    assert ks[0] in d;
    forall i | 0 <= i < |d| ensures IsGenderOrRace(d[i]) {
      assert d[i] in ks;
    }
    if |d| > 2 {
      TwoKinds(d[0], d[1], d[2]);
    }
    DistinctFirst(ks);
  }

  // ---------------------------------------------------------------------
  // Detection

  /** The result of a pass over a non-blank text; `correctedText` starts as the text. */
  function Analysis(inputText: string, random: nat -> real): BiasResult {
    var bws := Annotations(BiasPatterns, SplitAtWordBoundaries(inputText), random);
    BiasResult(inputText, inputText, bws, Summary(bws))
  }

  /**
   * Every annotation of a detection pass carries the type Gender or Race, so
   * `SummaryTypes` and the statistics' `DetectorLeavesOtherCategories` apply
   * to the detector's own results.
   */
  lemma AnalysisKinds(inputText: string, random: nat -> real)
    ensures var bws := Analysis(inputText, random).biasedWords;
      forall i :: 0 <= i < |bws| ==> IsGenderOrRace(bws[i].kind)
  {
    BiasPatternsValid();
    BiasPatternKinds();
    AnnotationsFromPatterns(BiasPatterns, SplitAtWordBoundaries(inputText), random);
  }

  datatype Detection = InputRequired | Completed(result: BiasResult)

  // ---------------------------------------------------------------------
  // Correction

  /** The text after `s.replace(/\bword\b/gi, correction)` for each annotation in turn. */
  function Corrected(text: string, bws: seq<BiasWord>): string
    requires forall i :: 0 <= i < |bws| ==> |bws[i].word| > 0
    decreases |bws|
  {
    if bws == [] then text
    else
      var b := bws[|bws| - 1];
      ReplaceWholeWord(Corrected(text, bws[..|bws| - 1]), b.word, b.correction)
  }

  /** The loop of `correctBias`, each replacement applied to the running text. */
  method ApplyCorrections(originalText: string, biasedWords: seq<BiasWord>) returns (corrected: string)
    requires forall i :: 0 <= i < |biasedWords| ==> |biasedWords[i].word| > 0
    ensures corrected == Corrected(originalText, biasedWords)
  {
    corrected := originalText;
    for i := 0 to |biasedWords|
      invariant corrected == Corrected(originalText, biasedWords[..i])
    {
      var bias := biasedWords[i];
      assert biasedWords[..i + 1][..i] == biasedWords[..i];
      corrected := ReplaceWholeWord(corrected, bias.word, bias.correction);
    }
    assert biasedWords[..|biasedWords|] == biasedWords;
  }

  /** Each annotated word is a non-empty run of word characters shorter than its correction. */
  predicate Lengthens(bws: seq<BiasWord>) {
    forall i :: 0 <= i < |bws| ==>
      |bws[i].word| > 0 && AllWordChars(bws[i].word) && |bws[i].word| < |bws[i].correction|
  }

  /** The annotations of a pass over a valid table lengthen the text they replace. */
  lemma AnnotationsLengthen(bps: seq<BiasPattern>, tokens: seq<string>, random: nat -> real)
    requires ValidTable(bps)
    ensures Lengthens(Annotations(bps, tokens, random))
  {
    var bws := Annotations(bps, tokens, random);
    AnnotationsFromPatterns(bps, tokens, random);
    forall i | 0 <= i < |bws|
      ensures |bws[i].word| > 0 && AllWordChars(bws[i].word) && |bws[i].word| < |bws[i].correction|
    {
      var k :| 0 <= k < |bps| && Fires(bps[k], bws[i].word)
        && bws[i].kind == bps[k].kind && bws[i].correction == bps[k].correction;
      FiredTokenIsWord(bps[k], bws[i].word);
    }
  }

  /** Applying the annotations after the first `m` never shortens the text. */
  lemma {:induction false} CorrectedGrows(text: string, bws: seq<BiasWord>, m: nat)
    requires Lengthens(bws) && m <= |bws|
    ensures |Corrected(text, bws)| >= |Corrected(text, bws[..m])|
    decreases |bws| - m
  {
    if m < |bws| {
      var b := bws[|bws| - 1];
      var init := bws[..|bws| - 1];
      assert Lengthens(init);
      CorrectedGrows(text, init, m);
      assert init[..m] == bws[..m];
      ReplaceWholeWordGrows(Corrected(text, init), b.word, b.correction);
    } else {
      assert bws[..m] == bws;
    }
  }

  /**
   * Correcting a result that has an annotation changes its text: the first
   * annotated word stands in the text as a whole word, its replacement is
   * longer, and no later replacement shortens the text.
   */
  lemma {:induction false} CorrectionChangesText(inputText: string, random: nat -> real)
    requires |Analysis(inputText, random).biasedWords| > 0
    ensures var r := Analysis(inputText, random);
      Lengthens(r.biasedWords) && |Corrected(inputText, r.biasedWords)| > |inputText|
  {
    var bps := BiasPatterns;
    BiasPatternsValid();
    var tokens := SplitAtWordBoundaries(inputText);
    var bws := Annotations(bps, tokens, random);
    AnnotationsFollowTokens(bps, tokens, random);
    AnnotationsLengthen(bps, tokens, random);
    CorrectedGrows(inputText, bws, 1);
    var b := bws[0];
    assert Words(bws)[0] == b.word;
    FlaggedTokensIn(bps, tokens, b.word);
    assert inputText != [];
    var j :| 0 <= j < |tokens| && tokens[j] == b.word;
    WordRunIsWholeWord(inputText, j);
    CountPositive(inputText, b.word, 0, Offset(tokens, j));
    ReplaceWholeWordGrows(inputText, b.word, b.correction);
    assert bws[..1][..0] == [];
  }

  // ---------------------------------------------------------------------
  // Highlighting

  /** A piece of the highlighted text: shown as it is, or marked with the annotation it matched. */
  datatype Piece = Plain(text: string) | Marked(text: string, bias: BiasWord)

  /** What `highlightBiasedWords` returns: the text itself, or one element per piece. */
  datatype Highlighting = Unchanged(text: string) | Pieces(pieces: seq<Piece>)

  /**
   * The `find` of `highlightBiasedWords`: the first annotation whose word,
   * lower-cased, is `key` (the trimmed, lower-cased piece).
   */
  function FindBias(bws: seq<BiasWord>, key: string): (r: Option<nat>)
    ensures r.Some? ==> r.value < |bws| && LowerStr(bws[r.value].word) == key
    ensures r.Some? ==> forall j :: 0 <= j < r.value ==> LowerStr(bws[j].word) != key
    ensures r.None? <==> forall j :: 0 <= j < |bws| ==> LowerStr(bws[j].word) != key
  {
    if bws == [] then None
    else if LowerStr(bws[0].word) == key then Some(0)
    else
      match FindBias(bws[1..], key)
      case Some(j) => Some(j + 1)
      case None => None
  }

  function HighlightPiece(bws: seq<BiasWord>, token: string): Piece {
    match FindBias(bws, LowerStr(Trim(token)))
    case Some(j) => Marked(token, bws[j])
    case None => Plain(token)
  }

  /** `highlightBiasedWords(text)` for the current result. */
  function Highlight(result: Option<BiasResult>, text: string): Highlighting {
    if result.None? || |result.value.biasedWords| == 0 then Unchanged(text)
    else
      var tokens := SplitAtWordBoundaries(text);
      Pieces(seq(|tokens|, i requires 0 <= i < |tokens| => HighlightPiece(result.value.biasedWords, tokens[i])))
  }

  function PieceTexts(ps: seq<Piece>): seq<string> {
    seq(|ps|, i requires 0 <= i < |ps| => ps[i].text)
  }

  /** Read back in order, the highlighted pieces are the text: highlighting adds marks, never changes words. */
  lemma HighlightKeepsText(result: Option<BiasResult>, text: string)
    ensures match Highlight(result, text)
      case Unchanged(t) => t == text
      case Pieces(ps) => Concat(PieceTexts(ps)) == text
  {
    match Highlight(result, text)
    case Unchanged(_) =>
    case Pieces(ps) =>
      var tokens := SplitAtWordBoundaries(text);
      assert PieceTexts(ps) == tokens;
      if text == [] {
        assert Concat([""]) == "" + Concat([]);
      } else {
        RunsCover(text);
      }
  }

  lemma {:induction false} FlaggedTokensHas(bps: seq<BiasPattern>, tokens: seq<string>, t: string)
    requires t in tokens && Flagged(bps, t)
    ensures t in FlaggedTokens(bps, tokens)
  {
    if tokens[0] != t {
      FlaggedTokensHas(bps, tokens[1..], t);
    }
  }

  /** A piece of the split whose trimmed text is an annotated word, ignoring case, is flagged itself. */
  lemma MatchedPieceFlagged(bps: seq<BiasPattern>, b: BiasWord, t: string)
    requires ValidTable(bps) && FromPattern(bps, b) && IsRun(t)
    requires EqualsIgnoreCase(b.word, Trim(t))
    ensures Flagged(bps, t)
  {
    var k :| 0 <= k < |bps| && Fires(bps[k], b.word)
      && b.kind == bps[k].kind && b.correction == bps[k].correction;
    FiredTokenIsWord(bps[k], b.word);
    var w := LowerStr(b.word);
    assert Lower(b.word[0]) == w[0] && IsWordChar(w[0]);
    if AllWordChars(t) {
      TrimWordRun(t);
      assert Fires(bps[k], t);
    } else {
      TrimIsSlice(t);
    }
  }

  /** A flagged piece of the text has an annotation of its own. */
  lemma AnnotationOf(bps: seq<BiasPattern>, bws: seq<BiasWord>, tokens: seq<string>, t: string)
    returns (j: nat)
    requires Words(bws) == FlaggedTokens(bps, tokens)
    requires t in tokens && Flagged(bps, t)
    ensures j < |bws| && bws[j].word == t
  {
    FlaggedTokensHas(bps, tokens, t);
    j :| 0 <= j < |Words(bws)| && Words(bws)[j] == t;
  }

  /** A flagged piece finds an annotation made for it. */
  lemma FlaggedIsFound(bps: seq<BiasPattern>, bws: seq<BiasWord>, t: string, j: nat)
    requires ValidTable(bps) && Flagged(bps, t) && j < |bws| && bws[j].word == t
    ensures FindBias(bws, LowerStr(Trim(t))).Some?
  {
    FlaggedTrimmed(bps, t);
    FindBiasFinds(bws, LowerStr(Trim(t)), j);
  }

  lemma FlaggedTrimmed(bps: seq<BiasPattern>, t: string)
    requires ValidTable(bps) && Flagged(bps, t)
    ensures Trim(t) == t
  {
    var k :| 0 <= k < |bps| && Fires(bps[k], t);
    FiredTokenTrimmed(bps[k], t);
  }

  lemma FindBiasFinds(bws: seq<BiasWord>, key: string, j: nat)
    requires j < |bws| && LowerStr(bws[j].word) == key
    ensures FindBias(bws, key).Some?
  {
  }

  /** A piece that finds an annotation is flagged. */
  lemma FoundIsFlagged(bps: seq<BiasPattern>, bws: seq<BiasWord>, t: string)
    requires ValidTable(bps) && forall i :: 0 <= i < |bws| ==> FromPattern(bps, bws[i])
    requires IsRun(t) && FindBias(bws, LowerStr(Trim(t))).Some?
    ensures Flagged(bps, t)
  {
    MatchedPieceFlagged(bps, bws[FindBias(bws, LowerStr(Trim(t))).value], t);
  }

  /** A piece of the split is found among the annotations of its pass exactly when it is flagged. */
  lemma FoundIffFlagged(bps: seq<BiasPattern>, tokens: seq<string>, random: nat -> real, t: string)
    requires ValidTable(bps) && t in tokens && IsRun(t)
    ensures FindBias(Annotations(bps, tokens, random), LowerStr(Trim(t))).Some? <==> Flagged(bps, t)
  {
    var bws := Annotations(bps, tokens, random);
    AnnotationsFollowTokens(bps, tokens, random);
    AnnotationsFromPatterns(bps, tokens, random);
    if Flagged(bps, t) {
      var j := AnnotationOf(bps, bws, tokens, t);
      FlaggedIsFound(bps, bws, t, j);
    }
    if FindBias(bws, LowerStr(Trim(t))).Some? {
      FoundIsFlagged(bps, bws, t);
    }
  }

  /** A pass with an annotation was over a non-empty text. */
  lemma AnnotatedTextNonEmpty(bps: seq<BiasPattern>, text: string, random: nat -> real)
    requires ValidTable(bps) && |Annotations(bps, SplitAtWordBoundaries(text), random)| > 0
    ensures text != []
  {
    var tokens := SplitAtWordBoundaries(text);
    var bws := Annotations(bps, tokens, random);
    AnnotationsFollowTokens(bps, tokens, random);
    assert Words(bws)[0] == bws[0].word;
    FlaggedTokensIn(bps, tokens, bws[0].word);
    FiredTokenFlagged(bps, bws[0].word);
  }

  /**
   * Highlighting a text with the annotations of its own pass marks exactly
   * the pieces a pattern lists, each with the first annotation whose word
   * it is, and leaves every other piece plain.
   */
  lemma HighlightMarksFlagged(bps: seq<BiasPattern>, text: string, random: nat -> real, r: BiasResult)
    requires ValidTable(bps)
    requires r.biasedWords == Annotations(bps, SplitAtWordBoundaries(text), random) && |r.biasedWords| > 0
    ensures var tokens := SplitAtWordBoundaries(text);
      Highlight(Some(r), text).Pieces? && |Highlight(Some(r), text).pieces| == |tokens|
      && forall i :: 0 <= i < |tokens| ==>
        (Highlight(Some(r), text).pieces[i].Marked? <==> Flagged(bps, tokens[i]))
    ensures var tokens := SplitAtWordBoundaries(text);
      var bws := r.biasedWords;
      Highlight(Some(r), text).Pieces? && |Highlight(Some(r), text).pieces| == |tokens|
      && forall i :: 0 <= i < |tokens| && Highlight(Some(r), text).pieces[i].Marked? ==>
        exists j :: 0 <= j < |bws| && Highlight(Some(r), text).pieces[i].bias == bws[j]
          && LowerStr(bws[j].word) == LowerStr(Trim(tokens[i]))
          && forall m :: 0 <= m < j ==> LowerStr(bws[m].word) != LowerStr(Trim(tokens[i]))
  {
    var tokens := SplitAtWordBoundaries(text);
    var ps := Highlight(Some(r), text).pieces;
    AnnotatedTextNonEmpty(bps, text, random);
    RunsAlternate(text);
    forall i | 0 <= i < |tokens|
      ensures ps[i].Marked? <==> Flagged(bps, tokens[i])
    {
      FoundIffFlagged(bps, tokens, random, tokens[i]);
    }
    forall i | 0 <= i < |tokens| && ps[i].Marked?
      ensures exists j :: 0 <= j < |r.biasedWords| && ps[i].bias == r.biasedWords[j]
                && LowerStr(r.biasedWords[j].word) == LowerStr(Trim(tokens[i]))
                && forall m :: 0 <= m < j ==> LowerStr(r.biasedWords[m].word) != LowerStr(Trim(tokens[i]))
    {
      var j := FindBias(r.biasedWords, LowerStr(Trim(tokens[i]))).value;
      assert ps[i].bias == r.biasedWords[j];
    }
  }

  lemma FiredTokenFlagged(bps: seq<BiasPattern>, t: string)
    requires ValidTable(bps) && Flagged(bps, t)
    ensures |t| > 0
  {
    var k :| 0 <= k < |bps| && Fires(bps[k], t);
    FiredTokenIsWord(bps[k], t);
  }

  // ---------------------------------------------------------------------
  // Detection outcome and the component's state

  /** What a press of "Detect" leads to: the "Input Required" toast, or a new result passed to `onAnalysisComplete`. */
  function Detect(inputText: string, random: nat -> real): (d: Detection)
    ensures d.InputRequired? <==> IsBlank(inputText)
    ensures d.Completed? ==> d.result.originalText == inputText && d.result.correctedText == inputText
    ensures d.Completed? ==>
      Words(d.result.biasedWords) == FlaggedTokens(BiasPatterns, SplitAtWordBoundaries(inputText))
    ensures d.Completed? ==> (d.result.summary == NoBiasSummary <==> |d.result.biasedWords| == 0)
    ensures d.Completed? ==> d.result.summary == Summary(d.result.biasedWords)
  {
    TrimEmptyIffBlank(inputText);
    BiasPatternsValid();
    AnnotationsFollowTokens(BiasPatterns, SplitAtWordBoundaries(inputText), random);
    SummaryNoBiasIffEmpty(Annotations(BiasPatterns, SplitAtWordBoundaries(inputText), random));
    if Trim(inputText) == [] then InputRequired else Completed(Analysis(inputText, random))
  }

  /** The state of the `BiasDetection` component: the text box and the last result. */
  class BiasDetector {
    var inputText: string
    var result: Option<BiasResult>

    /** A stored result has a summary that fits its annotations, and its words lengthen when corrected. */
    ghost predicate Valid()
      reads this
    {
      result.Some? ==>
        Lengthens(result.value.biasedWords) && result.value.summary == Summary(result.value.biasedWords)
    }

    constructor()
      ensures Valid() && inputText == [] && result == None
    {
      inputText := [];
      result := None;
    }

    /** The text box's `onChange`. */
    method SetInputText(text: string)
      requires Valid()
      modifies this
      ensures Valid() && inputText == text && result == old(result)
    {
      inputText := text;
    }

    /** `detectBias`: a blank text only raises the toast; otherwise a new result replaces the old one. */
    method DetectBias(random: nat -> real) returns (outcome: Detection)
      requires Valid()
      modifies this
      ensures Valid() && inputText == old(inputText)
      ensures outcome == Detect(inputText, random)
      ensures outcome.InputRequired? ==> result == old(result)
      ensures outcome.Completed? ==> result == Some(outcome.result)
    {
      if Trim(inputText) == [] {
        TrimEmptyIffBlank(inputText);
        return InputRequired;
      }
      TrimEmptyIffBlank(inputText);
      var biasedWords := ScanForBias(inputText, BiasPatterns, random);
      BiasPatternsValid();
      AnnotationsLengthen(BiasPatterns, SplitAtWordBoundaries(inputText), random);
      var newResult := BiasResult(inputText, inputText, biasedWords, Summary(biasedWords));
      result := Some(newResult);
      outcome := Completed(newResult);
    }

    /** `correctBias`: without a result nothing happens; otherwise the corrected text is stored. */
    method CorrectBias()
      requires Valid()
      modifies this
      ensures Valid() && inputText == old(inputText)
      ensures old(result).None? ==> result == None
      ensures old(result).Some? ==>
        result == Some(old(result).value.(correctedText :=
          Corrected(old(result).value.originalText, old(result).value.biasedWords)))
    {
      if result.None? {
        return;
      }
      var r := result.value;
      var corrected := ApplyCorrections(r.originalText, r.biasedWords);
      result := Some(r.(correctedText := corrected));
    }

    /** `highlightBiasedWords(text)` under the current result. */
    function Highlighted(text: string): Highlighting
      reads this
    {
      Highlight(result, text)
    }
  }

  /**
   * After a detection, correction lengthens the text whenever the pass
   * found something, and leaves the stored original text and annotations
   * as they were.
   */
  lemma CorrectionAfterDetection(inputText: string, random: nat -> real)
    requires Detect(inputText, random).Completed?
    ensures var r := Detect(inputText, random).result;
      Lengthens(r.biasedWords)
      && (|r.biasedWords| > 0 ==> |Corrected(r.originalText, r.biasedWords)| > |r.originalText|)
      && (|r.biasedWords| == 0 ==> Corrected(r.originalText, r.biasedWords) == r.originalText)
  {
    BiasPatternsValid();
    AnnotationsLengthen(BiasPatterns, SplitAtWordBoundaries(inputText), random);
    if |Detect(inputText, random).result.biasedWords| > 0 {
      CorrectionChangesText(inputText, random);
    }
  }
}
