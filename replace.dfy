/**
 * `String.prototype.replace` with a global, case-insensitive regular
 * expression, for the two pattern shapes the components build: a whole word
 * `\bw\b` and an alternation of literals `p1|p2|…`. Both scan left to right,
 * replace the leftmost match and continue after it.
 */
module Replace {
  import opened Text
  import opened Wrappers

  // ---------------------------------------------------------------------
  // `s.replace(new RegExp("\\b" + w + "\\b", "gi"), rep)`

  function ReplaceWordFrom(s: string, w: string, rep: string, i: nat): string
    requires |w| > 0 && i <= |s|
    decreases |s| - i
  {
    if i == |s| then []
    else if WholeWordAt(s, w, i) then rep + ReplaceWordFrom(s, w, rep, i + |w|)
    else [s[i]] + ReplaceWordFrom(s, w, rep, i + 1)
  }

  function ReplaceWholeWord(s: string, w: string, rep: string): string
    requires |w| > 0
  {
    ReplaceWordFrom(s, w, rep, 0)
  }

  /** The number of positions at or after `i` where `\bw\b` matches. */
  function CountWholeWordFrom(s: string, w: string, i: nat): nat
    requires i <= |s|
    decreases |s| - i
  {
    if i == |s| then 0
    else (if WholeWordAt(s, w, i) then 1 else 0) + CountWholeWordFrom(s, w, i + 1)
  }

  function CountWholeWord(s: string, w: string): nat {
    CountWholeWordFrom(s, w, 0)
  }

  /** A match anywhere at or after `i` is counted. */
  lemma {:induction false} CountPositive(s: string, w: string, i: nat, p: nat)
    requires i <= p < |s| && WholeWordAt(s, w, p)
    ensures CountWholeWordFrom(s, w, i) >= 1
    decreases p - i
  {
    if i < p {
      CountPositive(s, w, i + 1, p);
    }
  }

  /**
   * One step of the whole-word scan with a longer replacement: it moves from
   * `i` to `j`, and the output grows by at least the input it consumed, by
   * more when it replaced a match, which is then the only one counted before `j`.
   */
  lemma ReplaceWordFromStep(s: string, w: string, rep: string, i: nat) returns (j: nat)
    requires |w| > 0 && AllWordChars(w) && |w| < |rep| && i < |s|
    ensures i < j <= |s|
    ensures |ReplaceWordFrom(s, w, rep, i)| >= |ReplaceWordFrom(s, w, rep, j)| + (j - i)
    ensures WholeWordAt(s, w, i) ==>
      |ReplaceWordFrom(s, w, rep, i)| > |ReplaceWordFrom(s, w, rep, j)| + (j - i)
    ensures !WholeWordAt(s, w, i) ==>
      j == i + 1 && CountWholeWordFrom(s, w, i) == CountWholeWordFrom(s, w, j)
  {
    if WholeWordAt(s, w, i) {
      j := i + |w|;
    } else {
      j := i + 1;
    }
  }

  /** A longer replacement never shortens the text. */
  lemma {:induction false} ReplaceWordFromNotShorter(s: string, w: string, rep: string, i: nat)
    requires |w| > 0 && AllWordChars(w) && |w| < |rep| && i <= |s|
    ensures |ReplaceWordFrom(s, w, rep, i)| >= |s| - i
    decreases |s| - i
  {
    if i < |s| {
      var j := ReplaceWordFromStep(s, w, rep, i);
      ReplaceWordFromNotShorter(s, w, rep, j);
    }
  }

  /** ... and lengthens it when the word occurs. */
  lemma {:induction false} ReplaceWordFromLonger(s: string, w: string, rep: string, i: nat)
    requires |w| > 0 && AllWordChars(w) && |w| < |rep| && i <= |s| && CountWholeWordFrom(s, w, i) > 0
    ensures |ReplaceWordFrom(s, w, rep, i)| > |s| - i
    decreases |s| - i
  {
    var j := ReplaceWordFromStep(s, w, rep, i);
    if WholeWordAt(s, w, i) {
      ReplaceWordFromNotShorter(s, w, rep, j);
    } else {
      ReplaceWordFromLonger(s, w, rep, j);
    }
  }

  /** A longer replacement never shortens the text, and lengthens it when the word occurs. */
  lemma ReplaceWholeWordGrows(s: string, w: string, rep: string)
    requires |w| > 0 && AllWordChars(w) && |w| < |rep|
    ensures |ReplaceWholeWord(s, w, rep)| >= |s|
    ensures CountWholeWord(s, w) > 0 ==> |ReplaceWholeWord(s, w, rep)| > |s|
  {
    ReplaceWordFromNotShorter(s, w, rep, 0);
    if CountWholeWord(s, w) > 0 {
      ReplaceWordFromLonger(s, w, rep, 0);
    }
  }

  /** Without a match the text comes back unchanged. */
  lemma {:induction false} ReplaceWordFromNoMatch(s: string, w: string, rep: string, i: nat)
    requires |w| > 0 && i <= |s|
    requires CountWholeWordFrom(s, w, i) == 0
    ensures ReplaceWordFrom(s, w, rep, i) == s[i..]
    decreases |s| - i
  {
    if i < |s| {
      ReplaceWordFromNoMatch(s, w, rep, i + 1);
      assert s[i..] == [s[i]] + s[i + 1..];
    }
  }

  // ---------------------------------------------------------------------
  // `s.replace(/p1|p2|…/gi, rep)`

  /** The index of the first alternative, in pattern order, that matches at `i`. */
  function AlternativeAt(s: string, pats: seq<string>, i: nat): (r: Option<nat>)
    ensures r.Some? ==> r.value < |pats| && i + |pats[r.value]| <= |s|
  {
    if pats == [] then None
    else if MatchAt(s, pats[0], i) then Some(0)
    else
      var r := AlternativeAt(s, pats[1..], i);
      if r.Some? then Some(r.value + 1) else None
  }

  /**
   * The alternation picks the first alternative, in pattern order, that
   * matches, and finds nothing exactly when none of them matches.
   */
  lemma {:induction false} AlternativeAtSpec(s: string, pats: seq<string>, i: nat)
    ensures var r := AlternativeAt(s, pats, i);
      && (r.Some? ==> MatchAt(s, pats[r.value], i))
      && (r.Some? ==> forall j :: 0 <= j < r.value ==> !MatchAt(s, pats[j], i))
      && (r.None? <==> forall k :: 0 <= k < |pats| ==> !MatchAt(s, pats[k], i))
  {
    if pats != [] && !MatchAt(s, pats[0], i) {
      AlternativeAtSpec(s, pats[1..], i);
      var r := AlternativeAt(s, pats[1..], i);
      if r.None? {
        forall k | 1 <= k < |pats|
          ensures !MatchAt(s, pats[k], i)
        {
          assert pats[k] == pats[1..][k - 1];
        }
      } else {
        forall j | 1 <= j < r.value + 1
          ensures !MatchAt(s, pats[j], i)
        {
          assert pats[j] == pats[1..][j - 1];
        }
      }
    }
  }

  predicate NonEmptyPatterns(pats: seq<string>) {
    forall k :: 0 <= k < |pats| ==> |pats[k]| > 0
  }

  function ReplaceAnyFrom(s: string, pats: seq<string>, rep: string, i: nat): string
    requires NonEmptyPatterns(pats) && i <= |s|
    decreases |s| - i
  {
    if i == |s| then []
    else
      var r := AlternativeAt(s, pats, i);
      if r.Some? then rep + ReplaceAnyFrom(s, pats, rep, i + |pats[r.value]|)
      else [s[i]] + ReplaceAnyFrom(s, pats, rep, i + 1)
  }

  function ReplaceAny(s: string, pats: seq<string>, rep: string): string
    requires NonEmptyPatterns(pats)
  {
    ReplaceAnyFrom(s, pats, rep, 0)
  }

  /** Some alternative matches at a position at or after `i`. */
  predicate OccursFrom(s: string, pats: seq<string>, i: nat) {
    exists k :: i <= k < |s| && AlternativeAt(s, pats, k).Some?
  }

  /** Every alternative is shorter than the replacement. */
  predicate Lengthening(pats: seq<string>, rep: string) {
    forall k :: 0 <= k < |pats| ==> 0 < |pats[k]| < |rep|
  }

  lemma OccursFromStep(s: string, pats: seq<string>, i: nat)
    requires i < |s|
    ensures OccursFrom(s, pats, i) <==> AlternativeAt(s, pats, i).Some? || OccursFrom(s, pats, i + 1)
  {
    if OccursFrom(s, pats, i) && AlternativeAt(s, pats, i).None? {
      var k :| i <= k < |s| && AlternativeAt(s, pats, k).Some?;
      assert i + 1 <= k;
    }
    if OccursFrom(s, pats, i + 1) {
      var k :| i + 1 <= k < |s| && AlternativeAt(s, pats, k).Some?;
      assert i <= k;
    }
  }

  /** What a step of the scan produces at a match. */
  lemma ReplaceAnyFromAtMatch(s: string, pats: seq<string>, rep: string, i: nat, m: nat)
    requires NonEmptyPatterns(pats) && i < |s| && AlternativeAt(s, pats, i) == Some(m)
    ensures i + |pats[m]| <= |s|
    ensures ReplaceAnyFrom(s, pats, rep, i) == rep + ReplaceAnyFrom(s, pats, rep, i + |pats[m]|)
  {
  }

  /** What a step of the scan produces where nothing matches. */
  lemma ReplaceAnyFromAtOther(s: string, pats: seq<string>, rep: string, i: nat)
    requires NonEmptyPatterns(pats) && i < |s| && AlternativeAt(s, pats, i).None?
    ensures ReplaceAnyFrom(s, pats, rep, i) == [s[i]] + ReplaceAnyFrom(s, pats, rep, i + 1)
  {
  }

  /** The length of a step at a match, kept apart from the contents so that length proofs stay small. */
  lemma ReplaceAnyFromLengthAtMatch(s: string, pats: seq<string>, rep: string, i: nat, m: nat)
    requires NonEmptyPatterns(pats) && i < |s| && AlternativeAt(s, pats, i) == Some(m)
    ensures i + |pats[m]| <= |s|
    ensures |ReplaceAnyFrom(s, pats, rep, i)| == |rep| + |ReplaceAnyFrom(s, pats, rep, i + |pats[m]|)|
  {
    ReplaceAnyFromAtMatch(s, pats, rep, i, m);
  }

  lemma ReplaceAnyFromLengthAtOther(s: string, pats: seq<string>, rep: string, i: nat)
    requires NonEmptyPatterns(pats) && i < |s| && AlternativeAt(s, pats, i).None?
    ensures |ReplaceAnyFrom(s, pats, rep, i)| == 1 + |ReplaceAnyFrom(s, pats, rep, i + 1)|
  {
    ReplaceAnyFromAtOther(s, pats, rep, i);
  }

  /** Where nothing matches, the rest of the text comes back unchanged. */
  lemma {:induction false} ReplaceAnyFromUnchanged(s: string, pats: seq<string>, rep: string, i: nat)
    requires NonEmptyPatterns(pats) && i <= |s| && !OccursFrom(s, pats, i)
    ensures ReplaceAnyFrom(s, pats, rep, i) == s[i..]
    decreases |s| - i
  {
    if i < |s| {
      OccursFromStep(s, pats, i);
      ReplaceAnyFromAtOther(s, pats, rep, i);
      ReplaceAnyFromUnchanged(s, pats, rep, i + 1);
      assert s[i..] == [s[i]] + s[i + 1..];
    }
  }

  /**
   * One step of the scan with a lengthening replacement: it moves from `i`
   * to `j`, and the output grows by at least the input it consumed, by
   * more when it replaced a match.
   */
  lemma ReplaceAnyFromStep(s: string, pats: seq<string>, rep: string, i: nat) returns (j: nat)
    requires Lengthening(pats, rep) && i < |s|
    ensures i < j <= |s|
    ensures |ReplaceAnyFrom(s, pats, rep, i)| >= |ReplaceAnyFrom(s, pats, rep, j)| + (j - i)
    ensures AlternativeAt(s, pats, i).Some? ==>
      |ReplaceAnyFrom(s, pats, rep, i)| > |ReplaceAnyFrom(s, pats, rep, j)| + (j - i)
    ensures AlternativeAt(s, pats, i).None? ==> j == i + 1
  {
    var r := AlternativeAt(s, pats, i);
    if r.Some? {
      ReplaceAnyFromLengthAtMatch(s, pats, rep, i, r.value);
      j := i + |pats[r.value]|;
    } else {
      ReplaceAnyFromLengthAtOther(s, pats, rep, i);
      j := i + 1;
    }
  }

  /** With a replacement longer than every alternative, the text never gets shorter. */
  lemma {:induction false} ReplaceAnyFromNotShorter(s: string, pats: seq<string>, rep: string, i: nat)
    requires Lengthening(pats, rep) && i <= |s|
    ensures |ReplaceAnyFrom(s, pats, rep, i)| >= |s| - i
    decreases |s| - i
  {
    if i < |s| {
      var j := ReplaceAnyFromStep(s, pats, rep, i);
      ReplaceAnyFromNotShorter(s, pats, rep, j);
    }
  }

  /** ... and each match makes it strictly longer. */
  lemma {:induction false} ReplaceAnyFromLonger(s: string, pats: seq<string>, rep: string, i: nat)
    requires Lengthening(pats, rep) && i <= |s| && OccursFrom(s, pats, i)
    ensures |ReplaceAnyFrom(s, pats, rep, i)| > |s| - i
    decreases |s| - i
  {
    OccursFromStep(s, pats, i);
    var j := ReplaceAnyFromStep(s, pats, rep, i);
    if AlternativeAt(s, pats, i).Some? {
      ReplaceAnyFromNotShorter(s, pats, rep, j);
    } else {
      ReplaceAnyFromLonger(s, pats, rep, j);
    }
  }

  /**
   * With a replacement longer than every alternative, the text is unchanged
   * exactly when nothing matches, and strictly longer otherwise.
   */
  lemma ReplaceAnyFromGrows(s: string, pats: seq<string>, rep: string, i: nat)
    requires Lengthening(pats, rep) && i <= |s|
    ensures |ReplaceAnyFrom(s, pats, rep, i)| >= |s| - i
    ensures !OccursFrom(s, pats, i) ==> ReplaceAnyFrom(s, pats, rep, i) == s[i..]
    ensures OccursFrom(s, pats, i) ==> |ReplaceAnyFrom(s, pats, rep, i)| > |s| - i
  {
    ReplaceAnyFromNotShorter(s, pats, rep, i);
    if OccursFrom(s, pats, i) {
      ReplaceAnyFromLonger(s, pats, rep, i);
    } else {
      ReplaceAnyFromUnchanged(s, pats, rep, i);
    }
  }

  lemma MatchAtChar(s: string, p: string, i: nat, j: nat)
    requires MatchAt(s, p, i) && j < |p|
    ensures Lower(s[i + j]) == Lower(p[j])
  {
    assert LowerStr(s[i..i + |p|])[j] == LowerStr(p)[j];
  }

  /** When something matches, every character of the replacement appears in the result. */
  lemma {:induction false} ReplaceAnyFromShows(s: string, pats: seq<string>, rep: string, i: nat, c: char)
    requires NonEmptyPatterns(pats) && i <= |s| && OccursFrom(s, pats, i) && c in rep
    ensures c in ReplaceAnyFrom(s, pats, rep, i)
    decreases |s| - i
  {
    OccursFromStep(s, pats, i);
    var r := AlternativeAt(s, pats, i);
    if r.Some? {
      ReplaceAnyFromAtMatch(s, pats, rep, i, r.value);
    } else {
      ReplaceAnyFromAtOther(s, pats, rep, i);
      ReplaceAnyFromShows(s, pats, rep, i + 1, c);
    }
  }
}
