/**
 * `text.split(/\b/)`: the pieces between the word boundaries of a string.
 * `Runs` is the intended reading (maximal runs of word and of non-word
 * characters); `SplitScan` follows the ECMAScript split algorithm for a
 * zero-width separator; `SplitIsRuns` proves that the two agree.
 */
module WordSplit {
  import opened Text

  function Concat(ts: seq<string>): string {
    if ts == [] then [] else ts[0] + Concat(ts[1..])
  }

  /** A non-empty run of one character class. */
  predicate IsRun(t: string) {
    |t| > 0 && (AllWordChars(t) || NoWordChars(t))
  }

  /** Length of the maximal prefix of `s` in the class of `s[0]`. */
  function RunLength(s: string): (n: nat)
    requires |s| > 0
    ensures 1 <= n <= |s|
    ensures forall i :: 0 <= i < n ==> IsWordChar(s[i]) == IsWordChar(s[0])
    ensures n < |s| ==> IsWordChar(s[n]) != IsWordChar(s[0])
  {
    if |s| == 1 || IsWordChar(s[1]) != IsWordChar(s[0]) then 1
    else 1 + RunLength(s[1..])
  }

  /** The maximal runs of `s`, left to right. */
  function Runs(s: string): seq<string>
    decreases |s|
  {
    if s == [] then []
    else
      var n := RunLength(s);
      [s[..n]] + Runs(s[n..])
  }

  predicate StartsWithWordChar(t: string) {
    t != [] && IsWordChar(t[0])
  }

  /** The runs put back together give the text. */
  lemma {:induction false} RunsCover(s: string)
    ensures Concat(Runs(s)) == s
    decreases |s|
  {
    if s != [] {
      var n := RunLength(s);
      var ts := Runs(s);
      RunsCover(s[n..]);
      assert ts[1..] == Runs(s[n..]);
      assert s == s[..n] + s[n..];
    }
  }

  /**
   * Every run is non-empty and of one class, neighbouring runs are of
   * different classes, and the first run starts the text.
   */
  lemma {:induction false} RunsAlternate(s: string)
    ensures forall k :: 0 <= k < |Runs(s)| ==> IsRun(Runs(s)[k])
    ensures forall k :: 0 < k < |Runs(s)| ==>
      StartsWithWordChar(Runs(s)[k - 1]) != StartsWithWordChar(Runs(s)[k])
    ensures s != [] ==> Runs(s) != [] && Runs(s)[0] == s[..RunLength(s)]
    decreases |s|
  {
    if s != [] {
      var n := RunLength(s);
      var ts := Runs(s);
      var rest := Runs(s[n..]);
      RunsAlternate(s[n..]);
      assert ts == [s[..n]] + rest;
      assert IsRun(s[..n]) by {
        if IsWordChar(s[0]) {
          assert AllWordChars(s[..n]);
        } else {
          assert NoWordChars(s[..n]);
        }
      }
      forall k | 0 <= k < |ts|
        ensures IsRun(ts[k])
      {
        if k > 0 { assert ts[k] == rest[k - 1]; }
      }
      forall k | 0 < k < |ts|
        ensures StartsWithWordChar(ts[k - 1]) != StartsWithWordChar(ts[k])
      {
        if k == 1 {
          assert ts[1] == rest[0] && rest[0][0] == s[n];
        } else {
          assert ts[k - 1] == rest[k - 2] && ts[k] == rest[k - 1];
        }
      }
    }
  }

  /**
   * The ECMAScript split loop for the separator `/\b/`: the piece under
   * construction starts at `p`, the separator is tried at `q`; an empty
   * match at `q == p` is skipped, and the end of the string is never tried.
   */
  function SplitScan(s: string, p: nat, q: nat): seq<string>
    requires p <= q <= |s|
    decreases |s| - q, q - p
  {
    if q == |s| then [s[p..]]
    else if q > p && BoundaryAt(s, q) then [s[p..q]] + SplitScan(s, q, q)
    else SplitScan(s, p, q + 1)
  }

  /** `s.split(/\b/)`; the empty string gives one empty piece. */
  function SplitAtWordBoundaries(s: string): seq<string> {
    if s == [] then [""] else Runs(s)
  }

  /** From anywhere inside the first run at `p`, the scan closes that run. */
  lemma {:induction false} ScanClosesRun(s: string, p: nat, q: nat)
    requires p < |s| && p < q <= p + RunLength(s[p..])
    ensures var n := RunLength(s[p..]);
      SplitScan(s, p, q)
      == [s[p..p + n]] + (if p + n < |s| then SplitScan(s, p + n, p + n) else [])
    decreases |s| - q
  {
    var n := RunLength(s[p..]);
    if q == |s| {
      assert s[p..p + n] == s[p..];
    } else if q < p + n {
      assert IsWordChar(s[q - 1]) == IsWordChar(s[p..][q - 1 - p]);
      assert IsWordChar(s[q]) == IsWordChar(s[p..][q - p]);
      assert !BoundaryAt(s, q);
      ScanClosesRun(s, p, q + 1);
    } else {
      assert IsWordChar(s[q - 1]) == IsWordChar(s[p..][n - 1]);
      assert IsWordChar(s[q]) == IsWordChar(s[p..][n]);
      assert BoundaryAt(s, q);
    }
  }

  /** The scan from `p` emits the first run of `s[p..]` and goes on from its end. */
  lemma ScanFirstRun(s: string, p: nat)
    requires p < |s|
    ensures var n := RunLength(s[p..]);
      SplitScan(s, p, p) == [s[p..p + n]] + (if p + n < |s| then SplitScan(s, p + n, p + n) else [])
  {
    assert SplitScan(s, p, p) == SplitScan(s, p, p + 1);
    ScanClosesRun(s, p, p + 1);
  }

  /** The runs of `s[p..]`: its first run, then the runs after it. */
  lemma RunsFrom(s: string, p: nat)
    requires p < |s|
    ensures var n := RunLength(s[p..]);
      Runs(s[p..]) == [s[p..p + n]] + (if p + n < |s| then Runs(s[p + n..]) else [])
  {
    var n := RunLength(s[p..]);
    assert s[p..][..n] == s[p..p + n];
    assert s[p..][n..] == s[p + n..];
  }

  /** The split algorithm from position `p` yields the maximal runs of `s[p..]`. */
  lemma {:induction false} ScanIsRuns(s: string, p: nat)
    requires p < |s|
    ensures SplitScan(s, p, p) == Runs(s[p..])
    decreases |s| - p
  {
    var n := RunLength(s[p..]);
    ScanFirstRun(s, p);
    RunsFrom(s, p);
    if p + n < |s| {
      ScanIsRuns(s, p + n);
    }
  }

  /** `split(/\b/)` on a non-empty string is exactly its maximal runs. */
  lemma SplitIsRuns(s: string)
    ensures SplitAtWordBoundaries(s) == (if s == [] then [""] else SplitScan(s, 0, 0))
  {
    if s != [] {
      ScanIsRuns(s, 0);
      assert s[0..] == s;
    }
  }

  /** Where the `k`-th run of `s` starts. */
  function Offset(ts: seq<string>, k: nat): nat
    requires k <= |ts|
  {
    |Concat(ts[..k])|
  }

  lemma {:induction false} ConcatAppend(a: seq<string>, b: seq<string>)
    ensures Concat(a + b) == Concat(a) + Concat(b)
  {
    if a != [] {
      assert (a + b)[1..] == a[1..] + b;
      ConcatAppend(a[1..], b);
    } else {
      assert a + b == b;
    }
  }

  /** A whole-word match in a suffix is one in the text, when the suffix starts at a boundary. */
  lemma ShiftWholeWord(s: string, n: nat, t: string, o: nat, p: nat)
    requires 0 < n <= |s| && |t| > 0 && p == n + o
    requires WholeWordAt(s[n..], t, o)
    requires o > 0 || !IsWordChar(s[n - 1])
    ensures WholeWordAt(s, t, p)
  {
    var rest := s[n..];
    var e := o + |t|;
    assert s[n + o..n + e] == rest[o..e];
    if o > 0 {
      assert s[n + o - 1] == rest[o - 1];
    }
    if o < |rest| {
      assert s[n + o] == rest[o];
    }
    assert s[n + e - 1] == rest[e - 1];
    if e < |rest| {
      assert s[n + e] == rest[e];
    }
  }

  /** Runs after the first start after position 0. */
  lemma OffsetPositive(ts: seq<string>, j: nat)
    requires 0 < j <= |ts| && |ts[0]| > 0
    ensures Offset(ts, j) > 0
  {
    assert ts[..j] == [ts[0]] + ts[1..j];
    ConcatAppend([ts[0]], ts[1..j]);
  }

  /** The `k`-th run of `s` is the `k - 1`-th run after the first, shifted by its length. */
  lemma RunsTail(s: string, k: nat)
    requires s != [] && 0 < k < |Runs(s)|
    ensures var n := RunLength(s);
      Runs(s)[k] == Runs(s[n..])[k - 1] && Offset(Runs(s), k) == n + Offset(Runs(s[n..]), k - 1)
  {
    var ts := Runs(s);
    var n := RunLength(s);
    var rs := Runs(s[n..]);
    assert ts == [s[..n]] + rs;
    assert ts[..k] == [s[..n]] + rs[..k - 1];
    ConcatAppend([s[..n]], rs[..k - 1]);
    assert Concat([s[..n]]) == s[..n];
  }

  /** The first run, when it is a word, is a whole-word match at position 0. */
  lemma FirstRunWholeWord(s: string)
    requires s != [] && AllWordChars(Runs(s)[0])
    ensures WholeWordAt(s, Runs(s)[0], Offset(Runs(s), 0))
  {
    var ts := Runs(s);
    RunsAlternate(s);
    assert Concat(ts[..0]) == [];
    assert s[0..|ts[0]|] == ts[0];
  }

  lemma RunNonEmpty(s: string, k: nat)
    requires k < |Runs(s)|
    ensures |Runs(s)[k]| > 0
  {
    RunsAlternate(s);
  }

  /** A word run that starts the rest after the first run follows a non-word character. */
  lemma BeforeWordRun(s: string, k: nat)
    requires s != [] && 0 < k < |Runs(s)| && AllWordChars(Runs(s)[k])
    requires var rest := s[RunLength(s)..];
      k - 1 < |Runs(rest)| && Offset(Runs(rest), k - 1) == 0
    ensures !IsWordChar(s[RunLength(s) - 1])
  {
    var n := RunLength(s);
    var rest := s[n..];
    RunsAlternate(rest);
    if k > 1 {
      OffsetPositive(Runs(rest), k - 1);
    } else {
      RunsTail(s, k);
      assert Runs(s)[k][0] == rest[0] == s[n];
      assert IsWordChar(s[n - 1]) == IsWordChar(s[0]);
    }
  }

  /** A whole-word match of the `k - 1`-th run after the first is one of the `k`-th run of `s`. */
  lemma WholeWordStep(s: string, k: nat)
    requires s != [] && 0 < k < |Runs(s)| && AllWordChars(Runs(s)[k])
    requires var rest := s[RunLength(s)..];
      k - 1 < |Runs(rest)| && WholeWordAt(rest, Runs(rest)[k - 1], Offset(Runs(rest), k - 1))
    ensures WholeWordAt(s, Runs(s)[k], Offset(Runs(s), k))
  {
    var n := RunLength(s);
    var rest := s[n..];
    RunsTail(s, k);
    var o := Offset(Runs(rest), k - 1);
    RunNonEmpty(rest, k - 1);
    if o == 0 {
      BeforeWordRun(s, k);
    }
    ShiftWholeWord(s, n, Runs(rest)[k - 1], o, Offset(Runs(s), k));
  }

  /**
   * A run of word characters is bounded by `\b` on both sides where it
   * stands in the text: searching the text for it with `\b…\b` finds it.
   */
  lemma {:induction false} WordRunIsWholeWord(s: string, k: nat)
    requires k < |Runs(s)| && AllWordChars(Runs(s)[k])
    ensures WholeWordAt(s, Runs(s)[k], Offset(Runs(s), k))
    decreases |s|
  {
    if k == 0 {
      FirstRunWholeWord(s);
    } else {
      var n := RunLength(s);
      RunsTail(s, k);
      WordRunIsWholeWord(s[n..], k - 1);
      WholeWordStep(s, k);
    }
  }

  /** A whole word found inside a run of `split(/\b/)` is that entire run. */
  lemma WholeWordInRun(t: string, w: string, i: int)
    requires IsRun(t) && |w| > 0 && AllWordChars(w) && WholeWordAt(t, w, i)
    ensures i == 0 && t == t[i..i + |w|] && EqualsIgnoreCase(t, w)
  {
    assert LowerStr(t[i..i + |w|])[0] == LowerStr(w)[0];
    assert IsWordChar(t[i]);
    assert AllWordChars(t);
    assert i == 0;
    assert i + |w| == |t|;
    assert t[i..i + |w|] == t;
  }
}
