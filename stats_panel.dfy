/**
 * The running statistics of the `StatsPanel` component: every result the
 * detector hands over bumps two counters, tallies its annotations into a
 * fixed table of four categories, appends a point to a history that keeps
 * its last ten entries, and, when it has annotations, overwrites the
 * average confidence with the mean of this pass.
 */
module StatsPanel {
  import opened Wrappers
  import opened BiasDetection

  datatype Category = Category(name: string, value: nat)

  /** One point of the history chart: a time label and the number of annotations of that pass. */
  datatype DataPoint = DataPoint(time: string, count: nat)

  datatype StatsData = StatsData(
    totalAnalyzed: nat,
    totalBiasesDetected: nat,
    byCategory: seq<Category>,
    history: seq<DataPoint>,
    avgConfidence: real)

  const CategoryNames: seq<string> := ["Gender", "Race", "Political", "Other"]

  /** `.slice(-10)`: the history keeps this many points. */
  const HistoryLimit: nat := 10

  function Names(cats: seq<Category>): seq<string> {
    seq(|cats|, i requires 0 <= i < |cats| => cats[i].name)
  }

  function Zeroed(names: seq<string>): (cats: seq<Category>)
    ensures Names(cats) == names
    ensures forall i :: 0 <= i < |cats| ==> cats[i].value == 0
  {
    seq(|names|, i requires 0 <= i < |names| => Category(names[i], 0))
  }

  /** The state the panel starts from. */
  function InitialStats(): StatsData {
    StatsData(0, 0, Zeroed(CategoryNames), [], 0.0)
  }

  // ---------------------------------------------------------------------
  // The category table

  /** `byCategory.find(c => c.name === kind)`, as an index. */
  function CategoryIndex(cats: seq<Category>, kind: string): (r: Option<nat>)
    ensures r.Some? ==> r.value < |cats| && cats[r.value].name == kind
    ensures r.Some? ==> forall j :: 0 <= j < r.value ==> cats[j].name != kind
    ensures r.None? <==> forall j :: 0 <= j < |cats| ==> cats[j].name != kind
  {
    if cats == [] then None
    else if cats[0].name == kind then Some(0)
    else
      match CategoryIndex(cats[1..], kind)
      case Some(j) => Some(j + 1)
      case None => None
  }

  /** One `category.value += 1`, or nothing when no category has that name. */
  function Bump(cats: seq<Category>, kind: string): (r: seq<Category>)
    ensures |r| == |cats|
  {
    match CategoryIndex(cats, kind)
    case Some(i) => cats[i := cats[i].(value := cats[i].value + 1)]
    case None => cats
  }

  /** The category table after the `forEach` over the annotations. */
  function Tally(cats: seq<Category>, bws: seq<BiasWord>): (r: seq<Category>)
    ensures |r| == |cats|
    decreases |bws|
  {
    if bws == [] then cats
    else Bump(Tally(cats, bws[..|bws| - 1]), bws[|bws| - 1].kind)
  }

  /** How many annotations have the given type. */
  function Count(bws: seq<BiasWord>, kind: string): nat
    decreases |bws|
  {
    if bws == [] then 0
    else Count(bws[..|bws| - 1], kind) + (if bws[|bws| - 1].kind == kind then 1 else 0)
  }

  function SumValues(cats: seq<Category>): nat
    decreases |cats|
  {
    if cats == [] then 0 else SumValues(cats[..|cats| - 1]) + cats[|cats| - 1].value
  }

  /** The tally keeps the names and their order. */
  lemma {:induction false} TallyKeepsNames(cats: seq<Category>, bws: seq<BiasWord>)
    ensures Names(Tally(cats, bws)) == Names(cats)
    decreases |bws|
  {
    if bws != [] {
      TallyKeepsNames(cats, bws[..|bws| - 1]);
    }
  }

  /**
   * A category whose name no other category has ends up with its old value
   * plus the number of annotations of that type.
   */
  lemma {:induction false} TallyCounts(cats: seq<Category>, bws: seq<BiasWord>, i: nat)
    requires i < |cats| && forall j :: 0 <= j < |cats| && j != i ==> cats[j].name != cats[i].name
    ensures |Tally(cats, bws)| == |cats|
    ensures Tally(cats, bws)[i].value == cats[i].value + Count(bws, cats[i].name)
    decreases |bws|
  {
    TallyKeepsNames(cats, bws);
    assert |Names(Tally(cats, bws))| == |cats|;
    if bws != [] {
      var init := bws[..|bws| - 1];
      var prev := Tally(cats, init);
      TallyCounts(cats, init, i);
      TallyKeepsNames(cats, init);
      forall j | 0 <= j < |prev|
        ensures prev[j].name == cats[j].name
      {
        assert Names(prev)[j] == Names(cats)[j];
      }
    }
  }

  lemma {:induction false} SumValuesUpdate(cats: seq<Category>, i: nat, c: Category)
    requires i < |cats|
    ensures SumValues(cats[i := c]) + cats[i].value == SumValues(cats) + c.value
    decreases |cats|
  {
    var n := |cats| - 1;
    if i < n {
      SumValuesUpdate(cats[..n], i, c);
      assert cats[i := c][..n] == cats[..n][i := c];
    } else {
      assert cats[i := c][..n] == cats[..n];
    }
  }

  /** One bump adds one to the table's total exactly when some category has that name. */
  lemma BumpSum(cats: seq<Category>, kind: string)
    ensures SumValues(Bump(cats, kind)) == SumValues(cats) + (if kind in Names(cats) then 1 else 0)
  {
    var r := CategoryIndex(cats, kind);
    if r.Some? {
      var i := r.value;
      assert Names(cats)[i] == kind;
      SumValuesUpdate(cats, i, cats[i].(value := cats[i].value + 1));
    }
  }

  /** Each annotation adds one to the table's total when its type is a category name, and nothing otherwise. */
  lemma {:induction false} TallySum(cats: seq<Category>, bws: seq<BiasWord>)
    ensures SumValues(Tally(cats, bws)) <= SumValues(cats) + |bws|
    ensures (forall i :: 0 <= i < |bws| ==> bws[i].kind in Names(cats)) ==>
      SumValues(Tally(cats, bws)) == SumValues(cats) + |bws|
    decreases |bws|
  {
    if bws != [] {
      var init := bws[..|bws| - 1];
      var prev := Tally(cats, init);
      var kind := bws[|bws| - 1].kind;
      TallySum(cats, init);
      TallyKeepsNames(cats, init);
      BumpSum(prev, kind);
    }
  }

  // ---------------------------------------------------------------------
  // History and average

  /** `xs.slice(-n)`: the last `n` elements, or all of them when there are fewer. */
  function LastN<T>(xs: seq<T>, n: nat): (r: seq<T>)
    ensures |r| == if |xs| < n then |xs| else n
    ensures r == xs[|xs| - |r|..]
  {
    if |xs| <= n then xs else xs[|xs| - n..]
  }

  /** Trimming before appending loses nothing that trimming after would keep. */
  lemma LastNAppend<T>(xs: seq<T>, p: T, n: nat)
    ensures LastN(LastN(xs, n) + [p], n) == LastN(xs + [p], n)
  {
    var ys := LastN(xs, n);
    var a := LastN(ys + [p], n);
    var b := LastN(xs + [p], n);
    assert |a| == |b|;
    forall k | 0 <= k < |a|
      ensures a[k] == b[k]
    {
      if k == |a| - 1 {
        assert a[k] == p && b[k] == p;
      } else {
        assert a[k] == ys[|ys| + 1 - |a| + k];
        assert b[k] == xs[|xs| + 1 - |b| + k];
      }
    }
  }

  /** `reduce((sum, b) => sum + b.confidence, 0)`. */
  function SumConfidence(bws: seq<BiasWord>): real
    decreases |bws|
  {
    if bws == [] then 0.0 else SumConfidence(bws[..|bws| - 1]) + bws[|bws| - 1].confidence
  }

  function MeanConfidence(bws: seq<BiasWord>): real
    requires |bws| > 0
  {
    SumConfidence(bws) / (|bws| as real)
  }

  /** Confidences in `[lo, hi)` add up to at least `n * lo` and less than `n * hi`. */
  lemma {:induction false} SumConfidenceBounds(bws: seq<BiasWord>, lo: real, hi: real)
    requires forall i :: 0 <= i < |bws| ==> lo <= bws[i].confidence < hi
    ensures (|bws| as real) * lo <= SumConfidence(bws)
    ensures |bws| > 0 ==> SumConfidence(bws) < (|bws| as real) * hi
    decreases |bws|
  {
    if bws != [] {
      var n := |bws| - 1;
      SumConfidenceBounds(bws[..n], lo, hi);
      assert (n as real + 1.0) * lo == (n as real) * lo + lo;
      assert (n as real + 1.0) * hi == (n as real) * hi + hi;
    }
  }

  /** The mean of confidences in `[lo, hi)` lies in `[lo, hi)`. */
  lemma MeanConfidenceBounds(bws: seq<BiasWord>, lo: real, hi: real)
    requires |bws| > 0 && forall i :: 0 <= i < |bws| ==> lo <= bws[i].confidence < hi
    ensures lo <= MeanConfidence(bws) < hi
  {
    SumConfidenceBounds(bws, lo, hi);
    var n := |bws| as real;
    var m := MeanConfidence(bws);
    assert m * n == SumConfidence(bws);
  }

  // ---------------------------------------------------------------------
  // The update

  /** The value the `setStats` updater returns for `latestResult` and the time label of this moment. */
  function Updated(s: StatsData, latestResult: Option<BiasResult>, time: string): StatsData {
    match latestResult
    case None => s
    case Some(r) =>
      var bws := r.biasedWords;
      StatsData(
        s.totalAnalyzed + 1,
        s.totalBiasesDetected + |bws|,
        Tally(s.byCategory, bws),
        LastN(s.history + [DataPoint(time, |bws|)], HistoryLimit),
        if |bws| > 0 then MeanConfidence(bws) else s.avgConfidence)
  }

  /** The panel's invariant: the four fixed categories, at most ten points, no more tallied than detected. */
  predicate ValidStats(s: StatsData) {
    && Names(s.byCategory) == CategoryNames
    && |s.history| <= HistoryLimit
    && SumValues(s.byCategory) <= s.totalBiasesDetected
  }

  lemma InitialStatsValid()
    ensures ValidStats(InitialStats())
    ensures InitialStats().totalAnalyzed == 0 && InitialStats().totalBiasesDetected == 0
    ensures InitialStats().history == [] && InitialStats().avgConfidence == 0.0
    ensures forall i :: 0 <= i < |InitialStats().byCategory| ==> InitialStats().byCategory[i].value == 0
  {
    SumValuesZero(InitialStats().byCategory);
  }

  lemma {:induction false} SumValuesZero(cats: seq<Category>)
    requires forall i :: 0 <= i < |cats| ==> cats[i].value == 0
    ensures SumValues(cats) == 0
    decreases |cats|
  {
    if cats != [] {
      SumValuesZero(cats[..|cats| - 1]);
    }
  }

  /** Without a result the stats stay as they are. */
  lemma UpdateWithoutResult(s: StatsData, time: string)
    ensures Updated(s, None, time) == s
  {
  }

  /**
   * One result: one more analysis, its annotations added to the detected
   * total, the categories keep their names, the history ends with this
   * pass's point after the last at most nine earlier points, and the average
   * is this pass's mean, or the old average on a pass without annotations.
   */
  lemma UpdateWithResult(s: StatsData, r: BiasResult, time: string)
    ensures var t := Updated(s, Some(r), time);
      && t.totalAnalyzed == s.totalAnalyzed + 1
      && t.totalBiasesDetected == s.totalBiasesDetected + |r.biasedWords|
      && Names(t.byCategory) == Names(s.byCategory)
      && |t.history| == (if |s.history| < HistoryLimit then |s.history| + 1 else HistoryLimit)
      && t.history[|t.history| - 1] == DataPoint(time, |r.biasedWords|)
      && t.history[..|t.history| - 1] == s.history[|s.history| + 1 - |t.history|..]
      && (|r.biasedWords| == 0 ==> t.avgConfidence == s.avgConfidence)
      && (|r.biasedWords| > 0 ==> t.avgConfidence == SumConfidence(r.biasedWords) / (|r.biasedWords| as real))
  {
    TallyKeepsNames(s.byCategory, r.biasedWords);
    var t := Updated(s, Some(r), time);
    var xs := s.history + [DataPoint(time, |r.biasedWords|)];
    assert t.history == xs[|xs| - |t.history|..];
    assert t.history[..|t.history| - 1] == s.history[|s.history| + 1 - |t.history|..];
  }

  /** Each update keeps the panel's invariant. */
  lemma UpdateKeepsValid(s: StatsData, latestResult: Option<BiasResult>, time: string)
    requires ValidStats(s)
    ensures ValidStats(Updated(s, latestResult, time))
  {
    if latestResult.Some? {
      var bws := latestResult.value.biasedWords;
      TallyKeepsNames(s.byCategory, bws);
      TallySum(s.byCategory, bws);
    }
  }

  /**
   * On the category table of a valid state, each category gains exactly
   * the number of annotations of its type.
   */
  lemma UpdateTalliesCategories(s: StatsData, r: BiasResult, time: string, i: nat)
    requires ValidStats(s) && i < |CategoryNames|
    ensures Updated(s, Some(r), time).byCategory[i].value
      == s.byCategory[i].value + Count(r.biasedWords, CategoryNames[i])
  {
    var cats := s.byCategory;
    assert |Names(cats)| == 4;
    forall j | 0 <= j < |cats| && j != i
      ensures cats[j].name != cats[i].name
    {
      assert Names(cats)[j] == CategoryNames[j] && Names(cats)[i] == CategoryNames[i];
    }
    assert Names(cats)[i] == CategoryNames[i];
    TallyCounts(cats, r.biasedWords, i);
  }

  // ---------------------------------------------------------------------
  // Several results

  /** The stats after each result in turn, the `k`-th stamped with `times[k]`. */
  function UpdatedAll(s: StatsData, results: seq<BiasResult>, times: seq<string>): StatsData
    requires |results| == |times|
    decreases |results|
  {
    if results == [] then s
    else
      var n := |results| - 1;
      Updated(UpdatedAll(s, results[..n], times[..n]), Some(results[n]), times[n])
  }

  function Points(results: seq<BiasResult>, times: seq<string>): (ps: seq<DataPoint>)
    requires |results| == |times|
    ensures |ps| == |results|
  {
    seq(|results|, k requires 0 <= k < |results| => DataPoint(times[k], |results[k].biasedWords|))
  }

  /** The points of a run are those of all but its last result, then the last one's. */
  lemma PointsSnoc(results: seq<BiasResult>, times: seq<string>)
    requires |results| == |times| && results != []
    ensures Points(results, times)
      == Points(results[..|results| - 1], times[..|results| - 1])
         + [DataPoint(times[|results| - 1], |results[|results| - 1].biasedWords|)]
  {
  }

  /** One more result appends its point to the history and keeps its last ten. */
  lemma HistoryStep(prev: StatsData, r: BiasResult, time: string)
    ensures Updated(prev, Some(r), time).history
      == LastN(prev.history + [DataPoint(time, |r.biasedWords|)], HistoryLimit)
  {
  }

  /** After any run of results the history is the last ten points of all of them, oldest first. */
  lemma {:induction false} HistoryIsLastPoints(s: StatsData, results: seq<BiasResult>, times: seq<string>)
    requires |results| == |times| && |s.history| <= HistoryLimit
    ensures UpdatedAll(s, results, times).history == LastN(s.history + Points(results, times), HistoryLimit)
    decreases |results|
  {
    if results == [] {
      assert s.history + Points(results, times) == s.history;
    } else {
      var n := |results| - 1;
      var prev := UpdatedAll(s, results[..n], times[..n]);
      var p := DataPoint(times[n], |results[n].biasedWords|);
      var before := s.history + Points(results[..n], times[..n]);
      HistoryIsLastPoints(s, results[..n], times[..n]);
      HistoryStep(prev, results[n], times[n]);
      LastNAppend(before, p, HistoryLimit);
      PointsSnoc(results, times);
      assert s.history + Points(results, times) == before + [p];
    }
  }

  /**
   * Results of the word-list detector only carry the types Gender and Race
   * (`BiasDetection.AnalysisKinds`), so the Political and Other categories
   * never move.
   */
  lemma DetectorLeavesOtherCategories(s: StatsData, r: BiasResult, time: string)
    requires ValidStats(s)
    requires forall i :: 0 <= i < |r.biasedWords| ==> IsGenderOrRace(r.biasedWords[i].kind)
    ensures Updated(s, Some(r), time).byCategory[2] == s.byCategory[2]
    ensures Updated(s, Some(r), time).byCategory[3] == s.byCategory[3]
  {
    var bws := r.biasedWords;
    CountAbsent(bws, "Political");
    CountAbsent(bws, "Other");
    UpdateTalliesCategories(s, r, time, 2);
    UpdateTalliesCategories(s, r, time, 3);
    TallyKeepsNames(s.byCategory, bws);
    var t := Updated(s, Some(r), time).byCategory;
    assert Names(t)[2] == Names(s.byCategory)[2] && Names(t)[3] == Names(s.byCategory)[3];
  }

  lemma {:induction false} CountAbsent(bws: seq<BiasWord>, kind: string)
    requires forall i :: 0 <= i < |bws| ==> bws[i].kind != kind
    ensures Count(bws, kind) == 0
    decreases |bws|
  {
    if bws != [] {
      CountAbsent(bws[..|bws| - 1], kind);
    }
  }

  // ---------------------------------------------------------------------
  // The panel's state, updated in place

  /**
   * The `stats` state. `byCategory` is one table of four entries whose
   * values the updater bumps in place (the `{...prev}` copy shares it);
   * the other fields are overwritten.
   */
  class Stats {
    var totalAnalyzed: nat
    var totalBiasesDetected: nat
    const byCategory: array<Category>
    var history: seq<DataPoint>
    var avgConfidence: real

    function Snapshot(): StatsData
      reads this, byCategory
    {
      StatsData(totalAnalyzed, totalBiasesDetected, byCategory[..], history, avgConfidence)
    }

    constructor()
      ensures Snapshot() == InitialStats() && ValidStats(Snapshot())
    {
      totalAnalyzed := 0;
      totalBiasesDetected := 0;
      byCategory := new Category[4] [
        Category("Gender", 0), Category("Race", 0), Category("Political", 0), Category("Other", 0)];
      history := [];
      avgConfidence := 0.0;
      new;
      InitialStatsValid();
    }

    /** `newStats.byCategory.find((c) => c.name === kind)`, as an index. */
    method FindCategory(kind: string) returns (r: Option<nat>)
      ensures r == CategoryIndex(byCategory[..], kind)
    {
      var i := 0;
      while i < byCategory.Length
        invariant 0 <= i <= byCategory.Length
        invariant forall j :: 0 <= j < i ==> byCategory[j].name != kind
      {
        if byCategory[i].name == kind {
          return Some(i);
        }
        i := i + 1;
      }
      return None;
    }

    /** The `forEach` over the annotations: `category.value += 1` on the first category of the type. */
    method TallyCategories(bws: seq<BiasWord>)
      modifies byCategory
      ensures byCategory[..] == Tally(old(byCategory[..]), bws)
    {
      for i := 0 to |bws|
        invariant byCategory[..] == Tally(old(byCategory[..]), bws[..i])
      {
        assert bws[..i + 1][..i] == bws[..i];
        var c := FindCategory(bws[i].kind);
        if c.Some? {
          byCategory[c.value] := byCategory[c.value].(value := byCategory[c.value].value + 1);
        }
      }
      assert bws[..|bws|] == bws;
    }

    /** The `setStats` updater run on `latestResult`, at the moment labelled `time`. */
    method Update(latestResult: Option<BiasResult>, time: string)
      requires ValidStats(Snapshot())
      modifies this, byCategory
      ensures Snapshot() == Updated(old(Snapshot()), latestResult, time)
      ensures ValidStats(Snapshot())
    {
      UpdateKeepsValid(Snapshot(), latestResult, time);
      if latestResult.None? {
        return;
      }
      var bws := latestResult.value.biasedWords;
      totalAnalyzed := totalAnalyzed + 1;
      totalBiasesDetected := totalBiasesDetected + |bws|;
      TallyCategories(bws);
      history := LastN(history + [DataPoint(time, |bws|)], HistoryLimit);
      if |bws| > 0 {
        avgConfidence := SumConfidence(bws) / (|bws| as real);
      }
    }
  }
}
