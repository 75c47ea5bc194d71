/** The split search of src/learn/dt.py: the information-gain search of
    _find_best_split and _find_best_feature, shared by both estimators, and
    the correlation ranking and median-split fallback of DecisionTree's
    'pearsonr' criterion. The numeric scores (entropy, information gain,
    Pearson correlation, median) are parameters: only how their results are
    used is modelled. */
module SplitSearch {
  import opened Common

  /** _information_gain([yLeft, yRight], entropy(y)) for the node's labels y. */
  type GainFn = (seq<real>, seq<real>) -> real
  /** pearsonr(column, y)[0]: the signed correlation coefficient. */
  type CorrelationFn = (seq<real>, seq<real>) -> real
  /** np.median(column) */
  type MedianFn = seq<real> -> real

  lemma RectangularHasColumn(X: Matrix, f: nat)
    requires Rectangular(X) && |X| > 0 && f < |X[0]|
    ensures HasColumn(X, f)
  {
  }

  /** The gain of splitting column f at threshold t. */
  function SplitGain(X: Matrix, y: seq<real>, f: nat, t: real, gain: GainFn): real
    requires |X| == |y| && HasColumn(X, f)
  {
    var p := Partition(X, y, f, t);
    gain(p.yLeft, p.yRight)
  }

  /** The info_gains list of _find_best_split: one gain per candidate threshold. */
  function ThresholdGains(X: Matrix, y: seq<real>, f: nat, vals: seq<real>, gain: GainFn): (gs: seq<real>)
    requires |X| == |y| && HasColumn(X, f)
    ensures |gs| == |vals|
  {
    seq(|vals|, i requires 0 <= i < |vals| => SplitGain(X, y, f, vals[i], gain))
  }

  lemma ThresholdGainsAt(X: Matrix, y: seq<real>, f: nat, vals: seq<real>, gain: GainFn)
    requires |X| == |y| && HasColumn(X, f)
    ensures forall i :: 0 <= i < |vals| ==> ThresholdGains(X, y, f, vals, gain)[i] == SplitGain(X, y, f, vals[i], gain)
  {
  }

  /** _find_best_split as a value (threshold, gain): the candidates are the
      distinct observed values of column f in ascending order, and the first
      one with the largest gain wins. */
  function BestSplit(X: Matrix, y: seq<real>, f: nat, gain: GainFn): (r: (real, real))
    requires |X| == |y| && |X| > 0 && HasColumn(X, f)
    ensures r.0 in Column(X, f)
    ensures r.1 == SplitGain(X, y, f, r.0, gain)
  {
    var col := Column(X, f);
    var vals := Unique(col);
    assert col[0] in vals;
    var gains := ThresholdGains(X, y, f, vals, gain);
    var k := ArgMax(gains);
    (vals[k], gains[k])
  }

  /** The gain of any candidate is at most that of the first maximum, and
      strictly less when the candidate comes before it. */
  lemma CandidateGain(X: Matrix, y: seq<real>, f: nat, gain: GainFn, vals: seq<real>, k: nat, v: real)
    requires |X| == |y| && HasColumn(X, f) && |vals| > 0 && StrictlyIncreasing(vals) && v in vals
    requires k == ArgMax(ThresholdGains(X, y, f, vals, gain))
    ensures SplitGain(X, y, f, v, gain) <= ThresholdGains(X, y, f, vals, gain)[k]
    ensures v < vals[k] ==> SplitGain(X, y, f, v, gain) < ThresholdGains(X, y, f, vals, gain)[k]
  {
    ThresholdGainsAt(X, y, f, vals, gain);
    var j :| 0 <= j < |vals| && vals[j] == v;
    if v < vals[k] {
      assert j < k;
    }
  }

  /** No observed value of column f gives a larger gain than the chosen
      threshold, and every smaller observed value gives a strictly smaller
      one (np.argmax keeps the first maximum). */
  lemma BestSplitIsBest(X: Matrix, y: seq<real>, f: nat, gain: GainFn)
    requires |X| == |y| && |X| > 0 && HasColumn(X, f)
    ensures forall i :: 0 <= i < |X| ==> SplitGain(X, y, f, X[i][f], gain) <= BestSplit(X, y, f, gain).1
    ensures forall i :: 0 <= i < |X| && X[i][f] < BestSplit(X, y, f, gain).0 ==>
              SplitGain(X, y, f, X[i][f], gain) < BestSplit(X, y, f, gain).1
  {
    var col := Column(X, f);
    var vals := Unique(col);
    assert col[0] in vals;
    UniqueIncreasing(col);
    var k := ArgMax(ThresholdGains(X, y, f, vals, gain));
    assert BestSplit(X, y, f, gain) == (vals[k], ThresholdGains(X, y, f, vals, gain)[k]);
    forall i | 0 <= i < |X|
      ensures SplitGain(X, y, f, X[i][f], gain) <= BestSplit(X, y, f, gain).1
      ensures X[i][f] < BestSplit(X, y, f, gain).0 ==> SplitGain(X, y, f, X[i][f], gain) < BestSplit(X, y, f, gain).1
    {
      assert col[i] in vals;
      CandidateGain(X, y, f, gain, vals, k, X[i][f]);
    }
  }

  /** The loop of _find_best_split: appends the gain of each distinct value,
      then takes np.argmax. */
  method FindBestSplit(X: Matrix, y: seq<real>, f: nat, gain: GainFn) returns (splitVal: real, infoGain: real)
    requires |X| == |y| && |X| > 0 && HasColumn(X, f)
    ensures (splitVal, infoGain) == BestSplit(X, y, f, gain)
  {
    var vals := Column(X, f);
    var uniqueVals := Unique(vals);
    assert vals[0] in uniqueVals;
    var infoGains: seq<real> := [];
    var i := 0;
    while i < |uniqueVals|
      invariant 0 <= i <= |uniqueVals|
      invariant |infoGains| == i
      invariant forall j :: 0 <= j < i ==> infoGains[j] == SplitGain(X, y, f, uniqueVals[j], gain)
    {
      var p := Partition(X, y, f, uniqueVals[i]);
      infoGains := infoGains + [gain(p.yLeft, p.yRight)];
      i := i + 1;
    }
    ThresholdGainsAt(X, y, f, uniqueVals, gain);
    assert infoGains == ThresholdGains(X, y, f, uniqueVals, gain);
    var maxIdx := ArgMax(infoGains);
    splitVal, infoGain := uniqueVals[maxIdx], infoGains[maxIdx];
  }

  /** np.all(X == X[0,:], axis=0)[f]: column f holds a single value. */
  predicate ConstantColumn(X: Matrix, f: nat)
    requires |X| > 0 && HasColumn(X, f)
  {
    forall i :: 0 <= i < |X| ==> X[i][f] == X[0][f]
  }

  /** np.all(X == X[0,:], axis=0) */
  function ColumnEquality(X: Matrix): (c: seq<bool>)
    requires |X| > 0 && Rectangular(X)
    ensures |c| == |X[0]|
    ensures forall f :: 0 <= f < |X[0]| ==> HasColumn(X, f) && c[f] == ConstantColumn(X, f)
  {
    seq(|X[0]|, f requires 0 <= f < |X[0]| => RectangularHasColumn(X, f); ConstantColumn(X, f))
  }

  /** What _find_best_feature appends for feature f, as (gain, threshold): a
      constant column scores 0.0 at its shared value, any other column gets
      its best split. */
  function FeatureScore(X: Matrix, y: seq<real>, f: nat, gain: GainFn): (real, real)
    requires |X| == |y| && |X| > 0 && HasColumn(X, f)
  {
    if ConstantColumn(X, f) then (0.0, X[0][f])
    else
      var s := BestSplit(X, y, f, gain);
      (s.1, s.0)
  }

  /** The info_gains list of _find_best_feature. */
  function FeatureGains(X: Matrix, y: seq<real>, gain: GainFn): (gs: seq<real>)
    requires |X| == |y| && |X| > 0 && Rectangular(X)
    ensures |gs| == |X[0]|
  {
    seq(|X[0]|, f requires 0 <= f < |X[0]| => RectangularHasColumn(X, f); FeatureScore(X, y, f, gain).0)
  }

  lemma FeatureGainsAt(X: Matrix, y: seq<real>, gain: GainFn)
    requires |X| == |y| && |X| > 0 && Rectangular(X)
    ensures forall f :: 0 <= f < |X[0]| ==>
              HasColumn(X, f) && FeatureGains(X, y, gain)[f] == FeatureScore(X, y, f, gain).0
  {
    forall f | 0 <= f < |X[0]|
      ensures HasColumn(X, f) && FeatureGains(X, y, gain)[f] == FeatureScore(X, y, f, gain).0
    {
      RectangularHasColumn(X, f);
    }
  }

  /** _find_best_feature as a value: the lowest-indexed feature of largest
      score, with that feature's threshold, which is always an observed value
      of the column. Without rows X[0] raises; without columns np.argmax
      raises. */
  function BestFeature(X: Matrix, y: seq<real>, gain: GainFn): (r: Result<(nat, real)>)
    requires |X| == |y| && Rectangular(X)
    ensures |X| == 0 ==> r == Err(EmptyData)
    ensures |X| > 0 && |X[0]| == 0 ==> r == Err(NoFeatures)
    ensures r.Ok? ==> |X| > 0 && r.value.0 < |X[0]| && HasColumn(X, r.value.0)
    ensures r.Ok? ==> r.value.1 == FeatureScore(X, y, r.value.0, gain).1 && r.value.1 in Column(X, r.value.0)
  {
    if |X| == 0 then Err(EmptyData)
    else if |X[0]| == 0 then Err(NoFeatures)
    else
      var gs := FeatureGains(X, y, gain);
      var k := ArgMax(gs);
      RectangularHasColumn(X, k);
      assert Column(X, k)[0] == X[0][k];
      Ok((k, FeatureScore(X, y, k, gain).1))
  }

  /** The chosen feature has the largest score, and every feature before it
      a strictly smaller one. */
  lemma BestFeatureIsBest(X: Matrix, y: seq<real>, gain: GainFn)
    requires |X| == |y| && Rectangular(X) && BestFeature(X, y, gain).Ok?
    ensures var b := BestFeature(X, y, gain).value.0;
            forall g :: 0 <= g < |X[0]| ==>
              HasColumn(X, g) && FeatureScore(X, y, g, gain).0 <= FeatureScore(X, y, b, gain).0
    ensures var b := BestFeature(X, y, gain).value.0;
            forall g :: 0 <= g < b ==>
              HasColumn(X, g) && FeatureScore(X, y, g, gain).0 < FeatureScore(X, y, b, gain).0
  {
    var gs := FeatureGains(X, y, gain);
    FeatureGainsAt(X, y, gain);
    var k := ArgMax(gs);
    assert BestFeature(X, y, gain).value.0 == k;
  }

  /** The loop of _find_best_feature: one (gain, threshold) per feature, the
      constant-column shortcut, then np.argmax. */
  method FindBestFeature(X: Matrix, y: seq<real>, gain: GainFn) returns (r: Result<(nat, real)>)
    requires |X| == |y| && Rectangular(X)
    ensures r == BestFeature(X, y, gain)
  {
    if |X| == 0 {
      return Err(EmptyData);
    }
    var n := |X[0]|;
    var columnEquality := ColumnEquality(X);
    var infoGains: seq<real> := [];
    var splitVals: seq<real> := [];
    var f := 0;
    while f < n
      invariant 0 <= f <= n
      invariant |infoGains| == f && |splitVals| == f
      invariant forall g :: 0 <= g < f ==> HasColumn(X, g) && (infoGains[g], splitVals[g]) == FeatureScore(X, y, g, gain)
    {
      RectangularHasColumn(X, f);
      if columnEquality[f] {
        infoGains := infoGains + [0.0];
        splitVals := splitVals + [X[0][f]];
      } else {
        var splitVal, infoGain := FindBestSplit(X, y, f, gain);
        infoGains := infoGains + [infoGain];
        splitVals := splitVals + [splitVal];
      }
      f := f + 1;
    }
    if |infoGains| == 0 {
      return Err(NoFeatures);
    }
    FeatureGainsAt(X, y, gain);
    assert infoGains == FeatureGains(X, y, gain);
    var maxIdx := ArgMax(infoGains);
    r := Ok((maxIdx, splitVals[maxIdx]));
  }

  /** get_pearsonr: the absolute value of the correlation. */
  function GetPearsonr(pearsonr: CorrelationFn, column: seq<real>, y: seq<real>): (r: real)
    ensures r >= 0.0
    ensures r == pearsonr(column, y) || r == -pearsonr(column, y)
  {
    if pearsonr(column, y) < 0.0 then -pearsonr(column, y) else pearsonr(column, y)
  }

  /** The list _get_criterion_score sorts: (score, index) per feature, with a
      constant column scoring 0 instead of its correlation. */
  function CriterionScores(X: Matrix, y: seq<real>, pearsonr: CorrelationFn): (s: seq<(real, nat)>)
    requires |X| > 0 && Rectangular(X)
    ensures |s| == |X[0]|
    ensures forall i :: 0 <= i < |s| ==> s[i].1 == i && s[i].0 >= 0.0
    ensures forall i :: 0 <= i < |s| ==>
              HasColumn(X, i) && (ConstantColumn(X, i) ==> s[i].0 == 0.0) &&
              (!ConstantColumn(X, i) ==> s[i].0 == GetPearsonr(pearsonr, Column(X, i), y))
  {
    assert forall i :: 0 <= i < |X[0]| ==> HasColumn(X, i) by {
      forall i | 0 <= i < |X[0]| ensures HasColumn(X, i) {
        RectangularHasColumn(X, i);
      }
    }
    seq(|X[0]|, i requires 0 <= i < |X[0]| =>
      RectangularHasColumn(X, i);
      (if ConstantColumn(X, i) then 0.0 else GetPearsonr(pearsonr, Column(X, i), y), i))
  }

  /** Python's ordering of (score, index) tuples. */
  predicate PairLe(a: (real, nat), b: (real, nat)) {
    a.0 < b.0 || (a.0 == b.0 && a.1 <= b.1)
  }

  ghost predicate SortedPairs(s: seq<(real, nat)>) {
    forall i, j :: 0 <= i < j < |s| ==> PairLe(s[i], s[j])
  }

  lemma ConsSorted(a: (real, nat), s: seq<(real, nat)>)
    requires SortedPairs(s)
    requires forall z :: z in s ==> PairLe(a, z)
    ensures SortedPairs([a] + s)
  {
    var r := [a] + s;
    forall i, j | 0 <= i < j < |r| ensures PairLe(r[i], r[j]) {
      assert r[j] == s[j - 1] && r[j] in s;
      if i > 0 { assert r[i] == s[i - 1]; }
    }
  }

  function InsertPair(x: (real, nat), s: seq<(real, nat)>): (r: seq<(real, nat)>)
    requires SortedPairs(s)
    ensures SortedPairs(r)
    ensures multiset(r) == multiset(s) + multiset{x}
  {
    if |s| == 0 then [x]
    else if PairLe(x, s[0]) then
      ConsSorted(x, s);
      [x] + s
    else
      var rest := InsertPair(x, s[1..]);
      assert s == [s[0]] + s[1..];
      assert forall z :: z in rest ==> PairLe(s[0], z) by {
        forall z | z in rest ensures PairLe(s[0], z) {
          assert z in multiset(rest);
          if z != x {
            assert z in multiset(s[1..]);
            var j :| 0 <= j < |s[1..]| && s[1..][j] == z;
            assert s[j + 1] == z;
          }
        }
      }
      ConsSorted(s[0], rest);
      [s[0]] + rest
  }

  /** Python's sorted() on the score tuples: ascending and a permutation. */
  function SortPairs(s: seq<(real, nat)>): (r: seq<(real, nat)>)
    ensures SortedPairs(r)
    ensures multiset(r) == multiset(s)
  {
    if |s| == 0 then []
    else
      assert s == s[..|s| - 1] + [s[|s| - 1]];
      InsertPair(s[|s| - 1], SortPairs(s[..|s| - 1]))
  }

  /** DecisionTree._get_criterion_score: every feature once, as (score,
      index), in ascending order. */
  function RankFeatures(X: Matrix, y: seq<real>, pearsonr: CorrelationFn): (r: seq<(real, nat)>)
    requires |X| > 0 && Rectangular(X)
    ensures |r| == |X[0]|
    ensures forall j :: 0 <= j < |r| ==> r[j].1 < |X[0]| && HasColumn(X, r[j].1)
  {
    var s := CriterionScores(X, y, pearsonr);
    var r := SortPairs(s);
    assert |r| == |multiset(r)| == |multiset(s)| == |s|;
    assert forall j :: 0 <= j < |r| ==> r[j].1 < |X[0]| && HasColumn(X, r[j].1) by {
      forall j | 0 <= j < |r| ensures r[j].1 < |X[0]| && HasColumn(X, r[j].1) {
        assert r[j] in multiset(r);
        assert r[j] in s;
        RectangularHasColumn(X, r[j].1);
      }
    }
    r
  }

  /** The ranking is ascending and holds exactly the criterion scores. */
  lemma RankFeaturesSorted(X: Matrix, y: seq<real>, pearsonr: CorrelationFn)
    requires |X| > 0 && Rectangular(X)
    ensures SortedPairs(RankFeatures(X, y, pearsonr))
    ensures multiset(RankFeatures(X, y, pearsonr)) == multiset(CriterionScores(X, y, pearsonr))
  {
    assert RankFeatures(X, y, pearsonr) == SortPairs(CriterionScores(X, y, pearsonr));
  }

  /** Each ranked pair is the score of the feature it names. */
  lemma RankedScore(X: Matrix, y: seq<real>, pearsonr: CorrelationFn, j: nat)
    requires |X| > 0 && Rectangular(X) && j < |RankFeatures(X, y, pearsonr)|
    ensures RankFeatures(X, y, pearsonr)[j] == CriterionScores(X, y, pearsonr)[RankFeatures(X, y, pearsonr)[j].1]
  {
    var r, s := RankFeatures(X, y, pearsonr), CriterionScores(X, y, pearsonr);
    RankFeaturesSorted(X, y, pearsonr);
    assert r[j] in multiset(r);
    assert r[j] in multiset(s);
    var i :| 0 <= i < |s| && s[i] == r[j];
  }

  /** A constant column is ranked below every column of positive score, so
      the popping loop tries it only after all of them. */
  lemma ConstantRankedLast(X: Matrix, y: seq<real>, pearsonr: CorrelationFn, i: nat, j: nat)
    requires |X| > 0 && Rectangular(X)
    requires i < |RankFeatures(X, y, pearsonr)| && j < |RankFeatures(X, y, pearsonr)|
    requires ConstantColumn(X, RankFeatures(X, y, pearsonr)[i].1)
    requires RankFeatures(X, y, pearsonr)[j].0 > 0.0
    ensures i < j
  {
    var r, s := RankFeatures(X, y, pearsonr), CriterionScores(X, y, pearsonr);
    RankFeaturesSorted(X, y, pearsonr);
    RankedScore(X, y, pearsonr, i);
    assert r[i].0 == s[r[i].1].0 == 0.0;
    if j <= i {
      assert false;
    }
  }

  /** The median split on feature f sends rows both ways (`splited`). */
  predicate SplitsAtMedian(X: Matrix, f: nat, median: MedianFn)
    requires HasColumn(X, f)
  {
    Splited(LeftMask(Column(X, f), median(Column(X, f))))
  }

  /** A constant column can never split, whatever its median. */
  lemma ConstantNeverSplits(X: Matrix, f: nat, median: MedianFn)
    requires |X| > 0 && HasColumn(X, f) && ConstantColumn(X, f)
    ensures !SplitsAtMedian(X, f, median)
  {
    var m := LeftMask(Column(X, f), median(Column(X, f)));
    assert forall i :: 0 <= i < |m| ==> m[i] == m[0];
  }

  /** A split with rows on both sides is never on a constant column. */
  lemma TwoSidedNotConstant(X: Matrix, y: seq<real>, f: nat, t: real)
    requires |X| == |y| && |X| > 0 && HasColumn(X, f)
    requires |Partition(X, y, f, t).xLeft| > 0 && |Partition(X, y, f, t).xRight| > 0
    ensures !ConstantColumn(X, f)
  {
    PartitionEmptySide(X, y, f, t);
    var i :| 0 <= i < |X| && X[i][f] <= t;
    var j :| 0 <= j < |X| && X[j][f] > t;
    assert X[i][f] != X[j][f];
  }

  /** The position at which the `while feature_corrs: pop()` loop stops: the
      last candidate whose median split sends rows both ways, or -1. */
  function LastSplitting(X: Matrix, cands: seq<(real, nat)>, median: MedianFn): (k: int)
    requires forall j :: 0 <= j < |cands| ==> HasColumn(X, cands[j].1)
    ensures -1 <= k < |cands|
    ensures k >= 0 ==> SplitsAtMedian(X, cands[k].1, median)
    ensures forall j :: k < j < |cands| ==> !SplitsAtMedian(X, cands[j].1, median)
    decreases |cands|
  {
    if |cands| == 0 then -1
    else if SplitsAtMedian(X, cands[|cands| - 1].1, median) then |cands| - 1
    else LastSplitting(X, cands[..|cands| - 1], median)
  }

  /** The 'pearsonr' loop of DecisionTree._build_tree: pop candidates from the
      end of the sorted list until one splits; the result is a split only when
      the list is still non-empty after that pop, so a split found on the
      lowest-ranked candidate still yields a leaf. */
  method PopUntilSplit(X: Matrix, featureCorrs: seq<(real, nat)>, median: MedianFn)
    returns (choice: Option<(nat, real)>)
    requires forall j :: 0 <= j < |featureCorrs| ==> HasColumn(X, featureCorrs[j].1)
    ensures var k := LastSplitting(X, featureCorrs, median);
            if k >= 1 then choice == Some((featureCorrs[k].1, median(Column(X, featureCorrs[k].1))))
            else choice == None
  {
    var remaining := featureCorrs;
    var featureToSplit: nat := 0;
    var splitVal: real := 0.0;
    while |remaining| > 0
      invariant remaining == featureCorrs[..|remaining|]
      invariant forall j :: |remaining| <= j < |featureCorrs| ==> !SplitsAtMedian(X, featureCorrs[j].1, median)
    {
      featureToSplit := remaining[|remaining| - 1].1;
      remaining := remaining[..|remaining| - 1];
      splitVal := median(Column(X, featureToSplit));
      var leftIndex := LeftMask(Column(X, featureToSplit), splitVal);
      if Splited(leftIndex) {
        assert featureCorrs[|remaining|].1 == featureToSplit;
        assert LastSplitting(X, featureCorrs, median) == |remaining|;
        break;
      }
    }
    if |remaining| == 0 {
      return None;
    }
    choice := Some((featureToSplit, splitVal));
  }

  /** The left side of an information-gain split is never empty: its
      threshold is an observed value of the column. */
  lemma GainLeftNonEmpty(X: Matrix, y: seq<real>, gain: GainFn)
    requires |X| == |y| && Rectangular(X) && BestFeature(X, y, gain).Ok?
    ensures var c := BestFeature(X, y, gain).value;
            HasColumn(X, c.0) && |Partition(X, y, c.0, c.1).xLeft| > 0
  {
    var c := BestFeature(X, y, gain).value;
    var i :| 0 <= i < |X| && Column(X, c.0)[i] == c.1;
    PartitionEmptySide(X, y, c.0, c.1);
  }

  /** What a builder does at one node before any recursive call: make a
      leaf, fail, or split on a feature and threshold, recursing at nextDepth. */
  datatype Step = MakeLeaf | Fail(error: Error) | SplitAt(feature: nat, threshold: real, nextDepth: int)

  /** The information-gain step both estimators' _build_tree take: a leaf
      when max_depth is set, non-zero and reached, or when the labels cannot
      be split; otherwise the best feature and its threshold, recursing one
      level deeper. A split whose right side is empty hands every row to the
      left call again, which with no depth limit never ends (Python's
      RecursionError). */
  function GainStep(X: Matrix, y: seq<real>, n: nat, depth: int, leafSize: int,
                    maxDepth: Option<int>, gain: GainFn): (s: Step)
    requires |X| == |y| && Shaped(X, n)
    ensures s.SplitAt? ==> s.nextDepth == depth + 1
  {
    if DepthReached(maxDepth, depth) || CannotSplit(y, leafSize) then MakeLeaf
    else
      match BestFeature(X, y, gain)
      case Err(e) => Fail(e)
      case Ok(c) =>
        if |Partition(X, y, c.0, c.1).yRight| == 0 && !Limited(maxDepth) then Fail(RecursionLimit)
        else SplitAt(c.0, c.1, depth + 1)
  }

  /** A split chosen by information gain happens only below the depth limit
      and on splittable labels, on a column of the data; its left side is
      never empty, and its right side is empty only under a depth limit. */
  lemma GainStepSplits(X: Matrix, y: seq<real>, n: nat, depth: int, leafSize: int,
                       maxDepth: Option<int>, gain: GainFn, f: nat, t: real, d: int)
    requires |X| == |y| && Shaped(X, n)
    requires GainStep(X, y, n, depth, leafSize, maxDepth, gain) == SplitAt(f, t, d)
    ensures !DepthReached(maxDepth, depth) && !CannotSplit(y, leafSize) && d == depth + 1
    ensures f < n && HasColumn(X, f)
    ensures Shaped(Partition(X, y, f, t).xLeft, n) && Shaped(Partition(X, y, f, t).xRight, n)
    ensures |Partition(X, y, f, t).xLeft| > 0
    ensures |Partition(X, y, f, t).xRight| > 0 || Limited(maxDepth)
  {
    GainLeftNonEmpty(X, y, gain);
    PartitionShaped(X, y, f, t, n);
  }

  /** An information-gain split that would send no row right, with no depth
      limit, is reported as RecursionLimit. */
  lemma DegenerateGainFails(X: Matrix, y: seq<real>, n: nat, depth: int, leafSize: int,
                            maxDepth: Option<int>, gain: GainFn)
    requires |X| == |y| && Shaped(X, n) && !Limited(maxDepth)
    requires !CannotSplit(y, leafSize) && BestFeature(X, y, gain).Ok?
    requires var c := BestFeature(X, y, gain).value;
             HasColumn(X, c.0) && |Partition(X, y, c.0, c.1).xRight| == 0
    ensures GainStep(X, y, n, depth, leafSize, maxDepth, gain) == Fail(RecursionLimit)
  {
    assert !DepthReached(maxDepth, depth);
  }

  /** Without a depth limit in force, the step depends neither on the depth
      nor on which unlimited setting (None or 0) is given, apart from the
      depth it hands on. */
  lemma GainStepUnlimited(X: Matrix, y: seq<real>, n: nat, d1: int, d2: int, leafSize: int,
                          m1: Option<int>, m2: Option<int>, gain: GainFn)
    requires |X| == |y| && Shaped(X, n) && !Limited(m1) && !Limited(m2)
    ensures var s1 := GainStep(X, y, n, d1, leafSize, m1, gain);
            var s2 := GainStep(X, y, n, d2, leafSize, m2, gain);
            if s1.SplitAt? then s2.SplitAt? && s1.feature == s2.feature && s1.threshold == s2.threshold
            else s1 == s2
  {
  }
}
