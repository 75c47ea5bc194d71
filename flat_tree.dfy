/** DecisionTree of src/learn/dt.py: a tree grown either by the 'pearsonr'
    criterion (rank features by correlation, split at the median, fall back to
    the next feature) or by information gain, stored as a flat table whose
    rows are [feature, split_val, left_offset, right_offset], and queried by
    walking the offsets from row 0. */
module FlatTree {
  import opened Common
  import opened SplitSearch

  datatype Criterion = Pearsonr | InfoGain

  /** The numeric collaborators: scipy's pearsonr, np.median and the information gain. */
  datatype Scores = Scores(pearsonr: CorrelationFn, median: MedianFn, gain: GainFn)

  /** The tree a flat table encodes. */
  datatype Tree = Leaf(value: real) | Node(feature: nat, threshold: real, left: Tree, right: Tree)

  function LeafCount(t: Tree): nat {
    match t
    case Leaf(_) => 1
    case Node(_, _, l, r) => LeafCount(l) + LeafCount(r)
  }

  function Height(t: Tree): nat {
    match t
    case Leaf(_) => 0
    case Node(_, _, l, r) => 1 + if Height(l) < Height(r) then Height(r) else Height(l)
  }

  /** Every split feature indexes a point of n features. */
  ghost predicate FeaturesBelow(t: Tree, n: nat) {
    match t
    case Leaf(_) => true
    case Node(f, _, l, r) => f < n && FeaturesBelow(l, n) && FeaturesBelow(r, n)
  }

  /** A point at least as wide as the training rows can always be queried. */
  lemma {:induction false} FeaturesBelowWider(t: Tree, n: nat, m: nat)
    requires FeaturesBelow(t, n) && n <= m
    ensures FeaturesBelow(t, m)
  {
    if t.Node? {
      FeaturesBelowWider(t.left, n, m);
      FeaturesBelowWider(t.right, n, m);
    }
  }

  /** The prediction of the tree for a point: descend left when
      point[feature] <= threshold, right otherwise. */
  function Eval(t: Tree, point: seq<real>): real
    requires FeaturesBelow(t, |point|)
  {
    match t
    case Leaf(v) => v
    case Node(f, th, l, r) => if point[f] <= th then Eval(l, point) else Eval(r, point)
  }

  /** One row of the table. */
  datatype Row = Row(feature: int, value: real, leftOffset: int, rightOffset: int)

  /** The feature index that marks a leaf row. */
  const LeafFeature: int := -1

  /** [-1, value, nan, nan]; the NaN offsets are held as 0 and never read. */
  function LeafRow(value: real): Row {
    Row(LeafFeature, value, 0, 0)
  }

  /** The table _build_tree assembles: a leaf is one row; an internal node is
      its own row, pointing one row down for the left subtree and one past the
      left subtree for the right, followed by both subtrees' rows. */
  function Flatten(t: Tree): (tbl: seq<Row>)
    ensures |tbl| == 2 * LeafCount(t) - 1
    ensures tbl[0].feature == LeafFeature <==> t.Leaf?
  {
    match t
    case Leaf(v) => [LeafRow(v)]
    case Node(f, th, l, r) =>
      var lt := Flatten(l);
      [Row(f, th, 1, |lt| + 1)] + lt + Flatten(r)
  }

  /** Every internal row names a feature of the point and both its offsets
      move strictly forward inside the table. */
  ghost predicate ValidTable(tbl: seq<Row>, n: nat) {
    forall i :: 0 <= i < |tbl| && tbl[i].feature != LeafFeature ==>
      0 <= tbl[i].feature < n &&
      1 <= tbl[i].leftOffset && i + tbl[i].leftOffset < |tbl| &&
      1 <= tbl[i].rightOffset && i + tbl[i].rightOffset < |tbl|
  }

  /** DecisionTree._search_point on the table tbl (self.tree). */
  function Search(tbl: seq<Row>, point: seq<real>, row: nat): real
    requires ValidTable(tbl, |point|) && row < |tbl|
    decreases |tbl| - row
  {
    var r := tbl[row];
    if r.feature == LeafFeature then r.value
    else if point[r.feature] <= r.value then Search(tbl, point, row + r.leftOffset)
    else Search(tbl, point, row + r.rightOffset)
  }

  /** A search always ends on a leaf row at or after the row it starts from,
      and answers that row's value. */
  lemma {:induction false} SearchEndsAtLeaf(tbl: seq<Row>, point: seq<real>, row: nat)
    requires ValidTable(tbl, |point|) && row < |tbl|
    ensures exists k :: row <= k < |tbl| && tbl[k].feature == LeafFeature &&
                        tbl[k].value == Search(tbl, point, row)
    decreases |tbl| - row
  {
    var r := tbl[row];
    if r.feature != LeafFeature {
      if point[r.feature] <= r.value {
        SearchEndsAtLeaf(tbl, point, row + r.leftOffset);
      } else {
        SearchEndsAtLeaf(tbl, point, row + r.rightOffset);
      }
    }
  }

  /** Every table built by Flatten is valid: its offsets land inside it. */
  lemma {:induction false} FlattenValid(t: Tree, n: nat)
    requires FeaturesBelow(t, n)
    ensures ValidTable(Flatten(t), n)
  {
    match t
    case Leaf(_) =>
    case Node(f, th, l, r) =>
      FlattenValid(l, n);
      FlattenValid(r, n);
      var lt, rt := Flatten(l), Flatten(r);
      var tbl := [Row(f, th, 1, |lt| + 1)] + lt + rt;
      forall i | 0 <= i < |tbl| && tbl[i].feature != LeafFeature
        ensures 0 <= tbl[i].feature < n
        ensures 1 <= tbl[i].leftOffset && i + tbl[i].leftOffset < |tbl|
        ensures 1 <= tbl[i].rightOffset && i + tbl[i].rightOffset < |tbl|
      {
        if i == 0 {
        } else if i < 1 + |lt| {
          assert tbl[i] == lt[i - 1];
        } else {
          assert tbl[i] == rt[i - 1 - |lt|];
        }
      }
  }

  /** The first row of a table placed after pre sits at index |pre|. */
  lemma RowAfter(pre: seq<Row>, ft: seq<Row>, suf: seq<Row>)
    requires |ft| > 0
    ensures (pre + ft + suf)[|pre|] == ft[0]
  {
  }

  /** A node's table inside a larger one, regrouped around its left or its
      right subtree's rows. */
  lemma Regroup(pre: seq<Row>, row: Row, lt: seq<Row>, rt: seq<Row>, suf: seq<Row>)
    ensures pre + ([row] + lt + rt) + suf == (pre + [row]) + lt + (rt + suf)
    ensures pre + ([row] + lt + rt) + suf == (pre + [row] + lt) + rt + suf
  {
  }

  /** Query descent: searching from the first row of a tree's encoding,
      wherever that encoding sits inside a valid table, gives the tree's
      prediction. */
  lemma {:induction false} SearchFlatten(tbl: seq<Row>, pre: seq<Row>, t: Tree, suf: seq<Row>, point: seq<real>)
    requires tbl == pre + Flatten(t) + suf
    requires ValidTable(tbl, |point|) && FeaturesBelow(t, |point|)
    ensures Search(tbl, point, |pre|) == Eval(t, point)
    decreases t
  {
    RowAfter(pre, Flatten(t), suf);
    match t
    case Leaf(_) =>
    case Node(f, th, l, r) =>
      var row, lt, rt := Row(f, th, 1, |Flatten(l)| + 1), Flatten(l), Flatten(r);
      Regroup(pre, row, lt, rt, suf);
      if point[f] <= th {
        SearchFlatten(tbl, pre + [row], l, rt + suf, point);
        assert Search(tbl, point, |pre|) == Search(tbl, point, |pre| + 1);
      } else {
        SearchFlatten(tbl, pre + [row] + lt, r, suf, point);
        assert Search(tbl, point, |pre|) == Search(tbl, point, |pre| + 1 + |lt|);
      }
  }

  /** _search_point(point, row=0) on a table built from t answers as t does. */
  lemma SearchRoot(t: Tree, point: seq<real>)
    requires FeaturesBelow(t, |point|)
    ensures ValidTable(Flatten(t), |point|)
    ensures Search(Flatten(t), point, 0) == Eval(t, point)
  {
    FlattenValid(t, |point|);
    assert Flatten(t) == [] + Flatten(t) + [];
    SearchFlatten(Flatten(t), [], t, [], point);
  }

  /** The leaf _build_tree emits: `Counter(dataY).most_common(1)[0][0]`,
      which raises IndexError when there are no labels. */
  function LeafOf(y: seq<real>): Result<Tree> {
    if |y| == 0 then Err(EmptyLabels) else Ok(Leaf(MostCommon(y)))
  }

  /** Stacks a root over two built subtrees; the left subtree's error is the
      one raised first. */
  function Join(f: nat, t: real, l: Result<Tree>, r: Result<Tree>): Result<Tree> {
    if l.Err? then l else if r.Err? then r else Ok(Node(f, t, l.value, r.value))
  }

  function Encode(g: Result<Tree>): Result<seq<Row>> {
    if g.Err? then Err(g.error) else Ok(Flatten(g.value))
  }

  /** The feature the 'pearsonr' criterion splits on, with its median, or
      None when the node must become a leaf. */
  function PearsonrChoice(X: Matrix, y: seq<real>, scores: Scores): Option<(nat, real)>
    requires |X| > 0 && Rectangular(X)
  {
    var ranking := RankFeatures(X, y, scores.pearsonr);
    var k := LastSplitting(X, ranking, scores.median);
    if k < 1 then None
    else Some((ranking[k].1, scores.median(Column(X, ranking[k].1))))
  }

  lemma PearsonrChoiceSplits(X: Matrix, y: seq<real>, scores: Scores)
    requires |X| == |y| && |X| > 0 && Rectangular(X)
    requires PearsonrChoice(X, y, scores).Some?
    ensures var c := PearsonrChoice(X, y, scores).value;
            c.0 < |X[0]| && HasColumn(X, c.0) &&
            |Partition(X, y, c.0, c.1).xLeft| > 0 && |Partition(X, y, c.0, c.1).xRight| > 0
  {
    var c := PearsonrChoice(X, y, scores).value;
    SplitedIffBothSides(X, y, c.0, c.1);
  }

  /** The 'pearsonr' fallback: the node becomes a leaf exactly when no ranked
      feature other than the lowest-ranked one splits at its median (even if
      that one would), and otherwise it splits on a feature that does split,
      at that feature's median. */
  lemma PearsonrFallback(X: Matrix, y: seq<real>, scores: Scores)
    requires |X| > 0 && Rectangular(X)
    ensures PearsonrChoice(X, y, scores).None? <==>
              forall j :: 1 <= j < |RankFeatures(X, y, scores.pearsonr)| ==>
                !SplitsAtMedian(X, RankFeatures(X, y, scores.pearsonr)[j].1, scores.median)
    ensures PearsonrChoice(X, y, scores).Some? ==>
              HasColumn(X, PearsonrChoice(X, y, scores).value.0) &&
              SplitsAtMedian(X, PearsonrChoice(X, y, scores).value.0, scores.median) &&
              PearsonrChoice(X, y, scores).value.1 == scores.median(Column(X, PearsonrChoice(X, y, scores).value.0))
  {
    var ranking := RankFeatures(X, y, scores.pearsonr);
    var k := LastSplitting(X, ranking, scores.median);
    if k >= 1 {
      assert !(forall j :: 1 <= j < |ranking| ==> !SplitsAtMedian(X, ranking[j].1, scores.median));
    }
  }

  /** The 'pearsonr' tie-break: the chosen feature's (score, index) pair is
      the greatest, in Python's tuple order, among the splitting candidates
      other than the lowest-ranked one; among equal scores the highest index
      wins, since the loop pops from the end of an ascending list. */
  lemma PearsonrPicksGreatest(X: Matrix, y: seq<real>, scores: Scores)
    requires |X| > 0 && Rectangular(X) && PearsonrChoice(X, y, scores).Some?
    ensures PearsonrChoice(X, y, scores).value.0 < |X[0]|
    ensures forall j :: 1 <= j < |RankFeatures(X, y, scores.pearsonr)| &&
                        SplitsAtMedian(X, RankFeatures(X, y, scores.pearsonr)[j].1, scores.median) ==>
              PairLe(RankFeatures(X, y, scores.pearsonr)[j],
                     CriterionScores(X, y, scores.pearsonr)[PearsonrChoice(X, y, scores).value.0])
  {
    var ranking := RankFeatures(X, y, scores.pearsonr);
    var k := LastSplitting(X, ranking, scores.median);
    RankFeaturesSorted(X, y, scores.pearsonr);
    RankedScore(X, y, scores.pearsonr, k);
    forall j | 1 <= j < |ranking| && SplitsAtMedian(X, ranking[j].1, scores.median)
      ensures PairLe(ranking[j], ranking[k])
    {
      if j < k {
        assert PairLe(ranking[j], ranking[k]);
      }
    }
  }

  /** The choice DecisionTree._build_tree makes at a node. Information gain
      takes the step both estimators share, with leaf_size 1. 'pearsonr'
      makes a leaf when the depth limit is reached, when the labels cannot
      be split, or when no ranked feature but the first splits at its
      median; otherwise it splits and passes its depth on unchanged. */
  function Decide(X: Matrix, y: seq<real>, n: nat, depth: int, criterion: Criterion,
                  maxDepth: Option<int>, scores: Scores): (s: Step)
    requires |X| == |y| && Shaped(X, n)
    ensures s.SplitAt? ==> s.nextDepth == if criterion == Pearsonr then depth else depth + 1
  {
    if criterion == Pearsonr then
      if DepthReached(maxDepth, depth) || CannotSplit(y, 1) then MakeLeaf
      else
        match PearsonrChoice(X, y, scores)
        case None => MakeLeaf
        case Some(c) => SplitAt(c.0, c.1, depth)
    else GainStep(X, y, n, depth, 1, maxDepth, scores.gain)
  }

  /** A split happens only below the depth limit and on splittable labels,
      on a column of the data; its left side is never empty, and its right
      side is empty only for information gain under a depth limit. */
  lemma DecideSplits(X: Matrix, y: seq<real>, n: nat, depth: int, criterion: Criterion,
                     maxDepth: Option<int>, scores: Scores, f: nat, t: real, d: int)
    requires |X| == |y| && Shaped(X, n)
    requires Decide(X, y, n, depth, criterion, maxDepth, scores) == SplitAt(f, t, d)
    ensures !DepthReached(maxDepth, depth) && !CannotSplit(y, 1)
    ensures f < n && HasColumn(X, f)
    ensures Shaped(Partition(X, y, f, t).xLeft, n) && Shaped(Partition(X, y, f, t).xRight, n)
    ensures |Partition(X, y, f, t).xLeft| > 0
    ensures |Partition(X, y, f, t).xRight| > 0 || (criterion == InfoGain && Limited(maxDepth))
  {
    if criterion == Pearsonr {
      PearsonrChoiceSplits(X, y, scores);
      PartitionShaped(X, y, f, t, n);
    } else {
      GainStepSplits(X, y, n, depth, 1, maxDepth, scores.gain, f, t, d);
    }
  }

  /** DecisionTree._build_tree as a value. */
  function Grow(X: Matrix, y: seq<real>, n: nat, depth: int, criterion: Criterion,
                maxDepth: Option<int>, scores: Scores): Result<Tree>
    requires |X| == |y| && Shaped(X, n)
    decreases |y|, Budget(maxDepth, depth)
  {
    match Decide(X, y, n, depth, criterion, maxDepth, scores)
    case MakeLeaf => LeafOf(y)
    case Fail(e) => Err(e)
    case SplitAt(f, t, d) =>
      DecideSplits(X, y, n, depth, criterion, maxDepth, scores, f, t, d);
      var p := Partition(X, y, f, t);
      Join(f, t, Grow(p.xLeft, p.yLeft, n, d, criterion, maxDepth, scores),
                 Grow(p.xRight, p.yRight, n, d, criterion, maxDepth, scores))
  }

  /** A node that splits grows its two children from the two sides of the
      partition, at the next depth. */
  lemma GrowSplit(X: Matrix, y: seq<real>, n: nat, depth: int, criterion: Criterion,
                  maxDepth: Option<int>, scores: Scores, f: nat, t: real, d: int)
    requires |X| == |y| && Shaped(X, n)
    requires Decide(X, y, n, depth, criterion, maxDepth, scores) == SplitAt(f, t, d)
    ensures HasColumn(X, f)
    ensures Shaped(Partition(X, y, f, t).xLeft, n) && Shaped(Partition(X, y, f, t).xRight, n)
    ensures Shrinks(y, Partition(X, y, f, t).yLeft, maxDepth, depth, d)
    ensures Shrinks(y, Partition(X, y, f, t).yRight, maxDepth, depth, d)
    ensures Grow(X, y, n, depth, criterion, maxDepth, scores) ==
              Join(f, t, Grow(Partition(X, y, f, t).xLeft, Partition(X, y, f, t).yLeft, n, d, criterion, maxDepth, scores),
                         Grow(Partition(X, y, f, t).xRight, Partition(X, y, f, t).yRight, n, d, criterion, maxDepth, scores))
  {
    DecideSplits(X, y, n, depth, criterion, maxDepth, scores, f, t, d);
  }

  /** Every split feature of a grown tree is a column of the data. */
  lemma {:induction false} GrowFeaturesBelow(X: Matrix, y: seq<real>, n: nat, depth: int, criterion: Criterion,
                                             maxDepth: Option<int>, scores: Scores)
    requires |X| == |y| && Shaped(X, n)
    requires Grow(X, y, n, depth, criterion, maxDepth, scores).Ok?
    ensures FeaturesBelow(Grow(X, y, n, depth, criterion, maxDepth, scores).value, n)
    decreases |y|, Budget(maxDepth, depth)
  {
    match Decide(X, y, n, depth, criterion, maxDepth, scores)
    case MakeLeaf =>
    case Fail(_) =>
    case SplitAt(f, t, d) =>
      DecideSplits(X, y, n, depth, criterion, maxDepth, scores, f, t, d);
      var p := Partition(X, y, f, t);
      GrowFeaturesBelow(p.xLeft, p.yLeft, n, d, criterion, maxDepth, scores);
      GrowFeaturesBelow(p.xRight, p.yRight, n, d, criterion, maxDepth, scores);
  }

  /** A grown tree has at least one and at most |y| leaves, so every leaf
      holds at least one row and the table has at most 2|y| - 1 rows. */
  lemma {:induction false} GrowLeafCount(X: Matrix, y: seq<real>, n: nat, depth: int, criterion: Criterion,
                                         maxDepth: Option<int>, scores: Scores)
    requires |X| == |y| && Shaped(X, n)
    requires Grow(X, y, n, depth, criterion, maxDepth, scores).Ok?
    ensures 1 <= LeafCount(Grow(X, y, n, depth, criterion, maxDepth, scores).value) <= |y|
    ensures |Flatten(Grow(X, y, n, depth, criterion, maxDepth, scores).value)| <= 2 * |y| - 1
    decreases |y|, Budget(maxDepth, depth)
  {
    match Decide(X, y, n, depth, criterion, maxDepth, scores)
    case MakeLeaf =>
    case Fail(_) =>
    case SplitAt(f, t, d) =>
      DecideSplits(X, y, n, depth, criterion, maxDepth, scores, f, t, d);
      var p := Partition(X, y, f, t);
      GrowLeafCount(p.xLeft, p.yLeft, n, d, criterion, maxDepth, scores);
      GrowLeafCount(p.xRight, p.yRight, n, d, criterion, maxDepth, scores);
  }

  /** Every prediction of a grown tree is one of its training labels. */
  lemma {:induction false} GrowPredictsLabel(X: Matrix, y: seq<real>, n: nat, depth: int, criterion: Criterion,
                                             maxDepth: Option<int>, scores: Scores, point: seq<real>)
    requires |X| == |y| && Shaped(X, n)
    requires Grow(X, y, n, depth, criterion, maxDepth, scores).Ok?
    requires FeaturesBelow(Grow(X, y, n, depth, criterion, maxDepth, scores).value, |point|)
    ensures Eval(Grow(X, y, n, depth, criterion, maxDepth, scores).value, point) in y
    decreases |y|, Budget(maxDepth, depth)
  {
    var s := Decide(X, y, n, depth, criterion, maxDepth, scores);
    if s.SplitAt? {
      var f, t, d := s.feature, s.threshold, s.nextDepth;
      GrowSplit(X, y, n, depth, criterion, maxDepth, scores, f, t, d);
      var p := Partition(X, y, f, t);
      var gl := Grow(p.xLeft, p.yLeft, n, d, criterion, maxDepth, scores);
      var gr := Grow(p.xRight, p.yRight, n, d, criterion, maxDepth, scores);
      var v := Eval(Node(f, t, gl.value, gr.value), point);
      if point[f] <= t {
        GrowPredictsLabel(p.xLeft, p.yLeft, n, d, criterion, maxDepth, scores, point);
        assert v in p.yLeft;
      } else {
        GrowPredictsLabel(p.xRight, p.yRight, n, d, criterion, maxDepth, scores, point);
        assert v in p.yRight;
      }
      PartitionLabelsFrom(X, y, f, t, v);
    }
  }

  /** With information gain, depth grows by one per level, so a depth limit
      bounds the height of the tree by the levels it has left. */
  lemma {:induction false} GainHeightBounded(X: Matrix, y: seq<real>, n: nat, depth: int,
                                             maxDepth: Option<int>, scores: Scores)
    requires |X| == |y| && Shaped(X, n) && Limited(maxDepth)
    requires Grow(X, y, n, depth, InfoGain, maxDepth, scores).Ok?
    ensures Height(Grow(X, y, n, depth, InfoGain, maxDepth, scores).value) <= Budget(maxDepth, depth)
    decreases |y|, Budget(maxDepth, depth)
  {
    var s := Decide(X, y, n, depth, InfoGain, maxDepth, scores);
    if s.SplitAt? {
      var f, t, d := s.feature, s.threshold, s.nextDepth;
      DecideSplits(X, y, n, depth, InfoGain, maxDepth, scores, f, t, d);
      GrowSplit(X, y, n, depth, InfoGain, maxDepth, scores, f, t, d);
      var p := Partition(X, y, f, t);
      GainHeightBounded(p.xLeft, p.yLeft, n, d, maxDepth, scores);
      GainHeightBounded(p.xRight, p.yRight, n, d, maxDepth, scores);
    }
  }

  /** Without a depth limit in force, one node's decision depends neither on
      the depth nor on which of the unlimited settings is given, apart from
      the depth it hands on. */
  lemma DecideUnlimited(X: Matrix, y: seq<real>, n: nat, d1: int, d2: int,
                        criterion: Criterion, m1: Option<int>, m2: Option<int>, scores: Scores)
    requires |X| == |y| && Shaped(X, n) && !Limited(m1) && !Limited(m2)
    ensures var s1 := Decide(X, y, n, d1, criterion, m1, scores);
            var s2 := Decide(X, y, n, d2, criterion, m2, scores);
            if s1.SplitAt? then s2.SplitAt? && s1.feature == s2.feature && s1.threshold == s2.threshold
            else s1 == s2
  {
  }

  /** Without a depth limit in force (None or 0), neither the depth nor which
      of the two settings is used changes the tree. */
  lemma {:induction false} UnlimitedIgnoresDepth(X: Matrix, y: seq<real>, n: nat, d1: int, d2: int,
                                                 criterion: Criterion, m1: Option<int>, m2: Option<int>, scores: Scores)
    requires |X| == |y| && Shaped(X, n) && !Limited(m1) && !Limited(m2)
    ensures Grow(X, y, n, d1, criterion, m1, scores) == Grow(X, y, n, d2, criterion, m2, scores)
    decreases |y|
  {
    DecideUnlimited(X, y, n, d1, d2, criterion, m1, m2, scores);
    var s1 := Decide(X, y, n, d1, criterion, m1, scores);
    var s2 := Decide(X, y, n, d2, criterion, m2, scores);
    if s1.SplitAt? {
      var f, t := s1.feature, s1.threshold;
      DecideSplits(X, y, n, d1, criterion, m1, scores, f, t, s1.nextDepth);
      DecideSplits(X, y, n, d2, criterion, m2, scores, f, t, s2.nextDepth);
      var p := Partition(X, y, f, t);
      UnlimitedIgnoresDepth(p.xLeft, p.yLeft, n, s1.nextDepth, s2.nextDepth, criterion, m1, m2, scores);
      UnlimitedIgnoresDepth(p.xRight, p.yRight, n, s1.nextDepth, s2.nextDepth, criterion, m1, m2, scores);
      assert Grow(X, y, n, d1, criterion, m1, scores)
          == Join(f, t, Grow(p.xLeft, p.yLeft, n, s1.nextDepth, criterion, m1, scores),
                        Grow(p.xRight, p.yRight, n, s1.nextDepth, criterion, m1, scores));
      assert Grow(X, y, n, d2, criterion, m2, scores)
          == Join(f, t, Grow(p.xLeft, p.yLeft, n, s2.nextDepth, criterion, m2, scores),
                        Grow(p.xRight, p.yRight, n, s2.nextDepth, criterion, m2, scores));
    }
  }

  /** Such a split hands the left call exactly the node's own rows, and with
      no depth limit that call is the same computation again: Python never
      returns from it. */
  lemma DegenerateSplitRepeats(X: Matrix, y: seq<real>, n: nat, depth: int,
                               maxDepth: Option<int>, scores: Scores, f: nat, t: real)
    requires |X| == |y| && Shaped(X, n) && !Limited(maxDepth)
    requires HasColumn(X, f) && |Partition(X, y, f, t).xRight| == 0
    ensures var p := Partition(X, y, f, t);
            p.xLeft == X && p.yLeft == y &&
            Grow(p.xLeft, p.yLeft, n, depth + 1, InfoGain, maxDepth, scores) == Grow(X, y, n, depth, InfoGain, maxDepth, scores)
  {
    PartitionKeepsAll(X, y, f, t);
    UnlimitedIgnoresDepth(X, y, n, depth + 1, depth, InfoGain, maxDepth, maxDepth, scores);
  }

  /** Under a depth limit, an information-gain split that sends no row right
      raises: the right call has no label for its leaf, and the left call,
      which gets the same rows one level deeper, makes the same split until
      the limit stops it. */
  lemma {:induction false} GainEmptyRightRaises(X: Matrix, y: seq<real>, n: nat, depth: int,
                                                maxDepth: Option<int>, scores: Scores, f: nat, t: real)
    requires |X| == |y| && Shaped(X, n) && HasColumn(X, f)
    requires Decide(X, y, n, depth, InfoGain, maxDepth, scores) == SplitAt(f, t, depth + 1)
    requires |Partition(X, y, f, t).xRight| == 0
    ensures Grow(X, y, n, depth, InfoGain, maxDepth, scores) == Err(EmptyLabels)
    decreases Budget(maxDepth, depth)
  {
    DecideSplits(X, y, n, depth, InfoGain, maxDepth, scores, f, t, depth + 1);
    GrowSplit(X, y, n, depth, InfoGain, maxDepth, scores, f, t, depth + 1);
    PartitionKeepsAll(X, y, f, t);
    var p := Partition(X, y, f, t);
    GrowNothing(p.xRight, p.yRight, n, depth + 1, InfoGain, maxDepth, scores);
    if Decide(X, y, n, depth + 1, InfoGain, maxDepth, scores).SplitAt? {
      assert Decide(X, y, n, depth + 1, InfoGain, maxDepth, scores) == SplitAt(f, t, depth + 2);
      GainEmptyRightRaises(X, y, n, depth + 1, maxDepth, scores, f, t);
    } else {
      assert Grow(X, y, n, depth + 1, InfoGain, maxDepth, scores) == LeafOf(y);
    }
  }

  /** The 'pearsonr' builder passes its depth on unchanged, so a depth limit
      that does not stop the root never stops any node. */
  lemma {:induction false} PearsonrDepthOnlyAtRoot(X: Matrix, y: seq<real>, n: nat, depth: int,
                                                   maxDepth: Option<int>, scores: Scores)
    requires |X| == |y| && Shaped(X, n) && !DepthReached(maxDepth, depth)
    ensures Grow(X, y, n, depth, Pearsonr, maxDepth, scores) == Grow(X, y, n, depth, Pearsonr, None, scores)
    decreases |y|
  {
    var s := Decide(X, y, n, depth, Pearsonr, maxDepth, scores);
    assert s == Decide(X, y, n, depth, Pearsonr, None, scores);
    if s.SplitAt? {
      var f, t := s.feature, s.threshold;
      DecideSplits(X, y, n, depth, Pearsonr, maxDepth, scores, f, t, s.nextDepth);
      DecideSplits(X, y, n, depth, Pearsonr, None, scores, f, t, s.nextDepth);
      var p := Partition(X, y, f, t);
      PearsonrDepthOnlyAtRoot(p.xLeft, p.yLeft, n, depth, maxDepth, scores);
      PearsonrDepthOnlyAtRoot(p.xRight, p.yRight, n, depth, maxDepth, scores);
      assert Grow(X, y, n, depth, Pearsonr, maxDepth, scores)
          == Join(f, t, Grow(p.xLeft, p.yLeft, n, depth, Pearsonr, maxDepth, scores),
                        Grow(p.xRight, p.yRight, n, depth, Pearsonr, maxDepth, scores));
      assert Grow(X, y, n, depth, Pearsonr, None, scores)
          == Join(f, t, Grow(p.xLeft, p.yLeft, n, depth, Pearsonr, None, scores),
                        Grow(p.xRight, p.yRight, n, depth, Pearsonr, None, scores));
    }
  }

  /** Building from no rows raises: the leaf has no label to take. */
  lemma GrowNothing(X: Matrix, y: seq<real>, n: nat, depth: int, criterion: Criterion,
                    maxDepth: Option<int>, scores: Scores)
    requires |X| == |y| == 0 && Shaped(X, n)
    ensures Grow(X, y, n, depth, criterion, maxDepth, scores) == Err(EmptyLabels)
  {
    assert Decide(X, y, n, depth, criterion, maxDepth, scores) == MakeLeaf;
  }

  /** Whenever a grown tree splits at its root, it splits where Decide
      chose, and both sides of that split hold rows. */
  lemma RootSplitTwoSided(X: Matrix, y: seq<real>, n: nat, depth: int, criterion: Criterion,
                          maxDepth: Option<int>, scores: Scores)
    requires |X| == |y| && Shaped(X, n)
    requires Grow(X, y, n, depth, criterion, maxDepth, scores).Ok?
    requires Grow(X, y, n, depth, criterion, maxDepth, scores).value.Node?
    ensures var t := Grow(X, y, n, depth, criterion, maxDepth, scores).value;
            |X| > 0 && t.feature < n && HasColumn(X, t.feature) &&
            |Partition(X, y, t.feature, t.threshold).xLeft| > 0 &&
            |Partition(X, y, t.feature, t.threshold).xRight| > 0
  {
    var s := Decide(X, y, n, depth, criterion, maxDepth, scores);
    assert s.SplitAt?;
    DecideSplits(X, y, n, depth, criterion, maxDepth, scores, s.feature, s.threshold, s.nextDepth);
    var p := Partition(X, y, s.feature, s.threshold);
    var gl := Grow(p.xLeft, p.yLeft, n, s.nextDepth, criterion, maxDepth, scores);
    var gr := Grow(p.xRight, p.yRight, n, s.nextDepth, criterion, maxDepth, scores);
    assert Grow(X, y, n, depth, criterion, maxDepth, scores) == Join(s.feature, s.threshold, gl, gr);
    if |p.xRight| == 0 {
      GrowNothing(p.xRight, p.yRight, n, s.nextDepth, criterion, maxDepth, scores);
    }
  }

  /** Hence no grown tree splits its root on a constant column, even though
      information gain scores such a column (with threshold X[0][f]). */
  lemma RootSplitNotConstant(X: Matrix, y: seq<real>, n: nat, depth: int, criterion: Criterion,
                             maxDepth: Option<int>, scores: Scores)
    requires |X| == |y| && Shaped(X, n)
    requires Grow(X, y, n, depth, criterion, maxDepth, scores).Ok?
    requires Grow(X, y, n, depth, criterion, maxDepth, scores).value.Node?
    ensures var t := Grow(X, y, n, depth, criterion, maxDepth, scores).value;
            |X| > 0 && HasColumn(X, t.feature) && !ConstantColumn(X, t.feature)
  {
    RootSplitTwoSided(X, y, n, depth, criterion, maxDepth, scores);
    var t := Grow(X, y, n, depth, criterion, maxDepth, scores).value;
    TwoSidedNotConstant(X, y, t.feature, t.threshold);
  }

  /** A node whose labels all agree becomes a leaf holding that label. */
  lemma PureNodeIsLeaf(X: Matrix, y: seq<real>, n: nat, depth: int, criterion: Criterion,
                       maxDepth: Option<int>, scores: Scores)
    requires |X| == |y| && Shaped(X, n)
    requires |y| > 0 && forall i :: 0 <= i < |y| ==> y[i] == y[0]
    ensures Grow(X, y, n, depth, criterion, maxDepth, scores) == Ok(Leaf(y[0]))
  {
    UniqueSingleton(y);
    assert CannotSplit(y, 1);
    assert Decide(X, y, n, depth, criterion, maxDepth, scores) == MakeLeaf;
    var r := MostCommon(y);
    var i :| 0 <= i < |y| && y[i] == r;
    assert Grow(X, y, n, depth, criterion, maxDepth, scores) == Ok(Leaf(r));
  }

  lemma PredictSearches(t: Tree, points: seq<seq<real>>)
    requires forall i :: 0 <= i < |points| ==> FeaturesBelow(t, |points[i]|)
    ensures forall i :: 0 <= i < |points| ==>
              ValidTable(Flatten(t), |points[i]|) && Search(Flatten(t), points[i], 0) == Eval(t, points[i])
  {
    forall i | 0 <= i < |points|
      ensures ValidTable(Flatten(t), |points[i]|) && Search(Flatten(t), points[i], 0) == Eval(t, points[i])
    {
      SearchRoot(t, points[i]);
    }
  }

  /** A DecisionTree estimator. It keeps the fitted table in `tree`; `model`
      and `width` are the tree it encodes and the width it was fitted on. */
  class DecisionTree {
    const criterion: Criterion
    /** Always 1: the constructor ignores the leaf_size it is given. */
    const leafSize: int := 1
    const maxDepth: Option<int>
    const scores: Scores
    var tree: Option<seq<Row>>
    ghost var model: Tree
    ghost var width: nat

    ghost predicate Valid()
      reads this
    {
      tree.Some? ==> tree.value == Flatten(model) && FeaturesBelow(model, width)
    }

    constructor (criterion: Criterion, requestedLeafSize: int, maxDepth: Option<int>, scores: Scores)
      ensures Valid() && tree == None
      ensures this.criterion == criterion && this.maxDepth == maxDepth && this.scores == scores
    {
      this.criterion := criterion;
      this.maxDepth := maxDepth;
      this.scores := scores;
      tree := None;
      model := Leaf(0.0);
      width := 0;
    }

    /** `np.array([[-1, Counter(dataY).most_common(1)[0][0], nan, nan]])` */
    method LeafTable(dataY: seq<real>) returns (r: Result<seq<Row>>)
      ensures r == Encode(LeafOf(dataY))
    {
      if |dataY| == 0 {
        return Err(EmptyLabels);
      }
      r := Ok([LeafRow(MostCommon(dataY))]);
    }

    /** DecisionTree._build_tree */
    method BuildTree(dataX: Matrix, dataY: seq<real>, ghost n: nat, depth: int) returns (r: Result<seq<Row>>)
      requires |dataX| == |dataY| && Shaped(dataX, n)
      ensures r == Encode(Grow(dataX, dataY, n, depth, criterion, maxDepth, scores))
      decreases |dataY|, Budget(maxDepth, depth), 2
    {
      if DepthReached(maxDepth, depth) {
        assert Decide(dataX, dataY, n, depth, criterion, maxDepth, scores) == MakeLeaf;
        r := LeafTable(dataY);
        return;
      }
      if CannotSplit(dataY, leafSize) {
        assert Decide(dataX, dataY, n, depth, criterion, maxDepth, scores) == MakeLeaf;
        r := LeafTable(dataY);
        return;
      }
      if criterion == Pearsonr {
        r := BuildByCorrelation(dataX, dataY, n, depth);
      } else {
        r := BuildByGain(dataX, dataY, n, depth);
      }
    }

    /** The 'pearsonr' branch of _build_tree: pop features from the sorted
        scores until one splits at its median; a leaf when none but the first
        does. */
    method BuildByCorrelation(dataX: Matrix, dataY: seq<real>, ghost n: nat, depth: int) returns (r: Result<seq<Row>>)
      requires |dataX| == |dataY| && Shaped(dataX, n) && criterion == Pearsonr
      requires !DepthReached(maxDepth, depth) && !CannotSplit(dataY, leafSize)
      ensures r == Encode(Grow(dataX, dataY, n, depth, criterion, maxDepth, scores))
      decreases |dataY|, Budget(maxDepth, depth), 1
    {
      var featureCorrs := RankFeatures(dataX, dataY, scores.pearsonr);
      var choice := PopUntilSplit(dataX, featureCorrs, scores.median);
      if choice.None? {
        assert Decide(dataX, dataY, n, depth, criterion, maxDepth, scores) == MakeLeaf;
        r := LeafTable(dataY);
        return;
      }
      var featureToSplit, splitVal := choice.value.0, choice.value.1;
      assert Decide(dataX, dataY, n, depth, criterion, maxDepth, scores) == SplitAt(featureToSplit, splitVal, depth);
      GrowSplit(dataX, dataY, n, depth, criterion, maxDepth, scores, featureToSplit, splitVal, depth);
      r := BuildChildren(dataX, dataY, n, depth, featureToSplit, splitVal, depth);
    }

    /** The information-gain branch of _build_tree: split on the best
        feature, one level deeper. */
    method BuildByGain(dataX: Matrix, dataY: seq<real>, ghost n: nat, depth: int) returns (r: Result<seq<Row>>)
      requires |dataX| == |dataY| && Shaped(dataX, n) && criterion == InfoGain
      requires !DepthReached(maxDepth, depth) && !CannotSplit(dataY, leafSize)
      ensures r == Encode(Grow(dataX, dataY, n, depth, criterion, maxDepth, scores))
      decreases |dataY|, Budget(maxDepth, depth), 1
    {
      var best := FindBestFeature(dataX, dataY, scores.gain);
      if best.Err? {
        assert Decide(dataX, dataY, n, depth, criterion, maxDepth, scores) == Fail(best.error);
        return Err(best.error);
      }
      var featureToSplit, splitVal := best.value.0, best.value.1;
      GainLeftNonEmpty(dataX, dataY, scores.gain);
      var p := Partition(dataX, dataY, featureToSplit, splitVal);
      if |p.yRight| == 0 && !Limited(maxDepth) {
        // the left call would get these very rows again, with no limit to stop it
        assert Decide(dataX, dataY, n, depth, criterion, maxDepth, scores) == Fail(RecursionLimit);
        return Err(RecursionLimit);
      }
      assert Decide(dataX, dataY, n, depth, criterion, maxDepth, scores) == SplitAt(featureToSplit, splitVal, depth + 1);
      GrowSplit(dataX, dataY, n, depth, criterion, maxDepth, scores, featureToSplit, splitVal, depth + 1);
      r := BuildChildren(dataX, dataY, n, depth, featureToSplit, splitVal, depth + 1);
    }

    /** The tail both branches of _build_tree share: build the left then the
        right subtree at nextDepth and stack them under the node's own row
        [feature_to_split, split_val, 1, len(left_tree) + 1]. */
    method BuildChildren(dataX: Matrix, dataY: seq<real>, ghost n: nat, depth: int,
                         featureToSplit: nat, splitVal: real, nextDepth: int) returns (r: Result<seq<Row>>)
      requires |dataX| == |dataY| && HasColumn(dataX, featureToSplit)
      requires Shaped(Partition(dataX, dataY, featureToSplit, splitVal).xLeft, n)
      requires Shaped(Partition(dataX, dataY, featureToSplit, splitVal).xRight, n)
      requires Shrinks(dataY, Partition(dataX, dataY, featureToSplit, splitVal).yLeft, maxDepth, depth, nextDepth)
      requires Shrinks(dataY, Partition(dataX, dataY, featureToSplit, splitVal).yRight, maxDepth, depth, nextDepth)
      ensures r == Encode(Join(featureToSplit, splitVal,
                  Grow(Partition(dataX, dataY, featureToSplit, splitVal).xLeft,
                       Partition(dataX, dataY, featureToSplit, splitVal).yLeft, n, nextDepth, criterion, maxDepth, scores),
                  Grow(Partition(dataX, dataY, featureToSplit, splitVal).xRight,
                       Partition(dataX, dataY, featureToSplit, splitVal).yRight, n, nextDepth, criterion, maxDepth, scores)))
      decreases |dataY|, Budget(maxDepth, depth), 0
    {
      var p := Partition(dataX, dataY, featureToSplit, splitVal);
      ghost var gl := Grow(p.xLeft, p.yLeft, n, nextDepth, criterion, maxDepth, scores);
      ghost var gr := Grow(p.xRight, p.yRight, n, nextDepth, criterion, maxDepth, scores);
      var leftTree := BuildTree(p.xLeft, p.yLeft, n, nextDepth);
      if leftTree.Err? {
        return leftTree;
      }
      var rightTree := BuildTree(p.xRight, p.yRight, n, nextDepth);
      if rightTree.Err? {
        return rightTree;
      }
      var root := Row(featureToSplit, splitVal, 1, |leftTree.value| + 1);
      r := Ok([root] + leftTree.value + rightTree.value);
      assert Flatten(Node(featureToSplit, splitVal, gl.value, gr.value)) == r.value;
    }

    /** DecisionTree.fit: builds the table from depth 0. The first fit stores
        it; on a fitted estimator `not self.tree` raises, so nothing changes. */
    method Fit(dataX: Matrix, dataY: seq<real>) returns (outcome: Result<()>)
      requires |dataX| == |dataY| && Rectangular(dataX)
      requires Valid()
      modifies this
      ensures Valid()
      ensures var g := Grow(dataX, dataY, Width(dataX), 0, criterion, maxDepth, scores);
              if g.Err? then
                outcome == Err(g.error) && tree == old(tree) && model == old(model) && width == old(width)
              else if old(tree).Some? then
                outcome == Err(AmbiguousTruth) && tree == old(tree) && model == old(model) && width == old(width)
              else
                outcome == Ok(()) && tree == Some(Flatten(g.value)) && model == g.value && width == Width(dataX)
    {
      ghost var n := Width(dataX);
      var newTree := BuildTree(dataX, dataY, n, 0);
      if newTree.Err? {
        return Err(newTree.error);
      }
      if tree.Some? {
        return Err(AmbiguousTruth);
      }
      GrowFeaturesBelow(dataX, dataY, n, 0, criterion, maxDepth, scores);
      tree := Some(newTree.value);
      model := Grow(dataX, dataY, n, 0, criterion, maxDepth, scores).value;
      width := n;
      outcome := Ok(());
    }

    /** DecisionTree.predict: one prediction per point, in order, each the
        answer of the fitted tree. */
    function Predict(points: seq<seq<real>>): (preds: seq<real>)
      reads this
      requires Valid() && tree.Some?
      requires forall i :: 0 <= i < |points| ==> FeaturesBelow(model, |points[i]|)
      ensures |preds| == |points|
      ensures forall i :: 0 <= i < |points| ==> preds[i] == Eval(model, points[i])
    {
      var m, tbl := model, tree.value;
      PredictSearches(m, points);
      seq(|points|, i requires 0 <= i < |points| => Search(tbl, points[i], 0))
    }
  }
}
