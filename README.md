# Decision trees of `src/learn/dt.py`, modelled in Dafny

The repository's decision-tree module has two estimators that share one
split search.

- **`DecisionTree`** grows a tree with one of two criteria:
  - **'pearsonr'**: rank the features by absolute correlation with the
    labels, pop the best-ranked one, split it at its median, and fall back
    to the next feature while the split sends every row one way;
  - **information gain**: take the feature and threshold of largest gain.

  The tree is stored as a flat table with one row per node,
  `[feature, split_val, left_offset, right_offset]`, and a leaf row has
  feature `-1`. A query follows the offsets from row 0.
- **`DecisionTreeD`** is a binary classifier (labels 0 and 1) grown by
  information gain. It stores **linked node records**: each node knows its
  parent and carries the majority label of its rows (ties go to 0). Every
  leaf is also appended, in build order, to a list the estimator keeps.

The project has four modules:

- `Common` (`common.dfy`):
  - matrices, the errors a fit can raise, label counting, `np.unique`,
    `np.argmax`, `Counter.most_common`;
  - the stopping rules and `_partition_classes`.
- `SplitSearch` (`split_search.dfy`):
  - `_find_best_split` and `_find_best_feature`;
  - the correlation ranking and the median fallback of 'pearsonr';
  - the information-gain step both builders share.
- `FlatTree` (`flat_tree.dfy`), `DecisionTree`:
  - `Grow` describes `_build_tree` as a value, and `Flatten` is its table
    encoding;
  - the class `DecisionTree` builds that table with methods proved equal to
    `Encode(Grow(...))`.
- `LinkedTree` (`linked_tree.dfy`), `DecisionTreeD`:
  - `GrowD` describes the tree as a value;
  - the classes `TreeNode` and `DecisionTreeD` build the linked records,
    with parent links, node values and the `leaves` list, proved to match
    `GrowD`.

The numeric scores are parameters: entropy with information gain
(`GainFn`), `pearsonr(...)[0]` (`CorrelationFn`; `get_pearsonr` is its absolute value, `GetPearsonr`) and `np.median` (`MedianFn`).
The model proves what the code does with their results, whatever they
return. Python exceptions raised while fitting become `Err` values of
`Common.Error`:

- `EmptyLabels`: `most_common` on no labels;
- `EmptyData`: `X[0]` on no rows;
- `NoFeatures`: `np.argmax([])`;
- `RecursionLimit`: an information-gain split that sends no row right with
  no depth limit, which recurses on the same rows forever;
- `AmbiguousTruth`: `not self.tree` on a fitted table.

Behaviour of the code that its docstrings and parameter names do not
suggest, all of it modelled as written:

- **`max_depth = 0` means no limit.** The test `self.max_depth and depth >=
  self.max_depth` (dt.py:123, dt.py:237) treats 0 as falsy, like `None`.
- **'pearsonr' fallback when only the last candidate splits.** The
  docstring (dt.py:107-112) says a leaf is made only when no feature splits
  the data. The loop `while feature_corrs: pop()` (dt.py:134-140) stops with
  an empty list when the candidate that finally splits was the last one, and
  `if not feature_corrs` (dt.py:141-143) then makes a leaf anyway. So the
  node is a leaf unless some feature other than the lowest-ranked one splits
  at its median.
- **'pearsonr' ties go to the highest index.** The docstring (dt.py:107-109)
  says that among features of equal absolute correlation the first one is
  chosen. The code sorts the `(score, index)` pairs ascending (dt.py:91-94)
  and pops from the end (dt.py:135). So among equal scores, the feature with
  the highest index is tried first.
- **Constant columns are tried last.** A constant column scores 0
  (dt.py:91), and `get_pearsonr` is an absolute value (dt.py:8). So every
  column of positive score is tried before it.
- **`leaf_size` of `DecisionTree` is always 1.** The constructor ignores
  its `leaf_size` argument (dt.py:79, dt.py:82).
- **The 'pearsonr' builder keeps the depth.** Its recursive calls pass
  `depth` on without adding one (dt.py:145-146), so a depth limit can only
  stop the root.
- **An information-gain split can send no row right.** This happens when
  `argmax` picks a constant column, whose threshold is its shared value
  (dt.py:58-68). The two estimators differ here:
  - with no depth limit, both recurse forever on the same rows (dt.py:155,
    dt.py:253);
  - under a depth limit, `DecisionTree` raises `IndexError` on the empty
    right side, in `Counter([]).most_common(1)[0]` at dt.py:124. The left
    call (dt.py:155) runs first on the same rows one level deeper, so it
    repeats the split down to the limit before any right call runs; the
    first right call to run is then at the limit;
  - under a depth limit and with `leaf_size >= 0`, `DecisionTreeD` gives
    the split a right child that is a leaf of value 0 holding no rows
    (dt.py:224-231). With a negative `leaf_size`, an empty child below the
    limit passes `_cannot_split` and raises `IndexError` at `X[0]`
    (dt.py:54, dt.py:240-243); `GrowDNoRows` models this as `EmptyData`.

## Model

| member | source | states |
|---|---|---|
| Common.Partition | src/learn/dt.py:27-34 | The two sides hold every row once: the x and y sides have equal lengths and their sizes add up to the input's |
| Common.PartitionSides | src/learn/dt.py:29-33 | Every left row has `X[f] <= t` and every right row has `X[f] > t` |
| Common.PartitionEmptySide | src/learn/dt.py:29-33 | A side is empty exactly when no row qualifies for it (both directions) |
| Common.PartitionPlacesRow | src/learn/dt.py:29-33 | Row i lands on its side right after the earlier rows that went the same way, with its own label: order is kept and rows and labels stay paired |
| Common.PartitionCounts | src/learn/dt.py:29-33 | The two label sides together are the input labels as a multiset |
| Common.PartitionKeepsAll | src/learn/dt.py:29-33 | A partition with an empty right side hands the whole input, rows and labels, to the left |
| Common.PartitionAppend | src/learn/dt.py:29-33 | Partitioning two stacked arrays stacks the partitions of each |
| Common.PartitionShaped | src/learn/dt.py:29-33 | Both sides keep the row width of the input |
| Common.ArgMax | src/learn/dt.py:46 | `np.argmax`: a largest element, and every earlier element is strictly smaller (the first maximum) |
| Common.Unique | src/learn/dt.py:39 | `np.unique` holds exactly the values of its input |
| Common.UniqueIncreasing | src/learn/dt.py:39 | `np.unique`'s result is strictly increasing |
| Common.UniqueSingleton | src/learn/dt.py:98 | `len(np.unique(y)) == 1` holds exactly when y is non-empty with all labels equal |
| Common.CannotSplitMeans | src/learn/dt.py:96-98 | `CannotSplit` (`_cannot_split`) holds exactly when the node has at most leaf_size rows, or has rows that all carry the same label |
| Common.MostCommon | src/learn/dt.py:124 | `most_common(1)[0][0]` is a label of y of highest count, and no label of that count occurs before it |
| Common.SplitedIffBothSides | src/learn/dt.py:100-104 | `splited` (the mask holds both values) holds exactly when both sides of the partition are non-empty |
| SplitSearch.BestSplit | src/learn/dt.py:36-47 | The threshold is an observed value of the column, and the returned gain is the gain of that threshold |
| SplitSearch.BestSplitIsBest | src/learn/dt.py:38-47 | No observed value of the column gains more than the chosen threshold, and every smaller observed value gains strictly less: ties go to the smallest threshold |
| SplitSearch.FindBestSplit | src/learn/dt.py:36-47 | The loop over `np.unique(vals)` followed by `argmax` returns exactly `BestSplit` |
| SplitSearch.BestFeature | src/learn/dt.py:50-71 | Errors when there are no rows or no features. Otherwise it returns an existing feature with that feature's threshold, and the threshold is an observed value of its column |
| SplitSearch.BestFeatureIsBest | src/learn/dt.py:60-71 | The chosen feature has the largest score, and every feature before it a strictly smaller one (a constant column scores 0.0) |
| SplitSearch.FindBestFeature | src/learn/dt.py:50-71 | The loop over the features, with the constant-column shortcut and `argmax`, returns exactly `BestFeature` |
| SplitSearch.GetPearsonr | src/learn/dt.py:7-8 | `abs(pearsonr(...)[0])` is non-negative and is the correlation or its negation |
| SplitSearch.CriterionScores | src/learn/dt.py:87-94 | One `(score, i)` pair per feature, in feature order, every score non-negative. A constant column scores 0 and any other column its absolute correlation |
| SplitSearch.SortPairs | src/learn/dt.py:91 | `sorted` on `(score, index)` tuples: ascending in Python's tuple order, and a permutation |
| SplitSearch.RankFeatures | src/learn/dt.py:87-94 | Every feature index of the ranking is a column of the data |
| SplitSearch.RankFeaturesSorted | src/learn/dt.py:87-94 | The ranking is sorted and is a permutation of the scores |
| SplitSearch.RankedScore | src/learn/dt.py:87-94 | Every pair of the ranking is the score of the feature it names |
| SplitSearch.ConstantRankedLast | src/learn/dt.py:87-94 | A constant column (score 0) is ranked below every column of positive score (`get_pearsonr` is never negative), so the loop that pops from the end tries it after them |
| SplitSearch.ConstantNeverSplits | src/learn/dt.py:134-140 | A constant column never splits at its median, whatever the median |
| SplitSearch.TwoSidedNotConstant | src/learn/dt.py:27-34 | A split with rows on both sides is not on a constant column |
| SplitSearch.LastSplitting | src/learn/dt.py:134-140 | The position where the popping loop stops: a candidate that splits, with none after it that splits |
| SplitSearch.PopUntilSplit | src/learn/dt.py:133-143 | Returns a split on the last splitting candidate and its median when that candidate is not the first one in the list, and no split otherwise |
| SplitSearch.GainLeftNonEmpty | src/learn/dt.py:151-153 | The left side of an information-gain split is never empty |
| SplitSearch.GainStep | src/learn/dt.py:150-156 | An information-gain split recurses one level deeper |
| SplitSearch.GainStepSplits | src/learn/dt.py:237-249 | A split happens only below the depth limit, on splittable labels and on an existing feature. Its left side is non-empty, and its right side is empty only under a depth limit |
| SplitSearch.DegenerateGainFails | src/learn/dt.py:151-155 | A split that sends no row right, with no depth limit, is reported as `RecursionLimit` |
| SplitSearch.GainStepUnlimited | src/learn/dt.py:123 | With `max_depth` None or 0, the step depends neither on the depth nor on which of the two is given |
| FlatTree.Flatten | src/learn/dt.py:147-148 | The table of a tree with L leaves has 2L-1 rows, and its first row is a leaf row exactly when the tree is a leaf |
| FlatTree.FlattenValid | src/learn/dt.py:147-148 | Every internal row of a built table has offsets that move forward and stay inside the table |
| FlatTree.SearchFlatten | src/learn/dt.py:164-181 | Searching from the row where a subtree's rows start, in any table that contains them, answers as that subtree does |
| FlatTree.SearchRoot | src/learn/dt.py:164-181 | `_search_point(point, row=0)` on a built table answers as the tree does |
| FlatTree.SearchEndsAtLeaf | src/learn/dt.py:164-181 | `Search` (the table walk of `_search_point`) on any valid table ends on a leaf row at or after its start row and answers that row's value |
| FlatTree.PearsonrChoiceSplits | src/learn/dt.py:132-145 | A 'pearsonr' split is on an existing feature and leaves rows on both sides |
| FlatTree.PearsonrFallback | src/learn/dt.py:133-143 | `PearsonrChoice` (the ranking and pop loop that picks the 'pearsonr' split) gives None, so the node becomes a leaf, exactly when no ranked feature except the lowest-ranked one splits at its median. Otherwise the chosen feature splits, at its median |
| FlatTree.PearsonrPicksGreatest | src/learn/dt.py:134-140 | The chosen feature's `(score, index)` pair is the greatest, in tuple order, among the splitting candidates other than the lowest-ranked one: the highest score wins, and among equal scores the highest index |
| FlatTree.Decide | src/learn/dt.py:123-156 | A 'pearsonr' split passes its depth on unchanged; an information-gain split adds one |
| FlatTree.DecideSplits | src/learn/dt.py:123-156 | A split happens only below the depth limit, on splittable labels and on an existing feature. Its left side is non-empty, and its right side is empty only for information gain under a depth limit |
| FlatTree.GrowSplit | src/learn/dt.py:106-161 | `Grow`, the value-level `DecisionTree._build_tree` (its table is `Flatten`, searched as `SearchFlatten` states): a node that splits is its own row over the trees grown from its two sides. Each side has fewer rows or less depth budget left |
| FlatTree.GrowFeaturesBelow | src/learn/dt.py:106-161 | Every split feature of a built tree is a column of the data |
| FlatTree.GrowLeafCount | src/learn/dt.py:106-161 | A built tree has between 1 and \|y\| leaves, so its table has at most 2\|y\|-1 rows |
| FlatTree.GrowPredictsLabel | src/learn/dt.py:106-161 | Every prediction of a built tree is one of its training labels |
| FlatTree.GainHeightBounded | src/learn/dt.py:123-125 | With information gain and a depth limit, the tree is no taller than the levels left |
| FlatTree.DecideUnlimited | src/learn/dt.py:123 | With `max_depth` None or 0, one node's decision ignores the depth and which of the two is given |
| FlatTree.UnlimitedIgnoresDepth | src/learn/dt.py:123 | With `max_depth` None or 0, the whole tree is the same for any depth and either setting |
| FlatTree.DegenerateSplitRepeats | src/learn/dt.py:151-155 | A split that sends no row right, with no depth limit, calls itself again with the same rows |
| FlatTree.GainEmptyRightRaises | src/learn/dt.py:150-161 | Under a depth limit, an information-gain split that sends no row right makes the whole build raise `EmptyLabels`: the left call repeats the split on the same rows down to the limit before any right call runs, and the first right call, at the limit, raises the `IndexError` of `most_common(1)[0]` at dt.py:124 |
| FlatTree.PearsonrDepthOnlyAtRoot | src/learn/dt.py:145-146 | Under 'pearsonr', a depth limit that does not stop the root changes nothing |
| FlatTree.GrowNothing | src/learn/dt.py:129 | Building from no rows raises `EmptyLabels` |
| FlatTree.RootSplitTwoSided | src/learn/dt.py:132-161 | A built tree that splits at its root sends rows both ways |
| FlatTree.RootSplitNotConstant | src/learn/dt.py:58-63 | A built tree never splits its root on a constant column |
| FlatTree.PureNodeIsLeaf | src/learn/dt.py:127-130 | A node whose labels all agree becomes a leaf holding that label |
| FlatTree.PredictSearches | src/learn/dt.py:200 | For every point that has each split feature of the tree, searching from row 0 answers as the tree does |
| FlatTree.FeaturesBelowWider | src/learn/dt.py:177 | If every split feature indexes an n-feature point, it indexes every wider point too; since the fitted tree's features are below the training width, any point at least that wide can be predicted |
| FlatTree.DecisionTree.constructor | src/learn/dt.py:76-85 | Stores criterion and max_depth, fixes leaf_size at 1, starts with no table |
| FlatTree.DecisionTree.LeafTable | src/learn/dt.py:124 | The leaf row `[-1, most_common, nan, nan]`, or `EmptyLabels` for no labels |
| FlatTree.DecisionTree.BuildTree | src/learn/dt.py:106-161 | `_build_tree` returns the table of `Grow`, or its error |
| FlatTree.DecisionTree.BuildByCorrelation | src/learn/dt.py:132-149 | The 'pearsonr' branch returns the table of `Grow` |
| FlatTree.DecisionTree.BuildByGain | src/learn/dt.py:150-161 | The information-gain branch returns the table of `Grow` |
| FlatTree.DecisionTree.BuildChildren | src/learn/dt.py:145-148 | Left then right subtree under the row `[f, t, 1, len(left) + 1]`; the left error is raised first |
| FlatTree.DecisionTree.Fit | src/learn/dt.py:183-190 | The first fit stores the table of the tree grown from depth 0. On an error, or on a fitted estimator (`AmbiguousTruth`), the table, the fitted tree and the width all stay as they were, so the estimator still predicts as before |
| FlatTree.DecisionTree.Predict | src/learn/dt.py:192-201 | One prediction per point, in order, each the fitted tree's answer, for points that have every split feature of the tree |
| LinkedTree.MajorityVal | src/learn/dt.py:218-222 | The value is 0 or 1, and it is 1 exactly when ones strictly outnumber zeros |
| LinkedTree.GrowDSplit | src/learn/dt.py:234-260 | `GrowD`, the value-level `DecisionTreeD._build_tree` (its counts add up as `SplitCounts` states): a node that splits joins the trees grown from its two sides at depth + 1, with its majority value. Each side has fewer rows or less depth budget left |
| LinkedTree.SplitCounts | src/learn/dt.py:259 | `l0 + r0` and `l1 + r1` are the node's counts of zeros and ones |
| LinkedTree.GrowDFeaturesBelow | src/learn/dt.py:234-260 | Every split feature of a built tree is a column of the data |
| LinkedTree.GrowDRootVal | src/learn/dt.py:259 | The root's value is the majority label of all its rows |
| LinkedTree.GrowDHeightBounded | src/learn/dt.py:237-249 | With a depth limit, the tree is no taller than the levels left |
| LinkedTree.GrowDUnlimitedIgnoresDepth | src/learn/dt.py:237 | With `max_depth` None or 0, the tree is the same for any depth and either setting |
| LinkedTree.GrowDTotal | src/learn/dt.py:234-260 | With a depth limit, a feature and a non-negative leaf size, building never raises |
| LinkedTree.PureNodeIsLeafD | src/learn/dt.py:240-241 | A node whose labels all agree is a leaf of value 1 when the label is 1, and 0 otherwise |
| LinkedTree.GrowDNoRows | src/learn/dt.py:237-243 | A node with no rows is a leaf of value 0 when the depth limit is reached or leaf_size is at least 0, and otherwise raises `EmptyData` (`X[0]`) |
| LinkedTree.GrowDEmptyRight | src/learn/dt.py:243-258 | When leaf_size >= 0, an information-gain split that sends no row right does not raise: its right child is a leaf of value 0. A negative leaf_size raises at dt.py:54 instead (`GrowDNoRows`) |
| LinkedTree.TreeNode.Leaf | src/learn/dt.py:227-229 | A fresh valid leaf with the given value and parent |
| LinkedTree.TreeNode.Internal | src/learn/dt.py:246-252 | A fresh internal node with feature, threshold and parent |
| LinkedTree.LeafNodesAreLeaves | src/learn/dt.py:224-231 | Each node's value is its tree's value. Its leaf list has one entry per leaf of the tree, and every entry is a leaf node below it |
| LinkedTree.SearchPoint | src/learn/dt.py:272-279 | `_search_point` answers as the tree the node describes |
| LinkedTree.DecisionTreeD.constructor | src/learn/dt.py:206-213 | Stores leaf_size and max_depth, with no leaves and no root |
| LinkedTree.DecisionTreeD.GetVal | src/learn/dt.py:218-222 | Sets the node's value to the majority of the counts, and keeps a valid node valid when its value is already that majority |
| LinkedTree.DecisionTreeD.GetLeafNode | src/learn/dt.py:224-231 | Returns the counts of zeros and ones, and a fresh leaf with the majority value and the given parent, appended to `leaves` |
| LinkedTree.DecisionTreeD.BuildTree | src/learn/dt.py:234-260 | Succeeds exactly when `GrowD` does, with the same error otherwise. On success it returns the counts and a fresh valid node with the given parent describing `GrowD`'s tree, and `leaves` gains that node's leaves in order |
| LinkedTree.DecisionTreeD.BuildSplit | src/learn/dt.py:246-260 | The same, for a node that splits |
| LinkedTree.DecisionTreeD.BuildChildren | src/learn/dt.py:253-258 | Left then right, both with the new node as parent. The left error is raised first. On success the counts add up, the two subtrees are disjoint, and `leaves` gains the left leaves then the right |
| LinkedTree.DecisionTreeD.Assemble | src/learn/dt.py:253-259 | Sets the children, then `_get_val` the value: the node is valid and describes the split over its children |
| LinkedTree.DecisionTreeD.Fit | src/learn/dt.py:262-270 | On an error the root is empty. Otherwise the root describes `GrowD`'s tree from depth 0 and has the majority value, and `leaves` keeps the earlier fits' leaves, followed by the new ones |
| LinkedTree.DecisionTreeD.SetRoot | src/learn/dt.py:264 | `self.tree['root']` is the built node, and the estimator is valid |
| LinkedTree.DecisionTreeD.Predict | src/learn/dt.py:285-291 | The fitted tree's answer for a record that has every split feature of the tree |
| LinkedTree.DecisionTreeD.BunchPredict | src/learn/dt.py:281-283 | One answer per point, in order, each `Predict` of that point |
| LinkedTree.WideEnough | src/learn/dt.py:276 | If every split feature indexes an n-feature record, it indexes every wider record too; since the fitted tree's features are below the training width, any record at least that wide can be classified |

## Left out

- Numerics are left abstract: `entropy`, `_information_gain`,
  `pearsonr(...)[0]` (`scipy.stats.pearsonr`) and `np.median` are parameters, because they are
  floating point. Real numbers stand for numpy floats.
- The NaN offsets of leaf rows are held as 0. They are never read, because
  `_search_point` stops at a leaf row.
- `verbose` printing and `BaseEstimator` (parameter handling) are I/O and
  library plumbing.
- The re-fit of `DecisionTree.fit` is modelled as an error. `not self.tree`
  on a non-empty numpy table raises `ValueError`, so the `np.vstack` branch
  is never reached. `Fit` models it as `AmbiguousTruth`, with the table
  unchanged.
- `RecursionLimit` stands for Python's `RecursionError`. It is raised only
  for the one input that recurses forever: an information-gain split with no
  row on the right and no depth limit. Any other error that stack depth
  could cause in Python is not modelled.
- `DecisionTreeD` labels other than 0 and 1 are counted in neither `c0` nor
  `c1`, exactly as `Counter` lookups do. Nothing else is said about such
  labels.
- `LinkedTree.DecisionTreeD.BuildSplit`: the Python code stores
  `node['left']` before it builds the right subtree. The model attaches both
  children after both builds. No code reads the link in between, so the
  final state is the same.
- `DecisionTreeD._build_tree` sets `node['parent']` only when the parent is
  truthy. The model sets it in every case; the root's parent is `null`,
  which stands for the absent key.
- Prediction on an unfitted estimator is not modelled. Python raises there:
  `DecisionTree.predict` indexes `None`, and `DecisionTreeD.predict` and
  `bunch_predict` read a missing `self.tree`. The model's `Predict` and
  `BunchPredict` require a fitted estimator.
- LinkedTree.DecisionTreeD.Fit: after a failed fit, the contract promises only that
  `leaves` still starts with the earlier leaves. Python's `leaves` has by then
  also gained the leaves built before the failure. Which leaves those are is
  not specified, since the failed build has no tree to take them from.
- Prediction on a point that lacks a split feature of the tree is not
  modelled. Python reads only the features on the point's path: it answers
  when that path stays inside the point, and raises `IndexError` at
  `point[int(loc)]` (dt.py:177, dt.py:276) when it does not. The model's
  `Predict` and `BunchPredict` require every split feature of the tree to
  exist in each point. So they cover neither the narrow points Python still
  answers nor the `IndexError` path. Points at least as wide as the
  training rows always qualify (`FeaturesBelowWider`, `WideEnough`).
- Integer widths are not modelled: feature indices and counts are unbounded.
