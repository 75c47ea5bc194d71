/** DecisionTreeD of src/learn/dt.py: a binary classifier (labels 0 and 1)
    grown by information gain into linked node records. Every node records
    its parent and a value, the label in the majority among the rows that
    reach it (ties go to 0), and every leaf is also appended, in the order
    it is built, to a list the estimator keeps. */
module LinkedTree {
  import opened Common
  import opened SplitSearch

  /** The tree a root node describes; every node carries its value. */
  datatype DTree =
    | DLeaf(val: nat)
    | DSplit(feature: nat, threshold: real, val: nat, left: DTree, right: DTree)

  /** The value _get_val and get_leaf_node store for c0 zeros and c1 ones:
      1 only when ones strictly outnumber zeros. */
  function MajorityVal(c0: nat, c1: nat): (v: nat)
    ensures v == 0 || v == 1
    ensures v == 1 <==> c1 > c0
  {
    if c0 >= c1 then 0 else 1
  }

  /** The value of a node whose rows carry the labels y. */
  function Majority(y: seq<real>): nat {
    MajorityVal(Count(y, 0.0), Count(y, 1.0))
  }

  ghost predicate FeaturesBelowD(t: DTree, n: nat) {
    match t
    case DLeaf(_) => true
    case DSplit(f, _, _, l, r) => f < n && FeaturesBelowD(l, n) && FeaturesBelowD(r, n)
  }

  function LeafCountD(t: DTree): nat {
    match t
    case DLeaf(_) => 1
    case DSplit(_, _, _, l, r) => LeafCountD(l) + LeafCountD(r)
  }

  function HeightD(t: DTree): nat {
    match t
    case DLeaf(_) => 0
    case DSplit(_, _, _, l, r) => 1 + if HeightD(l) < HeightD(r) then HeightD(r) else HeightD(l)
  }

  /** The answer of the tree for a point: the value of the leaf reached by
      going left when point[feature] <= threshold. */
  function Classify(t: DTree, point: seq<real>): nat
    requires FeaturesBelowD(t, |point|)
  {
    match t
    case DLeaf(v) => v
    case DSplit(f, th, _, l, r) => if point[f] <= th then Classify(l, point) else Classify(r, point)
  }

  function JoinD(f: nat, t: real, v: nat, l: Result<DTree>, r: Result<DTree>): Result<DTree> {
    if l.Err? then l else if r.Err? then r else Ok(DSplit(f, t, v, l.value, r.value))
  }

  /** DecisionTreeD._build_tree as a value. */
  function GrowD(X: Matrix, y: seq<real>, n: nat, depth: int, leafSize: int,
                 maxDepth: Option<int>, gain: GainFn): Result<DTree>
    requires |X| == |y| && Shaped(X, n)
    decreases |y|, Budget(maxDepth, depth)
  {
    match GainStep(X, y, n, depth, leafSize, maxDepth, gain)
    case MakeLeaf => Ok(DLeaf(Majority(y)))
    case Fail(e) => Err(e)
    case SplitAt(f, t, d) =>
      GainStepSplits(X, y, n, depth, leafSize, maxDepth, gain, f, t, d);
      var p := Partition(X, y, f, t);
      JoinD(f, t, Majority(y), GrowD(p.xLeft, p.yLeft, n, d, leafSize, maxDepth, gain),
                               GrowD(p.xRight, p.yRight, n, d, leafSize, maxDepth, gain))
  }

  /** The tree of a node split on feature f at threshold t: its majority
      value over the trees grown from its two sides at depth d. */
  function SplitTree(X: Matrix, y: seq<real>, n: nat, d: int, leafSize: int,
                     maxDepth: Option<int>, gain: GainFn, f: nat, t: real): Result<DTree>
    requires |X| == |y| && HasColumn(X, f)
    requires Shaped(Partition(X, y, f, t).xLeft, n) && Shaped(Partition(X, y, f, t).xRight, n)
  {
    var p := Partition(X, y, f, t);
    JoinD(f, t, Majority(y), GrowD(p.xLeft, p.yLeft, n, d, leafSize, maxDepth, gain),
                             GrowD(p.xRight, p.yRight, n, d, leafSize, maxDepth, gain))
  }

  /** A node that splits is the join of the trees grown from its two sides,
      each holding fewer rows or a smaller depth budget. */
  lemma GrowDSplit(X: Matrix, y: seq<real>, n: nat, depth: int, leafSize: int,
                   maxDepth: Option<int>, gain: GainFn, f: nat, t: real)
    requires |X| == |y| && Shaped(X, n)
    requires GainStep(X, y, n, depth, leafSize, maxDepth, gain) == SplitAt(f, t, depth + 1)
    ensures HasColumn(X, f)
    ensures Shaped(Partition(X, y, f, t).xLeft, n) && Shaped(Partition(X, y, f, t).xRight, n)
    ensures Shrinks(y, Partition(X, y, f, t).yLeft, maxDepth, depth, depth + 1)
    ensures Shrinks(y, Partition(X, y, f, t).yRight, maxDepth, depth, depth + 1)
    ensures GrowD(X, y, n, depth, leafSize, maxDepth, gain) ==
              SplitTree(X, y, n, depth + 1, leafSize, maxDepth, gain, f, t)
  {
    GainStepSplits(X, y, n, depth, leafSize, maxDepth, gain, f, t, depth + 1);
  }

  /** The zeros and ones of a node are those of its two sides together. */
  lemma SplitCounts(X: Matrix, y: seq<real>, f: nat, t: real)
    requires |X| == |y| && HasColumn(X, f)
    ensures var p := Partition(X, y, f, t);
            Count(p.yLeft, 0.0) + Count(p.yRight, 0.0) == Count(y, 0.0) &&
            Count(p.yLeft, 1.0) + Count(p.yRight, 1.0) == Count(y, 1.0)
  {
    PartitionCounts(X, y, f, t);
  }

  lemma AppendAssoc(a: seq<TreeNode>, b: seq<TreeNode>, c: seq<TreeNode>)
    ensures (a + b) + c == a + (b + c)
  {
  }

  /** Every split feature of a grown tree is a column of the data. */
  lemma {:induction false} GrowDFeaturesBelow(X: Matrix, y: seq<real>, n: nat, depth: int, leafSize: int,
                                              maxDepth: Option<int>, gain: GainFn)
    requires |X| == |y| && Shaped(X, n)
    requires GrowD(X, y, n, depth, leafSize, maxDepth, gain).Ok?
    ensures FeaturesBelowD(GrowD(X, y, n, depth, leafSize, maxDepth, gain).value, n)
    decreases |y|, Budget(maxDepth, depth)
  {
    match GainStep(X, y, n, depth, leafSize, maxDepth, gain)
    case MakeLeaf =>
    case Fail(_) =>
    case SplitAt(f, t, d) =>
      GainStepSplits(X, y, n, depth, leafSize, maxDepth, gain, f, t, d);
      var p := Partition(X, y, f, t);
      GrowDFeaturesBelow(p.xLeft, p.yLeft, n, d, leafSize, maxDepth, gain);
      GrowDFeaturesBelow(p.xRight, p.yRight, n, d, leafSize, maxDepth, gain);
  }

  /** The value at the root of a grown tree is the majority of all its labels. */
  lemma GrowDRootVal(X: Matrix, y: seq<real>, n: nat, depth: int, leafSize: int,
                     maxDepth: Option<int>, gain: GainFn)
    requires |X| == |y| && Shaped(X, n)
    requires GrowD(X, y, n, depth, leafSize, maxDepth, gain).Ok?
    ensures GrowD(X, y, n, depth, leafSize, maxDepth, gain).value.val == Majority(y)
  {
  }

  /** The depth grows by one per level, so a depth limit bounds the height
      of the tree by the levels it has left. */
  lemma {:induction false} GrowDHeightBounded(X: Matrix, y: seq<real>, n: nat, depth: int, leafSize: int,
                                              maxDepth: Option<int>, gain: GainFn)
    requires |X| == |y| && Shaped(X, n) && Limited(maxDepth)
    requires GrowD(X, y, n, depth, leafSize, maxDepth, gain).Ok?
    ensures HeightD(GrowD(X, y, n, depth, leafSize, maxDepth, gain).value) <= Budget(maxDepth, depth)
    decreases |y|, Budget(maxDepth, depth)
  {
    match GainStep(X, y, n, depth, leafSize, maxDepth, gain)
    case MakeLeaf =>
    case Fail(_) =>
    case SplitAt(f, t, d) =>
      GainStepSplits(X, y, n, depth, leafSize, maxDepth, gain, f, t, d);
      var p := Partition(X, y, f, t);
      GrowDHeightBounded(p.xLeft, p.yLeft, n, d, leafSize, maxDepth, gain);
      GrowDHeightBounded(p.xRight, p.yRight, n, d, leafSize, maxDepth, gain);
  }

  /** Without a depth limit in force (None or 0), neither the depth nor which
      of the two settings is used changes the tree. */
  lemma {:induction false} GrowDUnlimitedIgnoresDepth(X: Matrix, y: seq<real>, n: nat, d1: int, d2: int, leafSize: int,
                                                      m1: Option<int>, m2: Option<int>, gain: GainFn)
    requires |X| == |y| && Shaped(X, n) && !Limited(m1) && !Limited(m2)
    ensures GrowD(X, y, n, d1, leafSize, m1, gain) == GrowD(X, y, n, d2, leafSize, m2, gain)
    decreases |y|
  {
    GainStepUnlimited(X, y, n, d1, d2, leafSize, m1, m2, gain);
    var s1 := GainStep(X, y, n, d1, leafSize, m1, gain);
    var s2 := GainStep(X, y, n, d2, leafSize, m2, gain);
    if s1.SplitAt? {
      var f, t := s1.feature, s1.threshold;
      GainStepSplits(X, y, n, d1, leafSize, m1, gain, f, t, s1.nextDepth);
      GainStepSplits(X, y, n, d2, leafSize, m2, gain, f, t, s2.nextDepth);
      var p := Partition(X, y, f, t);
      GrowDUnlimitedIgnoresDepth(p.xLeft, p.yLeft, n, s1.nextDepth, s2.nextDepth, leafSize, m1, m2, gain);
      GrowDUnlimitedIgnoresDepth(p.xRight, p.yRight, n, s1.nextDepth, s2.nextDepth, leafSize, m1, m2, gain);
      assert GrowD(X, y, n, d1, leafSize, m1, gain)
          == JoinD(f, t, Majority(y), GrowD(p.xLeft, p.yLeft, n, s1.nextDepth, leafSize, m1, gain),
                                      GrowD(p.xRight, p.yRight, n, s1.nextDepth, leafSize, m1, gain));
      assert GrowD(X, y, n, d2, leafSize, m2, gain)
          == JoinD(f, t, Majority(y), GrowD(p.xLeft, p.yLeft, n, s2.nextDepth, leafSize, m2, gain),
                                      GrowD(p.xRight, p.yRight, n, s2.nextDepth, leafSize, m2, gain));
    }
  }

  /** With a depth limit, at least one feature and a leaf size of at least 0,
      building never raises: a node with no rows is always a leaf (value 0),
      and a split that sends no row right recurses one level deeper. */
  lemma {:induction false} GrowDTotal(X: Matrix, y: seq<real>, n: nat, depth: int, leafSize: int,
                                      maxDepth: Option<int>, gain: GainFn)
    requires |X| == |y| && Shaped(X, n) && Limited(maxDepth) && n > 0 && leafSize >= 0
    ensures GrowD(X, y, n, depth, leafSize, maxDepth, gain).Ok?
    decreases |y|, Budget(maxDepth, depth)
  {
    if !DepthReached(maxDepth, depth) && !CannotSplit(y, leafSize) {
      assert |X| > 0 && |X[0]| == n;
      var c := BestFeature(X, y, gain).value;
      assert GainStep(X, y, n, depth, leafSize, maxDepth, gain) == SplitAt(c.0, c.1, depth + 1);
      GrowDSplit(X, y, n, depth, leafSize, maxDepth, gain, c.0, c.1);
      var p := Partition(X, y, c.0, c.1);
      GrowDTotal(p.xLeft, p.yLeft, n, depth + 1, leafSize, maxDepth, gain);
      GrowDTotal(p.xRight, p.yRight, n, depth + 1, leafSize, maxDepth, gain);
    }
  }

  /** A node with no rows is a leaf of value 0 (no label counts) when the
      depth limit is reached or leaf_size is at least 0; otherwise
      _find_best_feature raises on X[0]. */
  lemma GrowDNoRows(X: Matrix, y: seq<real>, n: nat, depth: int, leafSize: int,
                    maxDepth: Option<int>, gain: GainFn)
    requires |X| == |y| == 0 && Shaped(X, n)
    ensures GrowD(X, y, n, depth, leafSize, maxDepth, gain) ==
              if DepthReached(maxDepth, depth) || leafSize >= 0 then Ok(DLeaf(0)) else Err(EmptyData)
  {
    assert Unique(y) == [];
    assert Count(y, 0.0) == 0 && Count(y, 1.0) == 0;
  }

  /** Unlike DecisionTree, DecisionTreeD does not raise on an information-gain
      split that sends no row right (possible under a depth limit): the right
      child is a leaf of value 0 that holds no rows. */
  lemma GrowDEmptyRight(X: Matrix, y: seq<real>, n: nat, depth: int, leafSize: int,
                        maxDepth: Option<int>, gain: GainFn, f: nat, t: real)
    requires |X| == |y| && Shaped(X, n) && HasColumn(X, f) && leafSize >= 0
    requires GainStep(X, y, n, depth, leafSize, maxDepth, gain) == SplitAt(f, t, depth + 1)
    requires |Partition(X, y, f, t).xRight| == 0
    ensures GrowD(Partition(X, y, f, t).xRight, Partition(X, y, f, t).yRight, n, depth + 1, leafSize, maxDepth, gain)
              == Ok(DLeaf(0))
    ensures GrowD(X, y, n, depth, leafSize, maxDepth, gain).Ok? ==>
              GrowD(X, y, n, depth, leafSize, maxDepth, gain).value.DSplit? &&
              GrowD(X, y, n, depth, leafSize, maxDepth, gain).value.right == DLeaf(0)
  {
    GrowDSplit(X, y, n, depth, leafSize, maxDepth, gain, f, t);
    var p := Partition(X, y, f, t);
    GrowDNoRows(p.xRight, p.yRight, n, depth + 1, leafSize, maxDepth, gain);
  }

  /** A node whose labels all agree becomes a leaf; its value is 1 when the
      label is 1 and 0 for any other label. */
  lemma PureNodeIsLeafD(X: Matrix, y: seq<real>, n: nat, depth: int, leafSize: int,
                        maxDepth: Option<int>, gain: GainFn)
    requires |X| == |y| && Shaped(X, n)
    requires |y| > 0 && forall i :: 0 <= i < |y| ==> y[i] == y[0]
    ensures GrowD(X, y, n, depth, leafSize, maxDepth, gain) == Ok(DLeaf(if y[0] == 1.0 then 1 else 0))
  {
    UniqueSingleton(y);
    assert multiset(y)[y[0]] == |y| by {
      assert y == seq(|y|, i => y[0]);
      ConstantMultiset(y[0], |y|);
    }
    assert CannotSplit(y, 1) || CannotSplit(y, leafSize);
    assert GainStep(X, y, n, depth, leafSize, maxDepth, gain) == MakeLeaf;
  }

  lemma {:induction false} ConstantMultiset(v: real, k: nat)
    ensures multiset(seq(k, i => v))[v] == k
  {
    if k > 0 {
      assert seq(k, i => v) == seq(k - 1, i => v) + [v];
      ConstantMultiset(v, k - 1);
    }
  }

  /** A node of the linked tree: the dictionary _build_tree makes. */
  class TreeNode {
    var isLeaf: bool
    var val: nat
    var featureToSplit: nat
    var splitVal: real
    var left: TreeNode?
    var right: TreeNode?
    var parent: TreeNode?
    /** The node and everything below it. */
    ghost var footprint: set<TreeNode>
    ghost var content: DTree
    /** The leaves below the node, from left to right. */
    ghost var leafNodes: seq<TreeNode>

    ghost predicate Valid()
      reads this, footprint
      decreases footprint
    {
      this in footprint &&
      if isLeaf then
        left == null && right == null && content == DLeaf(val) && leafNodes == [this]
      else
        left != null && right != null &&
        left in footprint && left.footprint <= footprint && this !in left.footprint &&
        right in footprint && right.footprint <= footprint && this !in right.footprint &&
        left.footprint !! right.footprint &&
        left.parent == this && right.parent == this &&
        left.Valid() && right.Valid() &&
        content == DSplit(featureToSplit, splitVal, val, left.content, right.content) &&
        leafNodes == left.leafNodes + right.leafNodes
    }

    /** {'is_leaf': True, 'val': val, 'parent': parent} */
    constructor Leaf(val: nat, parent: TreeNode?)
      ensures Valid() && fresh(footprint) && footprint == {this}
      ensures this.parent == parent && isLeaf && content == DLeaf(val) && leafNodes == [this]
    {
      isLeaf := true;
      this.val := val;
      this.parent := parent;
      left := null;
      right := null;
      footprint := {this};
      content := DLeaf(val);
      leafNodes := [this];
    }

    /** {'is_leaf': False, 'feature_to_split': f, 'split_val': t}, with
        'parent' set when there is one; its children and value come later. */
    constructor Internal(featureToSplit: nat, splitVal: real, parent: TreeNode?)
      ensures !isLeaf && this.featureToSplit == featureToSplit && this.splitVal == splitVal
      ensures this.parent == parent
    {
      isLeaf := false;
      this.featureToSplit := featureToSplit;
      this.splitVal := splitVal;
      this.parent := parent;
      left := null;
      right := null;
      val := 0;
    }

    /** Completes the ghost description of an internal node once both
        children and its value are in place. */
    ghost method Seal()
      requires !isLeaf && left != null && right != null
      requires left.Valid() && right.Valid() && left.parent == this && right.parent == this
      requires this !in left.footprint && this !in right.footprint && left.footprint !! right.footprint
      modifies this`footprint, this`content, this`leafNodes
      ensures Valid() && footprint == {this} + left.footprint + right.footprint
      ensures content == DSplit(featureToSplit, splitVal, val, left.content, right.content)
      ensures leafNodes == left.leafNodes + right.leafNodes
    {
      footprint := {this} + left.footprint + right.footprint;
      content := DSplit(featureToSplit, splitVal, val, left.content, right.content);
      leafNodes := left.leafNodes + right.leafNodes;
    }
  }

  /** Every node's value is that of the tree it describes, and the leaf list
      below it holds as many leaves as that tree has, all of them leaves. */
  lemma {:induction false} LeafNodesAreLeaves(node: TreeNode)
    requires node.Valid()
    ensures node.val == node.content.val
    ensures |node.leafNodes| == LeafCountD(node.content)
    ensures forall i :: 0 <= i < |node.leafNodes| ==> node.leafNodes[i] in node.footprint && node.leafNodes[i].isLeaf
    decreases node.footprint
  {
    if !node.isLeaf {
      LeafNodesAreLeaves(node.left);
      LeafNodesAreLeaves(node.right);
    }
  }

  /** DecisionTreeD._search_point */
  function SearchPoint(point: seq<real>, node: TreeNode): (v: nat)
    reads node, node.footprint
    requires node.Valid() && FeaturesBelowD(node.content, |point|)
    ensures v == Classify(node.content, point)
    decreases node.footprint
  {
    if node.isLeaf then node.val
    else if point[node.featureToSplit] <= node.splitVal then SearchPoint(point, node.left)
    else SearchPoint(point, node.right)
  }

  /** A DecisionTreeD estimator: `root` is self.tree['root'] (null while
      self.tree is empty), `leaves` the list every built leaf is appended to. */
  class DecisionTreeD {
    const leafSize: int
    const maxDepth: Option<int>
    const gain: GainFn
    var leaves: seq<TreeNode>
    var root: TreeNode?
    ghost var Repr: set<TreeNode>
    ghost var width: nat

    ghost predicate Valid()
      reads this, Repr
    {
      root != null ==>
        root in Repr && root.footprint <= Repr && root.Valid() && root.parent == null &&
        FeaturesBelowD(root.content, width)
    }

    constructor (leafSize: int, maxDepth: Option<int>, gain: GainFn)
      ensures this.leafSize == leafSize && this.maxDepth == maxDepth && this.gain == gain
      ensures leaves == [] && root == null && Valid()
    {
      this.leafSize := leafSize;
      this.maxDepth := maxDepth;
      this.gain := gain;
      leaves := [];
      root := null;
      Repr := {};
      width := 0;
    }

    /** DecisionTreeD._get_val */
    method GetVal(c0: nat, c1: nat, node: TreeNode)
      modifies node`val
      ensures node.val == MajorityVal(c0, c1)
      ensures old(node.Valid()) && old(node.val) == MajorityVal(c0, c1) ==> node.Valid()
    {
      if c0 >= c1 {
        node.val := 0;
      } else {
        node.val := 1;
      }
    }

    /** DecisionTreeD.get_leaf_node: counts the zeros and ones, makes the
        leaf and appends it to `leaves`. */
    method GetLeafNode(y: seq<real>, parent: TreeNode?) returns (c0: nat, c1: nat, leafNode: TreeNode)
      modifies this`leaves
      ensures c0 == Count(y, 0.0) && c1 == Count(y, 1.0)
      ensures fresh(leafNode.footprint) && leafNode.Valid() && leafNode.parent == parent
      ensures leafNode.content == DLeaf(Majority(y)) && leafNode.leafNodes == [leafNode]
      ensures leaves == old(leaves) + [leafNode]
    {
      c0, c1 := Count(y, 0.0), Count(y, 1.0);
      if c0 >= c1 {
        leafNode := new TreeNode.Leaf(0, parent);
      } else {
        leafNode := new TreeNode.Leaf(1, parent);
      }
      leaves := leaves + [leafNode];
    }

    /** DecisionTreeD._build_tree: on success the counts of zeros and ones
        among y and a fresh node for the tree GrowD describes, whose leaves
        were appended to `leaves` in order; leaves appended before an error
        stay. */
    method BuildTree(X: Matrix, y: seq<real>, parent: TreeNode?, ghost n: nat, depth: int)
      returns (r: Result<(nat, nat, TreeNode)>)
      requires |X| == |y| && Shaped(X, n)
      modifies this`leaves
      ensures r.Ok? <==> GrowD(X, y, n, depth, leafSize, maxDepth, gain).Ok?
      ensures r.Err? ==> r.error == GrowD(X, y, n, depth, leafSize, maxDepth, gain).error
      ensures r.Ok? ==>
                r.value.0 == Count(y, 0.0) && r.value.1 == Count(y, 1.0) &&
                fresh(r.value.2.footprint) && r.value.2.Valid() && r.value.2.parent == parent &&
                r.value.2.content == GrowD(X, y, n, depth, leafSize, maxDepth, gain).value &&
                leaves == old(leaves) + r.value.2.leafNodes
      ensures old(leaves) <= leaves
      decreases |y|, Budget(maxDepth, depth), 2
    {
      if DepthReached(maxDepth, depth) {
        var c0, c1, leafNode := GetLeafNode(y, parent);
        return Ok((c0, c1, leafNode));
      }
      if CannotSplit(y, leafSize) {
        var c0, c1, leafNode := GetLeafNode(y, parent);
        return Ok((c0, c1, leafNode));
      }
      var best := FindBestFeature(X, y, gain);
      if best.Err? {
        return Err(best.error);
      }
      var featureToSplit, splitVal := best.value.0, best.value.1;
      GainLeftNonEmpty(X, y, gain);
      var p := Partition(X, y, featureToSplit, splitVal);
      if |p.yRight| == 0 && !Limited(maxDepth) {
        // the left call would get these very rows again, with no limit to stop it
        return Err(RecursionLimit);
      }
      assert GainStep(X, y, n, depth, leafSize, maxDepth, gain) == SplitAt(featureToSplit, splitVal, depth + 1);
      GrowDSplit(X, y, n, depth, leafSize, maxDepth, gain, featureToSplit, splitVal);
      r := BuildSplit(X, y, p, parent, n, depth, featureToSplit, splitVal);
    }

    /** The rest of _build_tree once the split is chosen: the node, its two
        subtrees one level deeper, and its value from the children's summed
        counts. */
    method BuildSplit(X: Matrix, y: seq<real>, p: Sides, parent: TreeNode?, ghost n: nat, depth: int,
                      featureToSplit: nat, splitVal: real)
      returns (r: Result<(nat, nat, TreeNode)>)
      requires |X| == |y| && HasColumn(X, featureToSplit) && p == Partition(X, y, featureToSplit, splitVal)
      requires Shaped(p.xLeft, n) && Shaped(p.xRight, n)
      requires Shrinks(y, p.yLeft, maxDepth, depth, depth + 1) && Shrinks(y, p.yRight, maxDepth, depth, depth + 1)
      modifies this`leaves
      ensures r.Ok? <==> SplitTree(X, y, n, depth + 1, leafSize, maxDepth, gain, featureToSplit, splitVal).Ok?
      ensures r.Err? ==> r.error == SplitTree(X, y, n, depth + 1, leafSize, maxDepth, gain, featureToSplit, splitVal).error
      ensures r.Ok? ==>
                r.value.0 == Count(y, 0.0) && r.value.1 == Count(y, 1.0) &&
                fresh(r.value.2.footprint) && r.value.2.Valid() && r.value.2.parent == parent &&
                r.value.2.content == SplitTree(X, y, n, depth + 1, leafSize, maxDepth, gain, featureToSplit, splitVal).value &&
                leaves == old(leaves) + r.value.2.leafNodes
      ensures old(leaves) <= leaves
      decreases |y|, Budget(maxDepth, depth), 1
    {
      var node := new TreeNode.Internal(featureToSplit, splitVal, parent);
      var children := BuildChildren(X, y, p, node, n, depth, featureToSplit, splitVal);
      if children.Err? {
        return Err(children.error);
      }
      var c0, c1, leftNode, rightNode := children.value.0, children.value.1, children.value.2, children.value.3;
      ghost var leftFootprint, rightFootprint := leftNode.footprint, rightNode.footprint;
      Assemble(node, leftNode, rightNode, c0, c1);
      assert fresh({node} + leftFootprint + rightFootprint);
      r := Ok((c0, c1, node));
    }

    /** The two recursive calls of _build_tree, left then right, both with
        the new node as parent: on success the summed counts of zeros and
        ones and the two subtrees, whose leaves were appended in order. */
    method BuildChildren(X: Matrix, y: seq<real>, p: Sides, node: TreeNode, ghost n: nat, depth: int,
                         featureToSplit: nat, splitVal: real)
      returns (r: Result<(nat, nat, TreeNode, TreeNode)>)
      requires |X| == |y| && HasColumn(X, featureToSplit) && p == Partition(X, y, featureToSplit, splitVal)
      requires Shaped(p.xLeft, n) && Shaped(p.xRight, n)
      requires Shrinks(y, p.yLeft, maxDepth, depth, depth + 1) && Shrinks(y, p.yRight, maxDepth, depth, depth + 1)
      modifies this`leaves
      ensures r.Ok? <==> GrowD(p.xLeft, p.yLeft, n, depth + 1, leafSize, maxDepth, gain).Ok? &&
                         GrowD(p.xRight, p.yRight, n, depth + 1, leafSize, maxDepth, gain).Ok?
      ensures r.Err? && GrowD(p.xLeft, p.yLeft, n, depth + 1, leafSize, maxDepth, gain).Err? ==>
                r.error == GrowD(p.xLeft, p.yLeft, n, depth + 1, leafSize, maxDepth, gain).error
      ensures r.Err? && GrowD(p.xLeft, p.yLeft, n, depth + 1, leafSize, maxDepth, gain).Ok? ==>
                r.error == GrowD(p.xRight, p.yRight, n, depth + 1, leafSize, maxDepth, gain).error
      ensures r.Ok? ==>
                r.value.2.content == GrowD(p.xLeft, p.yLeft, n, depth + 1, leafSize, maxDepth, gain).value &&
                r.value.3.content == GrowD(p.xRight, p.yRight, n, depth + 1, leafSize, maxDepth, gain).value
      ensures r.Ok? ==>
                r.value.0 == Count(y, 0.0) && r.value.1 == Count(y, 1.0) &&
                r.value.2.Valid() && r.value.3.Valid() && r.value.2.parent == node && r.value.3.parent == node &&
                fresh(r.value.2.footprint) && fresh(r.value.3.footprint) && r.value.2.footprint !! r.value.3.footprint &&
                node !in r.value.2.footprint && node !in r.value.3.footprint &&
                leaves == old(leaves) + (r.value.2.leafNodes + r.value.3.leafNodes)
      ensures old(leaves) <= leaves
      decreases |y|, Budget(maxDepth, depth), 0
    {
      var leftResult := BuildTree(p.xLeft, p.yLeft, node, n, depth + 1);
      if leftResult.Err? {
        return Err(leftResult.error);
      }
      var l0, l1, leftNode := leftResult.value.0, leftResult.value.1, leftResult.value.2;
      ghost var leftLeaves := leftNode.leafNodes;
      var rightResult := BuildTree(p.xRight, p.yRight, node, n, depth + 1);
      if rightResult.Err? {
        return Err(rightResult.error);
      }
      var r0, r1, rightNode := rightResult.value.0, rightResult.value.1, rightResult.value.2;
      AppendAssoc(old(leaves), leftLeaves, rightNode.leafNodes);
      SplitCounts(X, y, featureToSplit, splitVal);
      r := Ok((l0 + r0, l1 + r1, leftNode, rightNode));
    }

    /** The end of _build_tree for an internal node: node['left'] and
        node['right'] take the built subtrees, then _get_val sets its value
        from the summed counts. */
    method Assemble(node: TreeNode, l: TreeNode, r: TreeNode, c0: nat, c1: nat)
      requires !node.isLeaf && l.Valid() && r.Valid() && l.parent == node && r.parent == node
      requires node !in l.footprint && node !in r.footprint && l.footprint !! r.footprint
      modifies node
      ensures node.Valid() && node.footprint == {node} + old(l.footprint) + old(r.footprint)
      ensures node.content == DSplit(old(node.featureToSplit), old(node.splitVal), MajorityVal(c0, c1),
                                     old(l.content), old(r.content))
      ensures node.leafNodes == old(l.leafNodes) + old(r.leafNodes) && node.parent == old(node.parent)
    {
      node.left := l;
      node.right := r;
      GetVal(c0, c1, node);
      node.Seal();
    }

    /** DecisionTreeD.fit: empties self.tree, builds from depth 0 and stores
        the root, whose value _get_val then sets once more from the counts.
        `leaves` is never emptied, so it grows across fits. */
    method Fit(X: Matrix, y: seq<real>) returns (outcome: Result<()>)
      requires |X| == |y| && Rectangular(X)
      modifies this`root, this`leaves, this`Repr, this`width
      ensures GrowD(X, y, Width(X), 0, leafSize, maxDepth, gain).Err? ==>
                outcome == Err(GrowD(X, y, Width(X), 0, leafSize, maxDepth, gain).error) && root == null
      ensures GrowD(X, y, Width(X), 0, leafSize, maxDepth, gain).Ok? ==>
                outcome == Ok(()) && root != null && Valid() && fresh(Repr) &&
                root.content == GrowD(X, y, Width(X), 0, leafSize, maxDepth, gain).value &&
                root.val == Majority(y) && width == Width(X) && leaves == old(leaves) + root.leafNodes
      ensures old(leaves) <= leaves
    {
      root := null;
      ghost var n := Width(X);
      var built := BuildTree(X, y, null, n, 0);
      if built.Err? {
        return Err(built.error);
      }
      var c0, c1, node := built.value.0, built.value.1, built.value.2;
      LeafNodesAreLeaves(node);
      GrowDRootVal(X, y, n, 0, leafSize, maxDepth, gain);
      GrowDFeaturesBelow(X, y, n, 0, leafSize, maxDepth, gain);
      GetVal(c0, c1, node);
      SetRoot(node, n);
      outcome := Ok(());
    }

    /** self.tree['root'] = node */
    method SetRoot(node: TreeNode, ghost n: nat)
      requires node.Valid() && node.parent == null && FeaturesBelowD(node.content, n)
      modifies this`root, this`Repr, this`width
      ensures root == node && Repr == node.footprint && width == n && Valid()
    {
      root := node;
      Repr, width := node.footprint, n;
    }

    /** DecisionTreeD.predict: the answer of the fitted tree for one record. */
    function Predict(record: seq<real>): (v: nat)
      reads this, Repr
      requires Valid() && root != null && FeaturesBelowD(root.content, |record|)
      ensures v == Classify(root.content, record)
    {
      SearchPoint(record, root)
    }

    /** DecisionTreeD.bunch_predict: one answer per point, in order. */
    function BunchPredict(points: seq<seq<real>>): (preds: seq<nat>)
      reads this, Repr
      requires Valid() && root != null
      requires forall i :: 0 <= i < |points| ==> FeaturesBelowD(root.content, |points[i]|)
      ensures |preds| == |points|
      ensures forall i :: 0 <= i < |points| ==> preds[i] == Predict(points[i])
    {
      seq(|points|, i reads this, Repr requires 0 <= i < |points| && Valid() && root != null && FeaturesBelowD(root.content, |points[i]|) =>
        Predict(points[i]))
    }
  }

  /** A point at least as wide as the training rows can always be classified. */
  lemma {:induction false} WideEnough(t: DTree, n: nat, m: nat)
    requires FeaturesBelowD(t, n) && n <= m
    ensures FeaturesBelowD(t, m)
  {
    if t.DSplit? {
      WideEnough(t.left, n, m);
      WideEnough(t.right, n, m);
    }
  }
}
