/** Shared vocabulary of the decision-tree engine of src/learn/dt.py: feature
    matrices as sequences of rows, the exceptions a fit can raise, label
    counting, numpy's argmax and unique, Counter's most_common, the stopping
    rules, and the boolean-mask partition that both tree builders split with. */
module Common {

  datatype Option<T> = None | Some(value: T)

  /** The exceptions the Python code raises while fitting, kept as values. */
  datatype Error =
    | EmptyLabels     // Counter([]).most_common(1)[0] raises IndexError
    | EmptyData       // X[0] on an array without rows raises IndexError
    | NoFeatures      // np.argmax([]) raises ValueError
    | RecursionLimit  // a split that keeps every row on the left recurses without end
    | AmbiguousTruth  // `not self.tree` on an already fitted table raises ValueError

  datatype Result<T> = Ok(value: T) | Err(error: Error)

  /** A two-dimensional feature array, one sequence per row. */
  type Matrix = seq<seq<real>>

  /** Every row has exactly n features. */
  ghost predicate Shaped(X: Matrix, n: nat) {
    forall i :: 0 <= i < |X| ==> |X[i]| == n
  }

  /** Every row has as many features as the first one (numpy's 2-D shape). */
  ghost predicate Rectangular(X: Matrix) {
    forall i :: 0 <= i < |X| ==> |X[i]| == |X[0]|
  }

  /** X.shape[1], read off the first row; 0 for an array without rows. */
  function Width(X: Matrix): nat {
    if |X| == 0 then 0 else |X[0]|
  }

  /** Column f exists in every row. */
  ghost predicate HasColumn(X: Matrix, f: nat) {
    forall i :: 0 <= i < |X| ==> f < |X[i]|
  }

  /** X[:, f] */
  function Column(X: Matrix, f: nat): (c: seq<real>)
    requires HasColumn(X, f)
    ensures |c| == |X|
    ensures forall i :: 0 <= i < |X| ==> c[i] == X[i][f]
  {
    seq(|X|, i requires 0 <= i < |X| => X[i][f])
  }

  /** Counter(y)[v]: how often label v occurs in y. */
  function Count(y: seq<real>, v: real): nat {
    multiset(y)[v]
  }

  /** np.argmax: the first index holding the largest element. */
  function ArgMax(s: seq<real>): (k: nat)
    requires |s| > 0
    ensures k < |s|
    ensures forall j :: 0 <= j < |s| ==> s[j] <= s[k]
    ensures forall j :: 0 <= j < k ==> s[j] < s[k]
  {
    if |s| == 1 then 0
    else
      var k := ArgMax(s[..|s| - 1]);
      assert forall j :: 0 <= j < |s| - 1 ==> s[..|s| - 1][j] == s[j];
      if s[|s| - 1] > s[k] then |s| - 1 else k
  }

  ghost predicate StrictlyIncreasing(u: seq<real>) {
    forall i, j :: 0 <= i < j < |u| ==> u[i] < u[j]
  }

  /** Adds x to a sequence kept in ascending order, unless it is already
      there. */
  function InsertSorted(u: seq<real>, x: real): (r: seq<real>)
    ensures forall z :: z in r <==> z in u || z == x
  {
    if |u| == 0 then [x]
    else if x < u[0] then [x] + u
    else if x == u[0] then u
    else
      assert u == [u[0]] + u[1..];
      [u[0]] + InsertSorted(u[1..], x)
  }

  lemma TailIncreasing(u: seq<real>)
    requires |u| > 0 && StrictlyIncreasing(u)
    ensures StrictlyIncreasing(u[1..])
    ensures forall z :: z in u[1..] ==> u[0] < z
  {
    assert forall i :: 1 <= i < |u| ==> u[1..][i - 1] == u[i];
  }

  lemma {:induction false} InsertSortedIncreasing(u: seq<real>, x: real)
    requires StrictlyIncreasing(u)
    ensures StrictlyIncreasing(InsertSorted(u, x))
  {
    if |u| > 0 && x > u[0] {
      TailIncreasing(u);
      InsertSortedIncreasing(u[1..], x);
      var rest := InsertSorted(u[1..], x);
      assert forall z :: z in rest ==> u[0] < z;
      var r := [u[0]] + rest;
      assert r == InsertSorted(u, x);
      forall i, j | 0 <= i < j < |r| ensures r[i] < r[j] {
        assert r[j] == rest[j - 1] && r[j] in rest;
        if i > 0 { assert r[i] == rest[i - 1]; }
      }
    }
  }

  /** np.unique: the distinct values of s (in ascending order, by
      UniqueIncreasing). */
  function Unique(s: seq<real>): (u: seq<real>)
    ensures forall z :: z in u <==> z in s
  {
    if |s| == 0 then []
    else
      var u := InsertSorted(Unique(s[..|s| - 1]), s[|s| - 1]);
      assert s == s[..|s| - 1] + [s[|s| - 1]];
      u
  }

  lemma {:induction false} UniqueIncreasing(s: seq<real>)
    ensures StrictlyIncreasing(Unique(s))
  {
    if |s| > 0 {
      UniqueIncreasing(s[..|s| - 1]);
      InsertSortedIncreasing(Unique(s[..|s| - 1]), s[|s| - 1]);
    }
  }

  /** `len(np.unique(y)) == 1` holds exactly when y is non-empty and all its
      labels are equal. */
  lemma UniqueSingleton(y: seq<real>)
    ensures |Unique(y)| == 1 <==> |y| > 0 && forall i :: 0 <= i < |y| ==> y[i] == y[0]
  {
    var u := Unique(y);
    UniqueIncreasing(y);
    if |u| == 1 {
      assert u[0] in y;
      forall i | 0 <= i < |y| ensures y[i] == y[0] {
        assert y[i] in u && y[0] in u;
      }
    }
    if |y| > 0 && forall i :: 0 <= i < |y| ==> y[i] == y[0] {
      assert y[0] in u;
      forall z | z in u ensures z == y[0] {
        assert z in y;
      }
      assert |u| <= 1 by {
        assert forall i :: 0 <= i < |u| ==> u[i] == y[0];
      }
    }
  }

  /** The frequency of the label at each position of y. */
  function Frequencies(y: seq<real>): (fs: seq<real>)
    ensures |fs| == |y|
    ensures forall i :: 0 <= i < |y| ==> fs[i] == Count(y, y[i]) as real
  {
    seq(|y|, i requires 0 <= i < |y| => Count(y, y[i]) as real)
  }

  /** Counter(y).most_common(1)[0][0]: a most frequent label; among equally
      frequent labels, the one that occurs first in y. */
  function MostCommon(y: seq<real>): (r: real)
    requires |y| > 0
    ensures r in y
    ensures forall v :: v in y ==> Count(y, v) <= Count(y, r)
    ensures forall j :: 0 <= j < |y| && Count(y, y[j]) == Count(y, r) ==> r in y[..j + 1]
  {
    var fs := Frequencies(y);
    var k := ArgMax(fs);
    assert forall v :: v in y ==> Count(y, v) <= Count(y, y[k]) by {
      forall v | v in y ensures Count(y, v) <= Count(y, y[k]) {
        var j :| 0 <= j < |y| && y[j] == v;
        assert fs[j] <= fs[k];
      }
    }
    assert forall j :: 0 <= j < |y| && Count(y, y[j]) == Count(y, y[k]) ==> y[k] in y[..j + 1] by {
      forall j | 0 <= j < |y| && Count(y, y[j]) == Count(y, y[k]) ensures y[k] in y[..j + 1] {
        assert fs[j] == fs[k];
        assert k <= j;
        assert y[..j + 1][k] == y[k];
      }
    }
    y[k]
  }

  /** The stopping test shared by both builders: `len(y) <= leaf_size or
      len(np.unique(y)) == 1`. */
  predicate CannotSplit(y: seq<real>, leafSize: int) {
    |y| <= leafSize || |Unique(y)| == 1
  }

  /** A node cannot be split exactly when it holds at most leaf_size rows or
      it has rows and they all carry the same label. */
  lemma CannotSplitMeans(y: seq<real>, leafSize: int)
    ensures CannotSplit(y, leafSize) <==>
              |y| <= leafSize || (|y| > 0 && forall i :: 0 <= i < |y| ==> y[i] == y[0])
  {
    UniqueSingleton(y);
  }

  /** A depth limit is in force: `self.max_depth` is truthy, so neither None nor 0. */
  predicate Limited(maxDepth: Option<int>) {
    maxDepth.Some? && maxDepth.value != 0
  }

  /** `self.max_depth and depth >= self.max_depth` */
  predicate DepthReached(maxDepth: Option<int>, depth: int) {
    Limited(maxDepth) && depth >= maxDepth.value
  }

  /** How many more levels a depth limit allows; the termination measure of
      a split that keeps all its rows on one side. */
  function Budget(maxDepth: Option<int>, depth: int): nat {
    if Limited(maxDepth) && depth < maxDepth.value then maxDepth.value - depth else 0
  }

  /** The measure `|y|, Budget` falls from a node holding y at depth to a
      child holding ySide at childDepth. */
  predicate Shrinks(y: seq<real>, ySide: seq<real>, maxDepth: Option<int>, depth: int, childDepth: int) {
    |ySide| < |y| || (|ySide| == |y| && Budget(maxDepth, childDepth) < Budget(maxDepth, depth))
  }

  /** The four arrays _partition_classes returns. */
  datatype Sides = Sides(xLeft: Matrix, xRight: Matrix, yLeft: seq<real>, yRight: seq<real>)

  function Concat(p: Sides, q: Sides): Sides {
    Sides(p.xLeft + q.xLeft, p.xRight + q.xRight, p.yLeft + q.yLeft, p.yRight + q.yRight)
  }

  /** _partition_classes: rows with X[i][f] <= t go left, the others go right,
      each label travelling with its row. */
  function Partition(X: Matrix, y: seq<real>, f: nat, t: real): (p: Sides)
    requires |X| == |y| && HasColumn(X, f)
    ensures |p.xLeft| == |p.yLeft| && |p.xRight| == |p.yRight|
    ensures |p.xLeft| + |p.xRight| == |X|
    decreases |X|
  {
    if |X| == 0 then Sides([], [], [], [])
    else
      var p := Partition(X[1..], y[1..], f, t);
      if X[0][f] <= t then Sides([X[0]] + p.xLeft, p.xRight, [y[0]] + p.yLeft, p.yRight)
      else Sides(p.xLeft, [X[0]] + p.xRight, p.yLeft, [y[0]] + p.yRight)
  }

  /** Every left row has X[attr] <= split_val and every right row has
      X[attr] > split_val. */
  lemma {:induction false} PartitionSides(X: Matrix, y: seq<real>, f: nat, t: real)
    requires |X| == |y| && HasColumn(X, f)
    ensures forall k :: 0 <= k < |Partition(X, y, f, t).xLeft| ==>
              f < |Partition(X, y, f, t).xLeft[k]| && Partition(X, y, f, t).xLeft[k][f] <= t
    ensures forall k :: 0 <= k < |Partition(X, y, f, t).xRight| ==>
              f < |Partition(X, y, f, t).xRight[k]| && Partition(X, y, f, t).xRight[k][f] > t
    decreases |X|
  {
    if |X| > 0 {
      PartitionSides(X[1..], y[1..], f, t);
    }
  }

  /** A side is empty exactly when no row qualifies for it. */
  lemma {:induction false} PartitionEmptySide(X: Matrix, y: seq<real>, f: nat, t: real)
    requires |X| == |y| && HasColumn(X, f)
    ensures |Partition(X, y, f, t).xLeft| == 0 <==> forall i :: 0 <= i < |X| ==> X[i][f] > t
    ensures |Partition(X, y, f, t).xRight| == 0 <==> forall i :: 0 <= i < |X| ==> X[i][f] <= t
    decreases |X|
  {
    if |X| > 0 {
      PartitionEmptySide(X[1..], y[1..], f, t);
      assert forall i :: 1 <= i < |X| ==> X[1..][i - 1] == X[i];
    }
  }

  lemma HasColumnAppend(A: Matrix, B: Matrix, f: nat)
    requires HasColumn(A + B, f)
    ensures HasColumn(A, f) && HasColumn(B, f)
  {
    assert forall i :: 0 <= i < |A| ==> (A + B)[i] == A[i];
    assert forall i :: 0 <= i < |B| ==> (A + B)[|A| + i] == B[i];
  }

  /** Partitioning two stacked arrays partitions each and stacks the results. */
  lemma {:induction false} PartitionAppend(A: Matrix, ya: seq<real>, B: Matrix, yb: seq<real>, f: nat, t: real)
    requires |A| == |ya| && |B| == |yb| && HasColumn(A + B, f)
    ensures HasColumn(A, f) && HasColumn(B, f)
    ensures Partition(A + B, ya + yb, f, t) == Concat(Partition(A, ya, f, t), Partition(B, yb, f, t))
    decreases |A|
  {
    HasColumnAppend(A, B, f);
    var q := Partition(B, yb, f, t);
    if |A| == 0 {
      assert A + B == B && ya + yb == yb;
      assert [] + q.xLeft == q.xLeft && [] + q.xRight == q.xRight;
      assert [] + q.yLeft == q.yLeft && [] + q.yRight == q.yRight;
    } else {
      var AB, yab := A + B, ya + yb;
      assert AB[1..] == A[1..] + B && yab[1..] == ya[1..] + yb;
      PartitionAppend(A[1..], ya[1..], B, yb, f, t);
      var p := Partition(A[1..], ya[1..], f, t);
      assert Partition(AB, yab, f, t) == Concat(Partition(A, ya, f, t), q) by {
        assert AB[0] == A[0] && yab[0] == ya[0];
        if A[0][f] <= t {
          assert [A[0]] + (p.xLeft + q.xLeft) == ([A[0]] + p.xLeft) + q.xLeft;
          assert [ya[0]] + (p.yLeft + q.yLeft) == ([ya[0]] + p.yLeft) + q.yLeft;
        } else {
          assert [A[0]] + (p.xRight + q.xRight) == ([A[0]] + p.xRight) + q.xRight;
          assert [ya[0]] + (p.yRight + q.yRight) == ([ya[0]] + p.yRight) + q.yRight;
        }
      }
    }
  }

  /** Row i lands on the side its value selects, right after the rows before
      it that went the same way, and its label stays beside it: both sides
      keep the input order and together hold every row exactly once. */
  lemma PartitionPlacesRow(X: Matrix, y: seq<real>, f: nat, t: real, i: nat)
    requires |X| == |y| && HasColumn(X, f) && i < |X|
    ensures HasColumn(X[..i], f)
    ensures var p := Partition(X, y, f, t);
            var before := Partition(X[..i], y[..i], f, t);
            if X[i][f] <= t then
              |before.xLeft| < |p.xLeft| && p.xLeft[|before.xLeft|] == X[i] && p.yLeft[|before.xLeft|] == y[i]
            else
              |before.xRight| < |p.xRight| && p.xRight[|before.xRight|] == X[i] && p.yRight[|before.xRight|] == y[i]
  {
    assert X == X[..i] + X[i..] && y == y[..i] + y[i..];
    PartitionAppend(X[..i], y[..i], X[i..], y[i..], f, t);
    assert X[i..][0] == X[i] && y[i..][0] == y[i];
  }

  /** The two label sides together are exactly the input labels. */
  lemma {:induction false} PartitionCounts(X: Matrix, y: seq<real>, f: nat, t: real)
    requires |X| == |y| && HasColumn(X, f)
    ensures multiset(Partition(X, y, f, t).yLeft) + multiset(Partition(X, y, f, t).yRight) == multiset(y)
    decreases |X|
  {
    if |X| > 0 {
      PartitionCounts(X[1..], y[1..], f, t);
      assert y == [y[0]] + y[1..];
    }
  }

  /** Every label on either side of a partition is a label of the node. */
  lemma PartitionLabelsFrom(X: Matrix, y: seq<real>, f: nat, t: real, v: real)
    requires |X| == |y| && HasColumn(X, f)
    requires v in Partition(X, y, f, t).yLeft || v in Partition(X, y, f, t).yRight
    ensures v in y
  {
    var p := Partition(X, y, f, t);
    PartitionCounts(X, y, f, t);
    if v in p.yLeft {
      assert v in multiset(p.yLeft);
    } else {
      assert v in multiset(p.yRight);
    }
    assert v in multiset(y);
  }

  /** A split that sends no row right hands the whole input to the left. */
  lemma {:induction false} PartitionKeepsAll(X: Matrix, y: seq<real>, f: nat, t: real)
    requires |X| == |y| && HasColumn(X, f)
    requires |Partition(X, y, f, t).xRight| == 0
    ensures Partition(X, y, f, t).xLeft == X && Partition(X, y, f, t).yLeft == y
    decreases |X|
  {
    if |X| > 0 {
      PartitionKeepsAll(X[1..], y[1..], f, t);
      assert X == [X[0]] + X[1..] && y == [y[0]] + y[1..];
    }
  }

  /** Both sides keep the row width of the input. */
  lemma {:induction false} PartitionShaped(X: Matrix, y: seq<real>, f: nat, t: real, n: nat)
    requires |X| == |y| && Shaped(X, n) && f < n
    ensures HasColumn(X, f)
    ensures Shaped(Partition(X, y, f, t).xLeft, n) && Shaped(Partition(X, y, f, t).xRight, n)
    decreases |X|
  {
    if |X| > 0 {
      PartitionShaped(X[1..], y[1..], f, t, n);
    }
  }

  /** The mask `X[:, f] <= t` */
  function LeftMask(col: seq<real>, t: real): (m: seq<bool>)
    ensures |m| == |col| && forall i :: 0 <= i < |col| ==> m[i] == (col[i] <= t)
  {
    seq(|col|, i requires 0 <= i < |col| => col[i] <= t)
  }

  /** DecisionTree.splited: `len(np.unique(left_index)) > 1`, that is, the
      boolean mask holds both values. */
  predicate Splited(mask: seq<bool>) {
    true in mask && false in mask
  }

  /** The mask holds both values exactly when both sides of the partition
      are non-empty. */
  lemma SplitedIffBothSides(X: Matrix, y: seq<real>, f: nat, t: real)
    requires |X| == |y| && HasColumn(X, f)
    ensures Splited(LeftMask(Column(X, f), t)) <==>
            |Partition(X, y, f, t).xLeft| > 0 && |Partition(X, y, f, t).xRight| > 0
  {
    var m := LeftMask(Column(X, f), t);
    var p := Partition(X, y, f, t);
    PartitionEmptySide(X, y, f, t);
    if |p.xLeft| > 0 {
      var i :| 0 <= i < |X| && X[i][f] <= t;
      assert m[i];
    }
    if |p.xRight| > 0 {
      var i :| 0 <= i < |X| && X[i][f] > t;
      assert !m[i];
    }
  }
}
