/** buildTree: recursive ID3 partitioning of row indices into a tree. */
module Builder {
  import opened Dataset
  import opened Criterion
  import opened Tree

  /** The headers still open to a split below a node. */
  function Remaining(t: Table, target: string, used: set<string>): set<string>
  {
    set h | h in t.headers && Candidate(target, used, h)
  }

  /** Using up a candidate closes one more header: the recursion's measure. */
  lemma RemainingShrinks(t: Table, target: string, used: set<string>, best: string)
    requires best in t.headers && Candidate(target, used, best)
    ensures |Remaining(t, target, used + {best})| < |Remaining(t, target, used)|
  {
    assert Remaining(t, target, used + {best}) == Remaining(t, target, used) - {best};
  }

  /** The column a chosen split feature names (its first column, as getColumnIndex finds it). */
  function SplitColumn(t: Table, target: string, best: string): (col: int)
    requires Trainable(t, target) && best in t.headers
    ensures IsColumn(t, col) && t.headers[col] == best
  {
    ColumnIndex(t.headers, best)
  }

  /** The tree buildTree returns for the rows `ix`, given the features
      already used on the path from the root. */
  function Build(t: Table, target: string, g: Gain, ix: seq<nat>, used: set<string>): TreeNode
    requires Trainable(t, target) && ValidIndices(t, ix)
    decreases |Remaining(t, target, used)|, 1
  {
    if ix == [] then Leaf("", Unknown)
    else if Pure(t, target, ix) then Leaf("", Label(t, target, ix[0]))
    else
      var best := BestFeature(t, target, used, g, ix);
      if best == "" then Leaf("", Majority(t, target, ix))
      else
        BestFeatureSpec(t, target, used, g, ix);
        Internal("", best, Branches(t, target, g, ix, used, best, Distinct(t, SplitColumn(t, target, best), ix)))
  }

  /** The children of a split on `best`, one per value in `keys`, each built
      from the rows holding that value, with `best` added to the used set and
      the value set on its edge. */
  function Branches(t: Table, target: string, g: Gain, ix: seq<nat>, used: set<string>, best: string, keys: seq<string>): seq<TreeNode>
    requires Trainable(t, target) && ValidIndices(t, ix)
    requires best in t.headers && Candidate(target, used, best)
    decreases |Remaining(t, target, used)|, 0, |keys|
  {
    if keys == [] then []
    else
      var v := keys[|keys| - 1];
      Branches(t, target, g, ix, used, best, keys[..|keys| - 1]) + [Child(t, target, g, ix, used, best, v)]
  }

  /** The child for value `v`: built from the rows holding `v`, with `best`
      added to the used set, and `v` set on its edge. */
  function Child(t: Table, target: string, g: Gain, ix: seq<nat>, used: set<string>, best: string, v: string): TreeNode
    requires Trainable(t, target) && ValidIndices(t, ix)
    requires best in t.headers && Candidate(target, used, best)
    decreases |Remaining(t, target, used)|, 0, 0
  {
    RemainingShrinks(t, target, used, best);
    Build(t, target, g, Filter(t, SplitColumn(t, target, best), ix, v), used + {best}).(value := v)
  }

  /** buildTree: the base cases in order (no rows, pure rows, no feature),
      otherwise group the rows by the best feature's value and build one
      child per group, in the std::map's key order. */
  method BuildTree(t: Table, target: string, g: Gain, ix: seq<nat>, used: set<string>) returns (node: TreeNode)
    requires Trainable(t, target) && ValidIndices(t, ix)
    ensures node == Build(t, target, g, ix, used)
    decreases |Remaining(t, target, used)|
  {
    if |ix| == 0 {
      return Leaf("", Unknown);
    }
    var same := AllSameClass(t, target, ix);
    if same {
      return Leaf("", Cell(t, ix[0], ColumnIndex(t.headers, target)));
    }
    var bestFeature := FindBestFeature(t, target, used, g, ix);
    if bestFeature == "" {
      var mostCommon := MostCommonClass(t, target, ix);
      return Leaf("", mostCommon);
    }
    BestFeatureSpec(t, target, used, g, ix);
    RemainingShrinks(t, target, used, bestFeature);
    var childUsed := used + {bestFeature};
    var featureIdx := ColumnIndex(t.headers, bestFeature);
    var keys, groups := GroupBy(t, featureIdx, ix);
    var children: seq<TreeNode> := [];
    for i := 0 to |keys|
      invariant children == Branches(t, target, g, ix, used, bestFeature, keys[..i])
    {
      assert keys[i] in groups;
      BranchesSnoc(t, target, g, ix, used, bestFeature, keys, i);
      var child := BuildTree(t, target, g, groups[keys[i]], childUsed);
      child := child.(value := keys[i]);
      children := children + [child];
    }
    assert keys[..|keys|] == keys;
    node := Internal("", bestFeature, children);
  }

  /** The branches for one more key: the child for that key appended. */
  lemma BranchesSnoc(t: Table, target: string, g: Gain, ix: seq<nat>, used: set<string>, best: string, keys: seq<string>, i: nat)
    requires Trainable(t, target) && ValidIndices(t, ix)
    requires best in t.headers && Candidate(target, used, best)
    requires i < |keys|
    ensures Branches(t, target, g, ix, used, best, keys[..i + 1]) ==
              Branches(t, target, g, ix, used, best, keys[..i]) + [Child(t, target, g, ix, used, best, keys[i])]
  {
    assert keys[..i + 1][..i] == keys[..i];
  }

  /** The i-th child of a split is the tree built from the i-th value's group. */
  lemma {:induction false} BranchesAt(t: Table, target: string, g: Gain, ix: seq<nat>, used: set<string>, best: string, keys: seq<string>)
    requires Trainable(t, target) && ValidIndices(t, ix)
    requires best in t.headers && Candidate(target, used, best)
    ensures |Branches(t, target, g, ix, used, best, keys)| == |keys|
    ensures forall i | 0 <= i < |keys| ::
      Branches(t, target, g, ix, used, best, keys)[i] == Child(t, target, g, ix, used, best, keys[i])
    decreases |keys|
  {
    if keys != [] {
      var prefix := keys[..|keys| - 1];
      BranchesAt(t, target, g, ix, used, best, prefix);
      var b := Branches(t, target, g, ix, used, best, prefix);
      var last := keys[|keys| - 1];
      var all := b + [Child(t, target, g, ix, used, best, last)];
      assert Branches(t, target, g, ix, used, best, keys) == all;
      forall i | 0 <= i < |keys|
        ensures all[i] == Child(t, target, g, ix, used, best, keys[i])
      {
        if i < |prefix| {
          assert all[i] == b[i];
          assert keys[i] == prefix[i];
        }
      }
    }
  }

  /** An internal node splits on the feature findBestFeature chose, a
      non-empty header that is neither the target nor used, and has one
      child per distinct value of that feature among the rows, in ascending
      value order (the order of `Distinct`), each built from the non-empty
      group of rows holding its value. */
  lemma InternalNodeShape(t: Table, target: string, g: Gain, ix: seq<nat>, used: set<string>)
    requires Trainable(t, target) && ValidIndices(t, ix)
    ensures var n := Build(t, target, g, ix, used);
      n.Internal? ==>
        && n.value == ""
        && n.feature == BestFeature(t, target, used, g, ix) != ""
        && n.feature in t.headers && Candidate(target, used, n.feature)
    ensures var n := Build(t, target, g, ix, used);
      n.Internal? ==>
        n.feature in t.headers &&
        var col := SplitColumn(t, target, n.feature);
        var keys := Distinct(t, col, ix);
        && |n.children| == |keys|
        && forall i | 0 <= i < |keys| ::
             && n.children[i] == Child(t, target, g, ix, used, n.feature, keys[i])
             && n.children[i].value == keys[i]
             && Filter(t, col, ix, keys[i]) != []
  {
    if Build(t, target, g, ix, used).Leaf? {
      return;
    }
    var best := BestFeature(t, target, used, g, ix);
    BestFeatureSpec(t, target, used, g, ix);
    var col := SplitColumn(t, target, best);
    var keys := Distinct(t, col, ix);
    BranchesAt(t, target, g, ix, used, best, keys);
    forall i | 0 <= i < |keys|
      ensures Filter(t, col, ix, keys[i]) != []
    {
      FilterPartition(t, col, ix, keys[i]);
      CountPositive(t, col, ix, keys[i]);
    }
  }

  /** No root-to-leaf path splits twice on one feature, and none splits on
      the target: `used` travels down by value and gains each split feature. */
  lemma {:induction false} BuildFreshPaths(t: Table, target: string, g: Gain, ix: seq<nat>, used: set<string>)
    requires Trainable(t, target) && ValidIndices(t, ix)
    ensures FreshPaths(Build(t, target, g, ix, used), used + {target})
    decreases |Remaining(t, target, used)|
  {
    var n := Build(t, target, g, ix, used);
    if n.Internal? {
      InternalNodeShape(t, target, g, ix, used);
      var best := n.feature;
      var col := SplitColumn(t, target, best);
      RemainingShrinks(t, target, used, best);
      forall i | 0 <= i < |n.children|
        ensures FreshPaths(n.children[i], used + {target} + {best})
      {
        var group := Filter(t, col, ix, n.children[i].value);
        BuildFreshPaths(t, target, g, group, used + {best});
        assert used + {best} + {target} == used + {target} + {best};
      }
    }
  }

  /** Every leaf is labelled with a target value of the rows it was built
      from; only an empty set of rows gives the Unknown leaf. */
  lemma {:induction false} BuildLeavesFromData(t: Table, target: string, g: Gain, ix: seq<nat>, used: set<string>)
    requires Trainable(t, target) && ValidIndices(t, ix)
    ensures ix == [] ==> Build(t, target, g, ix, used) == Leaf("", Unknown)
    ensures ix != [] ==> LeavesIn(Build(t, target, g, ix, used), Labels(t, target, ix))
    decreases |Remaining(t, target, used)|
  {
    var n := Build(t, target, g, ix, used);
    var labels := Labels(t, target, ix);
    var targetCol := TargetColumn(t, target);
    if ix != [] {
      if Pure(t, target, ix) {
        ValuesHeld(t, targetCol, ix, Label(t, target, ix[0]));
      } else if n.Leaf? {
        MajorityIsSmallestMode(t, target, ix);
      } else {
        InternalNodeShape(t, target, g, ix, used);
        var best := n.feature;
        var col := SplitColumn(t, target, best);
        RemainingShrinks(t, target, used, best);
        forall i | 0 <= i < |n.children|
          ensures LeavesIn(n.children[i], labels)
        {
          var group := Filter(t, col, ix, n.children[i].value);
          BuildLeavesFromData(t, target, g, group, used + {best});
          FilterValues(t, col, ix, n.children[i].value, targetCol);
          LeavesInWider(Build(t, target, g, group, used + {best}), Labels(t, target, group), labels);
        }
      }
    }
  }

  lemma {:induction false} LeavesInWider(node: TreeNode, labels: set<string>, wider: set<string>)
    requires LeavesIn(node, labels) && labels <= wider
    ensures LeavesIn(node, wider)
  {
    match node
    case Leaf(_, _) =>
    case Internal(_, _, children) =>
      forall i | 0 <= i < |children|
        ensures LeavesIn(children[i], wider)
      {
        LeavesInWider(children[i], labels, wider);
      }
  }

  /** At every internal node of a built tree the edge values strictly ascend. */
  lemma {:induction false} BuildOrderedChildren(t: Table, target: string, g: Gain, ix: seq<nat>, used: set<string>)
    requires Trainable(t, target) && ValidIndices(t, ix)
    ensures OrderedChildren(Build(t, target, g, ix, used))
    decreases |Remaining(t, target, used)|
  {
    var n := Build(t, target, g, ix, used);
    if n.Internal? {
      InternalNodeShape(t, target, g, ix, used);
      var best := n.feature;
      var col := SplitColumn(t, target, best);
      RemainingShrinks(t, target, used, best);
      forall i | 0 <= i < |n.children|
        ensures OrderedChildren(n.children[i])
      {
        BuildOrderedChildren(t, target, g, Filter(t, col, ix, n.children[i].value), used + {best});
      }
    }
  }

  /** The query that states every feature of row `i`, each header read from
      the column getColumnIndex finds for it. */
  function RowQuery(t: Table, i: nat): (q: map<string, string>)
    requires WellFormed(t) && i < |t.rows|
    ensures forall h | h in t.headers :: h in q && q[h] == Cell(t, i, ColumnIndex(t.headers, h))
  {
    map h | h in t.headers :: Cell(t, i, ColumnIndex(t.headers, h))
  }

  /** A training row, queried with its own features, always reaches a leaf
      labelled with a target value of the rows the tree was built from: it
      never falls off the tree into the Unknown answer. */
  lemma {:induction false} PredictTrainingRow(t: Table, target: string, g: Gain, ix: seq<nat>, used: set<string>, k: nat)
    requires Trainable(t, target) && ValidIndices(t, ix) && k < |ix|
    ensures Predict(Build(t, target, g, ix, used), RowQuery(t, ix[k])) in Labels(t, target, ix)
    decreases |Remaining(t, target, used)|
  {
    var n := Build(t, target, g, ix, used);
    if n.Leaf? {
      BuildLeavesFromData(t, target, g, ix, used);
    } else {
      InternalNodeShape(t, target, g, ix, used);
      var best := n.feature;
      var col := SplitColumn(t, target, best);
      var v := Cell(t, ix[k], col);
      var group := Filter(t, col, ix, v);
      GroupsPartition(t, col, ix, k);
      var j :| 0 <= j < |group| && group[j] == ix[k];
      RemainingShrinks(t, target, used, best);
      PredictTrainingRow(t, target, g, group, used + {best}, j);
      FilterValues(t, col, ix, v, TargetColumn(t, target));
      FollowsGroup(t, target, g, ix, used, k);
    }
  }

  /** A training row at an internal node is sent down the edge of its own
      value, to the tree built from that value's group. */
  lemma FollowsGroup(t: Table, target: string, g: Gain, ix: seq<nat>, used: set<string>, k: nat)
    requires Trainable(t, target) && ValidIndices(t, ix) && k < |ix|
    ensures var n := Build(t, target, g, ix, used);
      n.Internal? ==>
        n.feature in t.headers && Candidate(target, used, n.feature) &&
        var col := SplitColumn(t, target, n.feature);
        Predict(n, RowQuery(t, ix[k])) ==
          Predict(Build(t, target, g, Filter(t, col, ix, Cell(t, ix[k], col)), used + {n.feature}), RowQuery(t, ix[k]))
  {
    var n := Build(t, target, g, ix, used);
    if n.Leaf? {
      return;
    }
    var q := RowQuery(t, ix[k]);
    InternalNodeShape(t, target, g, ix, used);
    BuildOrderedChildren(t, target, g, ix, used);
    var best := n.feature;
    var col := SplitColumn(t, target, best);
    var v := Cell(t, ix[k], col);
    assert q[best] == v;
    GroupsPartition(t, col, ix, k);
    var keys := Distinct(t, col, ix);
    var i :| 0 <= i < |keys| && keys[i] == v;
    assert n.children[i].value == v;
    ChildForUnique(n.children, v, i);
    assert Predict(n, q) == Predict(n.children[i], q);
    RemainingShrinks(t, target, used, best);
    PredictIgnoresEdgeValue(Build(t, target, g, Filter(t, col, ix, v), used + {best}), v, q);
  }
}
