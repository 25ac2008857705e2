/** The decision tree and inference over it. */
module Tree {
  import opened StringOrder
  import opened Wrappers

  /** The label predict returns when it cannot follow the tree. */
  const Unknown: string := "Unknown"

  /** A node of the tree. `value` is the feature value on the edge from the
      parent (the empty string at the root); a leaf holds its prediction, an
      internal node the feature it splits on and one child per value. */
  datatype TreeNode =
    | Leaf(value: string, prediction: string)
    | Internal(value: string, feature: string, children: seq<TreeNode>)

  /** Position of the first child whose edge value is `v`; `|children|` when none is. */
  function ChildFor(children: seq<TreeNode>, v: string): (i: nat)
    ensures i <= |children|
    ensures i < |children| ==> children[i].value == v
    ensures forall j | 0 <= j < i :: children[j].value != v
  {
    if children == [] then 0
    else if children[0].value == v then 0
    else 1 + ChildFor(children[1..], v)
  }

  /** predict: a leaf answers with its prediction; an internal node follows
      the child for the query's value of its feature, and answers Unknown
      when the query lacks that feature or no child carries that value. */
  function Predict(node: TreeNode, instance: map<string, string>): (r: string)
    ensures node.Leaf? ==> r == node.prediction
    ensures node.Internal? && node.feature !in instance ==> r == Unknown
    ensures (node.Internal? && node.feature in instance
             && forall c | c in node.children :: c.value != instance[node.feature]) ==> r == Unknown
    ensures (node.Internal? && node.feature in instance && r != Unknown) ==>
              exists i | 0 <= i < |node.children| :: node.children[i].value == instance[node.feature]
  {
    match node
    case Leaf(_, prediction) => prediction
    case Internal(_, feature, children) =>
      if feature !in instance then Unknown
      else
        var i := ChildFor(children, instance[feature]);
        if i == |children| then Unknown else Predict(children[i], instance)
  }

  /** predictInstance: a tree that was never built answers Unknown. */
  function PredictInstance(root: Option<TreeNode>, instance: map<string, string>): (r: string)
    ensures root == None ==> r == Unknown
  {
    match root
    case None => Unknown
    case Some(node) => Predict(node, instance)
  }

  /** Every leaf's prediction lies in `labels`. */
  predicate LeavesIn(node: TreeNode, labels: set<string>)
  {
    match node
    case Leaf(_, prediction) => prediction in labels
    case Internal(_, _, children) => forall i | 0 <= i < |children| :: LeavesIn(children[i], labels)
  }

  /** Every feature split on along any path from `node` down lies outside
      `used`, and none is split on twice along one path. */
  predicate FreshPaths(node: TreeNode, used: set<string>)
  {
    match node
    case Leaf(_, _) => true
    case Internal(_, feature, children) =>
      feature !in used && forall i | 0 <= i < |children| :: FreshPaths(children[i], used + {feature})
  }

  /** At every internal node the children's edge values strictly ascend. */
  predicate OrderedChildren(node: TreeNode)
  {
    match node
    case Leaf(_, _) => true
    case Internal(_, _, children) =>
      && (forall i, j | 0 <= i < j < |children| :: Less(children[i].value, children[j].value))
      && forall i | 0 <= i < |children| :: OrderedChildren(children[i])
  }

  /** The features split on anywhere in the tree. */
  predicate SplitsOn(node: TreeNode, f: string)
  {
    match node
    case Leaf(_, _) => false
    case Internal(_, feature, children) =>
      feature == f || exists i | 0 <= i < |children| :: SplitsOn(children[i], f)
  }

  /** Predict answers with one of the tree's leaf predictions or with Unknown. */
  lemma {:induction false} PredictAnswersFromLeaves(node: TreeNode, instance: map<string, string>, labels: set<string>)
    requires LeavesIn(node, labels)
    ensures Predict(node, instance) in labels || Predict(node, instance) == Unknown
  {
    match node
    case Leaf(_, _) =>
    case Internal(_, feature, children) =>
      if feature in instance {
        var i := ChildFor(children, instance[feature]);
        if i < |children| {
          PredictAnswersFromLeaves(children[i], instance, labels);
        }
      }
  }

  /** Predict reads only the features the tree splits on: two queries that
      agree on those get the same answer. */
  lemma {:induction false} PredictReadsOnlySplitFeatures(node: TreeNode, a: map<string, string>, b: map<string, string>)
    requires forall f | SplitsOn(node, f) :: (f in a <==> f in b) && (f in a ==> a[f] == b[f])
    ensures Predict(node, a) == Predict(node, b)
  {
    match node
    case Leaf(_, _) =>
    case Internal(_, feature, children) =>
      assert SplitsOn(node, feature);
      if feature in a {
        var i := ChildFor(children, a[feature]);
        if i < |children| {
          forall f | SplitsOn(children[i], f)
            ensures (f in a <==> f in b) && (f in a ==> a[f] == b[f])
          {
            assert SplitsOn(node, f);
          }
          PredictReadsOnlySplitFeatures(children[i], a, b);
        }
      }
  }

  /** The edge value of the root takes no part in prediction. */
  lemma PredictIgnoresEdgeValue(node: TreeNode, v: string, instance: map<string, string>)
    ensures Predict(node.(value := v), instance) == Predict(node, instance)
  {
  }

  /** With ascending edge values, the child predict follows is the only one
      carrying the query's value. */
  lemma ChildForUnique(children: seq<TreeNode>, v: string, k: nat)
    requires forall i, j | 0 <= i < j < |children| :: Less(children[i].value, children[j].value)
    requires k < |children| && children[k].value == v
    ensures ChildFor(children, v) == k
  {
    var i := ChildFor(children, v);
    if i < k {
      LessIrreflexive(v);
    }
  }
}
