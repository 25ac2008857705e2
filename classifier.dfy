/** The DecisionTree object: the loaded table, the target column's name and
    the root of the trained tree, which `loadCSV` and `train` set in place. */
module Classifier {
  import opened Wrappers
  import opened Dataset
  import opened Criterion
  import opened Tree
  import opened Builder
  import Query

  /** The rows of a CSV file's text: one row of trimmed cells per line that
      getline reads from the file. */
  function FileRows(content: string): (rows: seq<Row>)
    ensures |rows| == |Query.Split(content, '\n')|
  {
    var lines := Query.Split(content, '\n');
    seq(|lines|, i requires 0 <= i < |lines| => Query.ParseRow(lines[i]))
  }

  /** The table after loading rows into it: the first row replaces the
      headers and the rest are appended to the rows already held. This is
      what LoadCSV's line loop is proved to compute. */
  function Loaded(headers: seq<string>, data: seq<Row>, rows: seq<Row>): (t: Table)
    ensures rows == [] ==> t == Table(headers, data)
    ensures rows != [] ==> t.headers == rows[0] && t.rows == data + rows[1..]
  {
    if rows == [] then Table(headers, data) else Table(rows[0], data + rows[1..])
  }

  /** The indices of all rows, in order. */
  function AllIndices(n: nat): (ix: seq<nat>)
    ensures |ix| == n && forall i | 0 <= i < n :: ix[i] == i
  {
    seq(n, i requires 0 <= i < n => i)
  }

  class DecisionTree {
    var data: seq<Row>
    var headers: seq<string>
    var targetColumn: string
    var root: Option<TreeNode>

    constructor ()
      ensures data == [] && headers == [] && targetColumn == "" && root == None
    {
      data, headers, targetColumn, root := [], [], "", None;
    }

    /** loadCSV: `None` is a file that cannot be opened. Each line read
        becomes a row of trimmed cells; the first replaces the headers, the
        others are appended to the rows already held. */
    method LoadCSV(file: Option<string>) returns (isOpen: bool)
      modifies this
      ensures isOpen <==> file.Some?
      ensures file.None? ==> headers == old(headers) && data == old(data)
      ensures file.Some? ==> Table(headers, data) == Loaded(old(headers), old(data), FileRows(file.value))
      ensures targetColumn == old(targetColumn) && root == old(root)
    {
      if file.None? {
        return false;
      }
      var lines := Query.Split(file.value, '\n');
      ghost var rows := FileRows(file.value);
      var isFirstLine := true;
      for i := 0 to |lines|
        invariant isFirstLine <==> i == 0
        invariant targetColumn == old(targetColumn) && root == old(root)
        invariant Table(headers, data) == Loaded(old(headers), old(data), rows[..i])
      {
        var row := Query.ParseRow(lines[i]);
        assert row == rows[i];
        if isFirstLine {
          assert rows[..1][1..] == [];
          headers := row;
          isFirstLine := false;
        } else {
          assert rows[..i + 1][1..] == rows[..i][1..] + [row];
          data := data + [row];
        }
      }
      assert rows[..|lines|] == rows;
      return true;
    }

    /** train: record the target, load the file, refuse an empty table or
        a missing target, then build the tree over all row indices with no
        feature used. */
    method Train(file: Option<string>, target: string, g: Gain) returns (ok: bool)
      requires file.Some? ==> WellFormed(Loaded(headers, data, FileRows(file.value)))
      modifies this
      ensures targetColumn == target
      ensures file.None? ==> headers == old(headers) && data == old(data)
      ensures file.Some? ==> Table(headers, data) == Loaded(old(headers), old(data), FileRows(file.value))
      ensures ok <==> file.Some? && data != [] && target in headers
      ensures ok ==> root == Some(Build(Table(headers, data), target, g, AllIndices(|data|), {}))
      ensures !ok ==> root == old(root)
    {
      targetColumn := target;
      var isOpen := LoadCSV(file);
      if !isOpen {
        return false;
      }
      if |data| == 0 {
        return false;
      }
      if ColumnIndex(headers, targetColumn) == -1 {
        return false;
      }
      var allIndices: seq<nat> := [];
      for i := 0 to |data|
        invariant allIndices == AllIndices(i)
      {
        allIndices := allIndices + [i];
      }
      var tree := BuildTree(Table(headers, data), targetColumn, g, allIndices, {});
      root := Some(tree);
      return true;
    }

    /** predictInstance: predict from the root, Unknown before training. */
    function PredictInstance(instance: map<string, string>): (r: string)
      reads this
      ensures root == None ==> r == Unknown
    {
      Tree.PredictInstance(root, instance)
    }
  }

  /** A table whose rows all carry one label trains into a single leaf with
      that label, however many features it has, and every query gets it. */
  lemma TrainPureTable(t: Table, target: string, g: Gain, instance: map<string, string>)
    requires Trainable(t, target) && t.rows != []
    requires forall i | 0 <= i < |t.rows| :: Label(t, target, i) == Label(t, target, 0)
    ensures Build(t, target, g, AllIndices(|t.rows|), {}) == Leaf("", Label(t, target, 0))
    ensures Predict(Build(t, target, g, AllIndices(|t.rows|), {}), instance) == Label(t, target, 0)
  {
    var ix := AllIndices(|t.rows|);
    assert Pure(t, target, ix);
  }

  /** After training, a row of the table queried with its own features is
      answered with a label that occurs in the table, never Unknown (unless
      "Unknown" is itself a label). */
  lemma TrainedTreeAnswersTrainingRows(t: Table, target: string, g: Gain, i: nat)
    requires Trainable(t, target) && i < |t.rows|
    ensures Predict(Build(t, target, g, AllIndices(|t.rows|), {}), RowQuery(t, i))
              in Labels(t, target, AllIndices(|t.rows|))
  {
    PredictTrainingRow(t, target, g, AllIndices(|t.rows|), {}, i);
  }
}
