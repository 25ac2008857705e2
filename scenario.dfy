/** A worked training table: whether to play, by the weather. */
module Scenario {
  import opened StringOrder
  import opened Dataset
  import opened Criterion
  import opened Tree
  import opened Builder
  import opened Classifier

  /** Weather,Play / Sunny,Yes / Rainy,No / Sunny,Yes */
  function Weather(): (t: Table)
    ensures Trainable(t, "Play")
  {
    Table(["Weather", "Play"], [["Sunny", "Yes"], ["Rainy", "No"], ["Sunny", "Yes"]])
  }

  /** The tree trained on the Weather table when Weather has a gain above -1. */
  function WeatherRoot(): TreeNode
  {
    Internal("", "Weather", [Leaf("Rainy", "No"), Leaf("Sunny", "Yes")])
  }

  /** With a gain above -1 for the one feature, the tree splits on Weather
      with its values in ascending order, each child a pure leaf. */
  lemma WeatherTree(g: Gain)
    requires g([0, 1, 2], "Weather") > -1.0
    ensures Build(Weather(), "Play", g, AllIndices(3), {}) == WeatherRoot()
  {
    WeatherSplit(g);
    WeatherBranches(g);
  }

  /** The root splits on Weather, with one branch per value in key order. */
  lemma WeatherSplit(g: Gain)
    requires g([0, 1, 2], "Weather") > -1.0
    ensures Build(Weather(), "Play", g, AllIndices(3), {}) ==
              Internal("", "Weather", Branches(Weather(), "Play", g, AllIndices(3), {}, "Weather", ["Rainy", "Sunny"]))
  {
    var t := Weather();
    var ix := AllIndices(3);
    assert ix == [0, 1, 2];
    NotPure(g);
    assert t.headers[..1] == ["Weather"] && ["Weather"][..0] == [];
    assert GainScan(["Weather"], "Play", {}, g, ix).0 == "Weather";
    assert BestFeature(t, "Play", {}, g, ix) == "Weather";
    WeatherKeys();
    assert SplitColumn(t, "Play", "Weather") == 0;
  }

  /** The two branches are the pure leaves of their groups. */
  lemma WeatherBranches(g: Gain)
    ensures Branches(Weather(), "Play", g, AllIndices(3), {}, "Weather", ["Rainy", "Sunny"]) ==
              [Leaf("Rainy", "No"), Leaf("Sunny", "Yes")]
  {
    BranchesAt(Weather(), "Play", g, AllIndices(3), {}, "Weather", ["Rainy", "Sunny"]);
    WeatherChildren(g);
  }

  /** The rows disagree on Play. */
  lemma NotPure(g: Gain)
    ensures !Pure(Weather(), "Play", AllIndices(3))
  {
    var t := Weather();
    var ix := AllIndices(3);
    assert ColumnIndex(t.headers, "Play") == 1;
    assert Label(t, "Play", ix[0]) != Label(t, "Play", ix[1]);
  }

  /** The Weather column's values, in key order. */
  lemma WeatherKeys()
    ensures Distinct(Weather(), 0, AllIndices(3)) == ["Rainy", "Sunny"]
  {
    var t := Weather();
    var ix := AllIndices(3);
    assert ix == [0, 1, 2];
    assert ix[..2] == [0, 1] && [0, 1][..1] == [0] && [0][..0] == [];
    assert Values(t, 0, [0]) == {"Sunny"};
    assert Values(t, 0, [0, 1]) == {"Sunny", "Rainy"};
    assert Values(t, 0, ix) == {"Sunny", "Rainy"};
    assert Less("Rainy", "Sunny");
    AscendingUnique(Distinct(t, 0, ix), ["Rainy", "Sunny"]);
  }

  /** The rows holding each Weather value. */
  lemma WeatherGroups()
    ensures Filter(Weather(), 0, AllIndices(3), "Rainy") == [1]
    ensures Filter(Weather(), 0, AllIndices(3), "Sunny") == [0, 2]
  {
    var ix := AllIndices(3);
    assert ix == [0, 1, 2];
    assert ix[..2] == [0, 1] && [0, 1][..1] == [0] && [0][..0] == [];
    GroupOf("Rainy");
    GroupOf("Sunny");
  }

  /** The group of `v` grown row by row. */
  lemma GroupOf(v: string)
    ensures var t := Weather();
      Filter(t, 0, [0, 1, 2], v) ==
        Filter(t, 0, [0, 1], v) + (if v == "Sunny" then [2] else [])
    ensures var t := Weather();
      Filter(t, 0, [0, 1], v) ==
        (if v == "Sunny" then [0] else []) + (if v == "Rainy" then [1] else [])
  {
    var t := Weather();
    assert [0, 1, 2][..2] == [0, 1];
    assert [0, 1][..1] == [0] && [0][..0] == [];
    assert Filter(t, 0, [0], v) == if v == "Sunny" then [0] else [];
  }

  /** Each Weather group is pure, so each child is a leaf. */
  lemma WeatherChildren(g: Gain)
    ensures Child(Weather(), "Play", g, AllIndices(3), {}, "Weather", "Rainy") == Leaf("Rainy", "No")
    ensures Child(Weather(), "Play", g, AllIndices(3), {}, "Weather", "Sunny") == Leaf("Sunny", "Yes")
  {
    var t := Weather();
    WeatherGroups();
    assert ColumnIndex(t.headers, "Weather") == 0;
    assert ColumnIndex(t.headers, "Play") == 1;
    assert Pure(t, "Play", [1]);
    assert Pure(t, "Play", [0, 2]);
  }

  /** Queries against that tree: a known value follows its edge, an unseen
      value or a missing feature answers Unknown. */
  lemma WeatherPredictions(g: Gain)
    requires g([0, 1, 2], "Weather") > -1.0
    ensures var root := Build(Weather(), "Play", g, AllIndices(3), {});
      && Predict(root, map["Weather" := "Sunny"]) == "Yes"
      && Predict(root, map["Weather" := "Rainy", "Wind" := "Strong"]) == "No"
      && Predict(root, map["Weather" := "Foggy"]) == Unknown
      && Predict(root, map["Wind" := "Strong"]) == Unknown
  {
    WeatherTree(g);
    RootPredictions();
  }

  lemma RootPredictions()
    ensures Predict(WeatherRoot(), map["Weather" := "Sunny"]) == "Yes"
    ensures Predict(WeatherRoot(), map["Weather" := "Rainy", "Wind" := "Strong"]) == "No"
    ensures Predict(WeatherRoot(), map["Weather" := "Foggy"]) == Unknown
    ensures Predict(WeatherRoot(), map["Wind" := "Strong"]) == Unknown
  {
    var children := WeatherRoot().children;
    assert ChildFor(children, "Sunny") == 1;
    assert ChildFor(children, "Rainy") == 0;
    assert ChildFor(children, "Foggy") == 2;
  }

  /** With no gain above -1 the scan finds no feature, and the root is a
      leaf with the majority label. */
  lemma {:induction false} WeatherWithoutGain(g: Gain)
    requires g([0, 1, 2], "Weather") <= -1.0
    ensures Build(Weather(), "Play", g, AllIndices(3), {}) == Leaf("", "Yes")
  {
    var t := Weather();
    var ix := AllIndices(3);
    assert ix == [0, 1, 2];
    NotPure(g);
    assert t.headers[..1] == ["Weather"] && ["Weather"][..0] == [];
    assert GainScan(["Weather"], "Play", {}, g, ix).0 == "";
    assert BestFeature(t, "Play", {}, g, ix) == "";
    PlayMajority();
  }

  /** Two Yes against one No. */
  lemma PlayMajority()
    ensures Majority(Weather(), "Play", AllIndices(3)) == "Yes"
  {
    var t := Weather();
    var ix := AllIndices(3);
    assert ix == [0, 1, 2];
    assert ColumnIndex(t.headers, "Play") == 1;
    assert ix[..2] == [0, 1] && [0, 1][..1] == [0] && [0][..0] == [];
    assert Values(t, 1, [0, 1]) == {"Yes", "No"};
    assert Values(t, 1, ix) == {"Yes", "No"};
    assert Less("No", "Yes");
    var keys := Distinct(t, 1, ix);
    AscendingUnique(keys, ["No", "Yes"]);
    assert Count(t, 1, [0, 1], "No") == 1;
    assert Count(t, 1, ix, "No") == 1;
    assert Count(t, 1, [0, 1], "Yes") == 1;
    assert Count(t, 1, ix, "Yes") == 2;
    assert keys[..1] == ["No"] && ["No"][..0] == [];
    assert ModeScan(t, 1, ix, ["No"]) == ("No", 1);
  }

  /** A tie in the majority vote goes to the smaller label: two rows, Yes
      then No, give No although Yes was seen first. */
  lemma {:induction false} MajorityTieGoesToSmallestLabel()
    ensures Majority(Table(["Weather", "Play"], [["Sunny", "Yes"], ["Rainy", "No"]]), "Play", [0, 1]) == "No"
  {
    var t := Table(["Weather", "Play"], [["Sunny", "Yes"], ["Rainy", "No"]]);
    assert ColumnIndex(t.headers, "Play") == 1;
    assert [0, 1][..1] == [0] && [0][..0] == [];
    assert Values(t, 1, [0, 1]) == {"Yes", "No"};
    assert Less("No", "Yes");
    var keys := Distinct(t, 1, [0, 1]);
    AscendingUnique(keys, ["No", "Yes"]);
    assert Count(t, 1, [0, 1], "No") == 1;
    assert Count(t, 1, [0, 1], "Yes") == 1;
    assert keys[..1] == ["No"] && ["No"][..0] == [];
    assert ModeScan(t, 1, [0, 1], ["No"]) == ("No", 1);
  }
}
