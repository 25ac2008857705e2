/** What the builder decides at one node: whether the rows are pure, which
    label is the majority, and which unused feature splits them best. The
    information gain itself is floating-point entropy arithmetic and enters
    the model as a parameter. */
module Criterion {
  import opened StringOrder
  import opened Dataset

  /** Information gain of splitting the rows `ix` on the named feature. */
  type Gain = (seq<nat>, string) -> real

  /** A table the builder can run on: well formed, with the target among its headers. */
  predicate Trainable(t: Table, target: string)
  {
    WellFormed(t) && target in t.headers
  }

  function TargetColumn(t: Table, target: string): (col: nat)
    requires Trainable(t, target)
    ensures IsColumn(t, col) && t.headers[col] == target
  {
    ColumnIndex(t.headers, target)
  }

  /** The target cell of row `i`. */
  function Label(t: Table, target: string, i: nat): string
    requires Trainable(t, target) && i < |t.rows|
  {
    Cell(t, i, TargetColumn(t, target))
  }

  /** The target labels that occur among the rows `ix`. */
  function Labels(t: Table, target: string, ix: seq<nat>): set<string>
    requires Trainable(t, target) && ValidIndices(t, ix)
  {
    Values(t, TargetColumn(t, target), ix)
  }

  /** All the rows `ix` carry one and the same label (vacuously so when there are none). */
  predicate Pure(t: Table, target: string, ix: seq<nat>)
    requires Trainable(t, target) && ValidIndices(t, ix)
  {
    forall j, k | 0 <= j < |ix| && 0 <= k < |ix| :: Label(t, target, ix[j]) == Label(t, target, ix[k])
  }

  /** allSameClass: true for no rows; otherwise compares every label with
      the first and stops at the first difference. */
  method AllSameClass(t: Table, target: string, ix: seq<nat>) returns (same: bool)
    requires Trainable(t, target) && ValidIndices(t, ix)
    ensures same <==> Pure(t, target, ix)
  {
    if |ix| == 0 {
      return true;
    }
    var col := ColumnIndex(t.headers, target);
    var firstClass := Cell(t, ix[0], col);
    for k := 0 to |ix|
      invariant forall j | 0 <= j < k :: Label(t, target, ix[j]) == firstClass
    {
      if Cell(t, ix[k], col) != firstClass {
        return false;
      }
    }
    return true;
  }

  /** The scan of getMostCommonClass over the counts in key order: a key
      replaces the current best only with a strictly larger count. Returns
      the best key and its count; ("", 0) before any key. */
  function ModeScan(t: Table, col: int, ix: seq<nat>, keys: seq<string>): (string, nat)
    requires IsColumn(t, col) && ValidIndices(t, ix)
  {
    if keys == [] then ("", 0)
    else
      var best := ModeScan(t, col, ix, keys[..|keys| - 1]);
      var k := keys[|keys| - 1];
      if Count(t, col, ix, k) > best.1 then (k, Count(t, col, ix, k)) else best
  }

  /** The label getMostCommonClass returns for the rows `ix`. */
  function Majority(t: Table, target: string, ix: seq<nat>): string
    requires Trainable(t, target) && ValidIndices(t, ix)
  {
    var col := TargetColumn(t, target);
    ModeScan(t, col, ix, Distinct(t, col, ix)).0
  }

  /** Over ascending keys that all occur, the scan ends on a key of maximal
      count, and on the smallest such key. */
  lemma {:induction false} ModeScanIsSmallestMode(t: Table, col: int, ix: seq<nat>, keys: seq<string>)
    requires IsColumn(t, col) && ValidIndices(t, ix) && Ascending(keys)
    requires forall j | 0 <= j < |keys| :: Count(t, col, ix, keys[j]) > 0
    ensures keys == [] ==> ModeScan(t, col, ix, keys) == ("", 0)
    ensures keys != [] ==> ModeScan(t, col, ix, keys).0 in keys
    ensures Count(t, col, ix, ModeScan(t, col, ix, keys).0) == ModeScan(t, col, ix, keys).1 || keys == []
    ensures forall j | 0 <= j < |keys| :: Count(t, col, ix, keys[j]) <= ModeScan(t, col, ix, keys).1
    ensures forall j | 0 <= j < |keys| && Count(t, col, ix, keys[j]) == ModeScan(t, col, ix, keys).1 ::
              keys[j] == ModeScan(t, col, ix, keys).0 || Less(ModeScan(t, col, ix, keys).0, keys[j])
  {
    if keys != [] {
      var prefix := keys[..|keys| - 1];
      assert Ascending(prefix);
      ModeScanIsSmallestMode(t, col, ix, prefix);
      var best := ModeScan(t, col, ix, prefix);
      var k := keys[|keys| - 1];
      if Count(t, col, ix, k) <= best.1 {
        assert prefix != [];
        var m :| 0 <= m < |prefix| && prefix[m] == best.0;
        assert Less(keys[m], keys[|keys| - 1]);
      }
    }
  }

  /** getMostCommonClass returns a label of the rows with the largest count;
      on a tie, the lexicographically smallest of the tied labels (std::map
      visits keys in ascending order and the comparison is strict), not the
      one seen first. With no rows it returns the empty string. */
  lemma MajorityIsSmallestMode(t: Table, target: string, ix: seq<nat>)
    requires Trainable(t, target) && ValidIndices(t, ix)
    ensures ix == [] ==> Majority(t, target, ix) == ""
    ensures ix != [] ==> Majority(t, target, ix) in Labels(t, target, ix)
    ensures forall v | v in Labels(t, target, ix) ::
              var col := TargetColumn(t, target);
              var m := Majority(t, target, ix);
              Count(t, col, ix, v) <= Count(t, col, ix, m) &&
              (Count(t, col, ix, v) == Count(t, col, ix, m) ==> v == m || Less(m, v))
  {
    var col := TargetColumn(t, target);
    var keys := Distinct(t, col, ix);
    forall j | 0 <= j < |keys|
      ensures Count(t, col, ix, keys[j]) > 0
    {
      CountPositive(t, col, ix, keys[j]);
    }
    ModeScanIsSmallestMode(t, col, ix, keys);
    if ix != [] {
      assert Cell(t, ix[|ix| - 1], col) in Values(t, col, ix);
    }
    forall v | v in Labels(t, target, ix)
      ensures Count(t, col, ix, v) <= Count(t, col, ix, Majority(t, target, ix))
      ensures Count(t, col, ix, v) == Count(t, col, ix, Majority(t, target, ix)) ==>
                v == Majority(t, target, ix) || Less(Majority(t, target, ix), v)
    {
      var j :| 0 <= j < |keys| && keys[j] == v;
    }
  }

  /** getMostCommonClass: count the labels into a std::map, then keep the
      first key, in map order, whose count beats the best so far. */
  method MostCommonClass(t: Table, target: string, ix: seq<nat>) returns (mostCommon: string)
    requires Trainable(t, target) && ValidIndices(t, ix)
    ensures mostCommon == Majority(t, target, ix)
  {
    var col := ColumnIndex(t.headers, target);
    var keys, counts := CountValues(t, col, ix);
    mostCommon := "";
    var maxCount := 0;
    for i := 0 to |keys|
      invariant (mostCommon, maxCount) == ModeScan(t, col, ix, keys[..i])
    {
      assert keys[i] in keys;
      assert keys[i] in counts && counts[keys[i]] == Count(t, col, ix, keys[i]);
      assert keys[..i + 1][..i] == keys[..i];
      if counts[keys[i]] > maxCount {
        maxCount := counts[keys[i]];
        mostCommon := keys[i];
      }
    }
    assert keys[..|keys|] == keys;
  }

  /** A header findBestFeature may split on: not the target, not yet used on this path. */
  predicate Candidate(target: string, used: set<string>, h: string)
  {
    h != target && h !in used
  }

  /** The scan of findBestFeature over the headers: best gain starts at -1.0
      and a candidate replaces the best only with a strictly larger gain.
      Returns the best header and its gain. */
  function GainScan(headers: seq<string>, target: string, used: set<string>, g: Gain, ix: seq<nat>): (string, real)
  {
    if headers == [] then ("", -1.0)
    else
      var best := GainScan(headers[..|headers| - 1], target, used, g, ix);
      var h := headers[|headers| - 1];
      if Candidate(target, used, h) && g(ix, h) > best.1 then (h, g(ix, h)) else best
  }

  /** The header findBestFeature returns; the empty string means "none". */
  function BestFeature(t: Table, target: string, used: set<string>, g: Gain, ix: seq<nat>): string
  {
    GainScan(t.headers, target, used, g, ix).0
  }

  /** The scan ends either where it began, every candidate's gain being at
      most -1.0, or on a candidate with the largest gain, the first such one
      in header order. */
  lemma {:induction false} GainScanIsFirstArgmax(headers: seq<string>, target: string, used: set<string>, g: Gain, ix: seq<nat>)
    ensures var r := GainScan(headers, target, used, g, ix);
      forall j | 0 <= j < |headers| && Candidate(target, used, headers[j]) :: g(ix, headers[j]) <= r.1
    ensures var r := GainScan(headers, target, used, g, ix);
      || r == ("", -1.0)
      || exists i | 0 <= i < |headers| && Candidate(target, used, headers[i]) ::
           && r == (headers[i], g(ix, headers[i]))
           && r.1 > -1.0
           && forall j | 0 <= j < i && Candidate(target, used, headers[j]) :: g(ix, headers[j]) < r.1
  {
    if headers != [] {
      var prefix := headers[..|headers| - 1];
      GainScanIsFirstArgmax(prefix, target, used, g, ix);
      var best := GainScan(prefix, target, used, g, ix);
      var h := headers[|headers| - 1];
      var r := GainScan(headers, target, used, g, ix);
      if Candidate(target, used, h) && g(ix, h) > best.1 {
        assert r == (headers[|headers| - 1], g(ix, headers[|headers| - 1]));
      } else if best != ("", -1.0) {
        var i :| 0 <= i < |prefix| && Candidate(target, used, prefix[i]) &&
                 best == (prefix[i], g(ix, prefix[i])) && best.1 > -1.0 &&
                 forall j | 0 <= j < i && Candidate(target, used, prefix[j]) :: g(ix, prefix[j]) < best.1;
        assert headers[i] == prefix[i];
      }
    }
  }

  /** findBestFeature returns the empty string, or a header that is neither
      the target nor used, whose gain is the largest and beats every earlier
      candidate's. When every candidate's gain exceeds -1.0, the empty string
      comes back only if there is no candidate or the winning header is
      itself named "". */
  lemma BestFeatureSpec(t: Table, target: string, used: set<string>, g: Gain, ix: seq<nat>)
    ensures var b := BestFeature(t, target, used, g, ix);
      b == "" || (b in t.headers && Candidate(target, used, b))
    ensures var b := BestFeature(t, target, used, g, ix);
      b != "" ==> forall h | h in t.headers && Candidate(target, used, h) :: g(ix, h) <= g(ix, b)
    ensures var b := BestFeature(t, target, used, g, ix);
      (forall h | h in t.headers && Candidate(target, used, h) :: g(ix, h) > -1.0) &&
      (exists h | h in t.headers :: Candidate(target, used, h)) ==>
        b in t.headers && Candidate(target, used, b)
  {
    GainScanIsFirstArgmax(t.headers, target, used, g, ix);
    var r := GainScan(t.headers, target, used, g, ix);
    if (exists h | h in t.headers :: Candidate(target, used, h)) &&
       (forall h | h in t.headers && Candidate(target, used, h) :: g(ix, h) > -1.0) {
      var h :| h in t.headers && Candidate(target, used, h);
      var j :| 0 <= j < |t.headers| && t.headers[j] == h;
      assert r != ("", -1.0);
    }
    forall h | h in t.headers && Candidate(target, used, h)
      ensures g(ix, h) <= r.1
    {
      var j :| 0 <= j < |t.headers| && t.headers[j] == h;
    }
  }

  /** findBestFeature: one pass over the headers keeping the best gain. */
  method FindBestFeature(t: Table, target: string, used: set<string>, g: Gain, ix: seq<nat>) returns (bestFeature: string)
    ensures bestFeature == BestFeature(t, target, used, g, ix)
  {
    bestFeature := "";
    var bestGain := -1.0;
    for i := 0 to |t.headers|
      invariant (bestFeature, bestGain) == GainScan(t.headers[..i], target, used, g, ix)
    {
      var feature := t.headers[i];
      assert t.headers[..i + 1][..i] == t.headers[..i];
      if feature != target && feature !in used {
        var gain := g(ix, feature);
        if gain > bestGain {
          bestGain := gain;
          bestFeature := feature;
        }
      }
    }
    assert t.headers[..|t.headers|] == t.headers;
  }
}
