/** The training table and the exact bookkeeping done over row indices:
    column lookup by name, per-value counts and per-value groups. The
    builder never copies rows; a partition is a sequence of row indices. */
module Dataset {
  import opened StringOrder

  type Row = seq<string>

  /** Column names (the target among them) and the data rows. */
  datatype Table = Table(headers: seq<string>, rows: seq<Row>)

  /** Every row has one cell per header. The loader does not enforce this;
      the core relies on it. */
  predicate WellFormed(t: Table)
  {
    forall i | 0 <= i < |t.rows| :: |t.rows[i]| == |t.headers|
  }

  /** `col` is a column of a well-formed table. */
  predicate IsColumn(t: Table, col: int)
  {
    WellFormed(t) && 0 <= col < |t.headers|
  }

  predicate ValidIndices(t: Table, ix: seq<nat>)
  {
    forall k | 0 <= k < |ix| :: ix[k] < |t.rows|
  }

  /** Position of the first header equal to `name`, or -1 when none is. */
  function ColumnIndex(headers: seq<string>, name: string): (r: int)
    ensures -1 <= r < |headers|
    ensures r == -1 <==> name !in headers
    ensures r >= 0 ==> headers[r] == name && forall j | 0 <= j < r :: headers[j] != name
  {
    if headers == [] then -1
    else if headers[0] == name then 0
    else
      var k := ColumnIndex(headers[1..], name);
      if k == -1 then -1 else k + 1
  }

  function Cell(t: Table, i: nat, col: int): string
    requires IsColumn(t, col) && i < |t.rows|
  {
    t.rows[i][col]
  }

  /** The values column `col` takes among the rows `ix`. */
  function Values(t: Table, col: int, ix: seq<nat>): set<string>
    requires IsColumn(t, col) && ValidIndices(t, ix)
  {
    if ix == [] then {} else Values(t, col, ix[..|ix| - 1]) + {Cell(t, ix[|ix| - 1], col)}
  }

  /** A value is among the `Values` exactly when some row of `ix` holds it. */
  lemma {:induction false} ValuesHeld(t: Table, col: int, ix: seq<nat>, v: string)
    requires IsColumn(t, col) && ValidIndices(t, ix)
    ensures v in Values(t, col, ix) <==> exists k | 0 <= k < |ix| :: Cell(t, ix[k], col) == v
  {
    if ix != [] {
      var prefix := ix[..|ix| - 1];
      ValuesHeld(t, col, prefix, v);
      if v in Values(t, col, prefix) {
        var k :| 0 <= k < |prefix| && Cell(t, prefix[k], col) == v;
        assert ix[k] == prefix[k];
      }
      if exists k | 0 <= k < |ix| :: Cell(t, ix[k], col) == v {
        var k :| 0 <= k < |ix| && Cell(t, ix[k], col) == v;
        if k < |prefix| {
          assert prefix[k] == ix[k];
        }
      }
    }
  }

  /** How many of the rows `ix` have `v` in column `col`. */
  function Count(t: Table, col: int, ix: seq<nat>, v: string): nat
    requires IsColumn(t, col) && ValidIndices(t, ix)
  {
    if ix == [] then 0
    else Count(t, col, ix[..|ix| - 1], v) + (if Cell(t, ix[|ix| - 1], col) == v then 1 else 0)
  }

  /** The rows of `ix` whose column `col` holds `v`, in their order in `ix`. */
  function Filter(t: Table, col: int, ix: seq<nat>, v: string): (r: seq<nat>)
    requires IsColumn(t, col) && ValidIndices(t, ix)
    ensures ValidIndices(t, r)
  {
    if ix == [] then []
    else
      var last := ix[|ix| - 1];
      Filter(t, col, ix[..|ix| - 1], v) + (if Cell(t, last, col) == v then [last] else [])
  }

  /** The distinct values of column `col` among `ix`, in the order a
      std::map keyed by them visits them. */
  function Distinct(t: Table, col: int, ix: seq<nat>): (r: seq<string>)
    requires IsColumn(t, col) && ValidIndices(t, ix)
    ensures Ascending(r)
    ensures forall v :: v in r <==> v in Values(t, col, ix)
  {
    if ix == [] then []
    else
      Insert(Distinct(t, col, ix[..|ix| - 1]), Cell(t, ix[|ix| - 1], col))
  }

  /** A value has a positive count exactly when some row of `ix` holds it. */
  lemma {:induction false} CountPositive(t: Table, col: int, ix: seq<nat>, v: string)
    requires IsColumn(t, col) && ValidIndices(t, ix)
    ensures Count(t, col, ix, v) > 0 <==> v in Values(t, col, ix)
  {
    if ix != [] {
      CountPositive(t, col, ix[..|ix| - 1], v);
    }
  }

  /** The group of `v` holds exactly the rows of `ix` whose cell is `v`, each
      as often as in `ix`: so the groups of the distinct values are
      non-empty, pairwise disjoint, and together are `ix` again. */
  lemma {:induction false} FilterPartition(t: Table, col: int, ix: seq<nat>, v: string)
    requires IsColumn(t, col) && ValidIndices(t, ix)
    ensures |Filter(t, col, ix, v)| == Count(t, col, ix, v)
    ensures forall i | i in Filter(t, col, ix, v) :: i in ix && Cell(t, i, col) == v
    ensures forall i: nat | i < |t.rows| ::
      multiset(Filter(t, col, ix, v))[i] == if Cell(t, i, col) == v then multiset(ix)[i] else 0
  {
    if ix != [] {
      var prefix := ix[..|ix| - 1];
      FilterPartition(t, col, prefix, v);
      assert ix == prefix + [ix[|ix| - 1]];
    }
  }

  /** Every row of `ix` falls in the group of its own value, which is one
      of the keys, and in no other group. */
  lemma GroupsPartition(t: Table, col: int, ix: seq<nat>, j: nat)
    requires IsColumn(t, col) && ValidIndices(t, ix) && j < |ix|
    ensures Cell(t, ix[j], col) in Distinct(t, col, ix)
    ensures forall v :: ix[j] in Filter(t, col, ix, v) <==> v == Cell(t, ix[j], col)
  {
    ValuesHeld(t, col, ix, Cell(t, ix[j], col));
    assert ix[j] in multiset(ix);
    forall v
      ensures ix[j] in Filter(t, col, ix, v) <==> v == Cell(t, ix[j], col)
    {
      FilterPartition(t, col, ix, v);
      assert ix[j] in Filter(t, col, ix, v) <==> ix[j] in multiset(Filter(t, col, ix, v));
    }
  }

  /** `keys` and `counts` are the std::map the counting loop has built over `ix`. */
  predicate Tallied(t: Table, col: int, ix: seq<nat>, keys: seq<string>, counts: map<string, nat>)
    requires IsColumn(t, col) && ValidIndices(t, ix)
  {
    && keys == Distinct(t, col, ix)
    && counts.Keys == Values(t, col, ix)
    && forall v | v in counts :: counts[v] == Count(t, col, ix, v)
  }

  /** `keys` and `groups` are the std::map the grouping loop has built over `ix`. */
  predicate Grouped(t: Table, col: int, ix: seq<nat>, keys: seq<string>, groups: map<string, seq<nat>>)
    requires IsColumn(t, col) && ValidIndices(t, ix)
  {
    && keys == Distinct(t, col, ix)
    && groups.Keys == Values(t, col, ix)
    && forall v | v in groups :: groups[v] == Filter(t, col, ix, v)
  }

  /** The values any column takes on a group are among those it takes on all the rows. */
  lemma {:induction false} FilterValues(t: Table, col: int, ix: seq<nat>, v: string, other: int)
    requires IsColumn(t, col) && IsColumn(t, other) && ValidIndices(t, ix)
    ensures Values(t, other, Filter(t, col, ix, v)) <= Values(t, other, ix)
  {
    if ix != [] {
      var prefix := ix[..|ix| - 1];
      FilterValues(t, col, prefix, v, other);
      var last := ix[|ix| - 1];
      var f := Filter(t, col, prefix, v);
      if Cell(t, last, col) == v {
        var f' := f + [last];
        assert f' == Filter(t, col, ix, v);
        assert f'[..|f'| - 1] == f;
        assert Values(t, other, f') == Values(t, other, f) + {Cell(t, last, other)};
      } else {
        assert f == Filter(t, col, ix, v);
      }
      assert Values(t, other, ix) == Values(t, other, prefix) + {Cell(t, last, other)};
    }
  }

  /** The counting loop: `counts[value]++` over the rows, into a std::map,
      whose ascending key order is returned as `keys`. */
  method CountValues(t: Table, col: int, ix: seq<nat>) returns (keys: seq<string>, counts: map<string, nat>)
    requires IsColumn(t, col) && ValidIndices(t, ix)
    ensures keys == Distinct(t, col, ix)
    ensures counts.Keys == Values(t, col, ix)
    ensures forall v | v in counts :: counts[v] == Count(t, col, ix, v)
  {
    keys, counts := [], map[];
    for i := 0 to |ix|
      invariant Tallied(t, col, ix[..i], keys, counts)
    {
      TallyStep(t, col, ix, i, keys, counts);
      var v := Cell(t, ix[i], col);
      if v !in counts {
        keys := Insert(keys, v);
      }
      // operator[] starts a missing count at zero
      counts := counts[v := (if v in counts then counts[v] else 0) + 1];
    }
    assert ix[..|ix|] == ix;
  }

  /** The grouping loop: `groups[value].push_back(index)` over the rows,
      into a std::map, whose ascending key order is returned as `keys`. */
  method GroupBy(t: Table, col: int, ix: seq<nat>) returns (keys: seq<string>, groups: map<string, seq<nat>>)
    requires IsColumn(t, col) && ValidIndices(t, ix)
    ensures keys == Distinct(t, col, ix)
    ensures groups.Keys == Values(t, col, ix)
    ensures forall v | v in groups :: groups[v] == Filter(t, col, ix, v)
  {
    keys, groups := [], map[];
    for i := 0 to |ix|
      invariant Grouped(t, col, ix[..i], keys, groups)
    {
      GroupStep(t, col, ix, i, keys, groups);
      var v := Cell(t, ix[i], col);
      if v !in groups {
        keys := Insert(keys, v);
      }
      // operator[] starts a missing group empty
      groups := groups[v := (if v in groups then groups[v] else []) + [ix[i]]];
    }
    assert ix[..|ix|] == ix;
  }

  lemma TallyStep(t: Table, col: int, ix: seq<nat>, i: nat, keys: seq<string>, counts: map<string, nat>)
    requires IsColumn(t, col) && ValidIndices(t, ix) && i < |ix|
    requires Tallied(t, col, ix[..i], keys, counts)
    ensures var v := Cell(t, ix[i], col);
      Tallied(t, col, ix[..i + 1],
              if v in counts then keys else Insert(keys, v),
              counts[v := (if v in counts then counts[v] else 0) + 1])
  {
    var v := Cell(t, ix[i], col);
    KeysStep(t, col, ix, i, keys, counts.Keys, v);
    CountsStep(t, col, ix, i, counts);
  }

  /** The counts after one more row: that row's value goes up by one. */
  lemma CountsStep(t: Table, col: int, ix: seq<nat>, i: nat, counts: map<string, nat>)
    requires IsColumn(t, col) && ValidIndices(t, ix) && i < |ix|
    requires counts.Keys == Values(t, col, ix[..i])
    requires forall v | v in counts :: counts[v] == Count(t, col, ix[..i], v)
    ensures var v := Cell(t, ix[i], col);
      var counts' := counts[v := (if v in counts then counts[v] else 0) + 1];
      forall w | w in counts' :: counts'[w] == Count(t, col, ix[..i + 1], w)
  {
    var v := Cell(t, ix[i], col);
    var counts' := counts[v := (if v in counts then counts[v] else 0) + 1];
    forall w | w in counts'
      ensures counts'[w] == Count(t, col, ix[..i + 1], w)
    {
      CountSnoc(t, col, ix, i, w);
      if w != v {
        assert counts'[w] == counts[w];
      } else if v !in counts {
        CountPositive(t, col, ix[..i], v);
      }
    }
  }

  lemma GroupStep(t: Table, col: int, ix: seq<nat>, i: nat, keys: seq<string>, groups: map<string, seq<nat>>)
    requires IsColumn(t, col) && ValidIndices(t, ix) && i < |ix|
    requires Grouped(t, col, ix[..i], keys, groups)
    ensures var v := Cell(t, ix[i], col);
      Grouped(t, col, ix[..i + 1],
              if v in groups then keys else Insert(keys, v),
              groups[v := (if v in groups then groups[v] else []) + [ix[i]]])
  {
    var v := Cell(t, ix[i], col);
    var groups' := groups[v := (if v in groups then groups[v] else []) + [ix[i]]];
    KeysStep(t, col, ix, i, keys, groups.Keys, v);
    assert (if v in groups then keys else Insert(keys, v)) == Distinct(t, col, ix[..i + 1]);
    assert groups'.Keys == Values(t, col, ix[..i + 1]);
    assert forall w | w in groups' :: groups'[w] == Filter(t, col, ix[..i + 1], w) by {
      forall w | w in groups'
        ensures groups'[w] == Filter(t, col, ix[..i + 1], w)
      {
        CountSnoc(t, col, ix, i, w);
        if w == v && v !in groups {
          FilterAbsent(t, col, ix[..i], v);
        }
      }
    }
  }

  /** The key part shared by both loops: a new value is inserted in order. */
  lemma KeysStep(t: Table, col: int, ix: seq<nat>, i: nat, keys: seq<string>, present: set<string>, v: string)
    requires IsColumn(t, col) && ValidIndices(t, ix) && i < |ix| && v == Cell(t, ix[i], col)
    requires keys == Distinct(t, col, ix[..i]) && present == Values(t, col, ix[..i])
    ensures v in present ==> keys == Distinct(t, col, ix[..i + 1])
    ensures v !in present ==> Insert(keys, v) == Distinct(t, col, ix[..i + 1])
    ensures present + {v} == Values(t, col, ix[..i + 1])
  {
    PrefixSnoc(t, col, ix, i);
    if v in present {
      assert v in Distinct(t, col, ix[..i]);
    }
  }

  /** A value no row holds has an empty group. */
  lemma {:induction false} FilterAbsent(t: Table, col: int, ix: seq<nat>, v: string)
    requires IsColumn(t, col) && ValidIndices(t, ix)
    requires v !in Values(t, col, ix)
    ensures Filter(t, col, ix, v) == []
  {
    if ix != [] {
      FilterAbsent(t, col, ix[..|ix| - 1], v);
    }
  }

  /** How the bookkeeping over `ix[..i]` grows by the row `ix[i]`. */
  lemma PrefixSnoc(t: Table, col: int, ix: seq<nat>, i: nat)
    requires IsColumn(t, col) && ValidIndices(t, ix) && i < |ix|
    ensures Values(t, col, ix[..i + 1]) == Values(t, col, ix[..i]) + {Cell(t, ix[i], col)}
    ensures Distinct(t, col, ix[..i + 1]) == Insert(Distinct(t, col, ix[..i]), Cell(t, ix[i], col))
  {
    assert ix[..i + 1][..i] == ix[..i];
  }

  lemma CountSnoc(t: Table, col: int, ix: seq<nat>, i: nat, v: string)
    requires IsColumn(t, col) && ValidIndices(t, ix) && i < |ix|
    ensures Count(t, col, ix[..i + 1], v) == Count(t, col, ix[..i], v) + (if Cell(t, ix[i], col) == v then 1 else 0)
    ensures Filter(t, col, ix[..i + 1], v) == Filter(t, col, ix[..i], v) + (if Cell(t, ix[i], col) == v then [ix[i]] else [])
  {
    assert ix[..i + 1][..i] == ix[..i];
  }
}
