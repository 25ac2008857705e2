/** The order in which a std::map keyed by std::string keeps and visits its
    keys: byte-wise lexicographic order, a proper prefix sorting first. */
module StringOrder {

  /** `a` sorts strictly before `b`. */
  predicate Less(a: string, b: string)
    decreases |a|
  {
    if a == [] then b != []
    else if b == [] then false
    else a[0] < b[0] || (a[0] == b[0] && Less(a[1..], b[1..]))
  }

  lemma {:induction false} LessIrreflexive(a: string)
    ensures !Less(a, a)
    decreases |a|
  {
    if a != [] {
      LessIrreflexive(a[1..]);
    }
  }

  lemma {:induction false} LessTransitive(a: string, b: string, c: string)
    requires Less(a, b) && Less(b, c)
    ensures Less(a, c)
    decreases |a|
  {
    if a != [] && a[0] == b[0] && b[0] == c[0] {
      LessTransitive(a[1..], b[1..], c[1..]);
    }
  }

  /** Any two distinct strings are ordered one way or the other. */
  lemma {:induction false} LessTotal(a: string, b: string)
    ensures a == b || Less(a, b) || Less(b, a)
    decreases |a|
  {
    if a != [] && b != [] && a[0] == b[0] {
      LessTotal(a[1..], b[1..]);
      if a[1..] == b[1..] {
        assert a == [a[0]] + a[1..] && b == [b[0]] + b[1..];
      }
    }
  }

  /** Strictly increasing: the order in which std::map visits its keys. */
  predicate Ascending(s: seq<string>)
  {
    forall i, j | 0 <= i < j < |s| :: Less(s[i], s[j])
  }

  lemma AscendingCons(x: string, s: seq<string>)
    requires Ascending(s) && s != [] && Less(x, s[0])
    ensures Ascending([x] + s)
  {
    forall j | 1 <= j < |s| + 1
      ensures Less(x, ([x] + s)[j])
    {
      if j > 1 {
        LessTransitive(x, s[0], s[j - 1]);
      }
    }
  }

  /** The keys of a std::map after inserting `x` into one whose keys were `s`:
      `x` goes to its ordered place unless it is already there. */
  function Insert(s: seq<string>, x: string): (r: seq<string>)
    requires Ascending(s)
    ensures Ascending(r)
    ensures forall y :: y in r <==> y in s || y == x
    ensures x in s ==> r == s
  {
    if s == [] then [x]
    else if x == s[0] then s
    else if Less(x, s[0]) then
      assert x !in s by {
        if x in s {
          var k :| 0 <= k < |s| && s[k] == x;
          LessTransitive(x, s[0], x);
          LessIrreflexive(x);
        }
      }
      AscendingCons(x, s);
      [x] + s
    else
      LessTotal(x, s[0]);
      var tail := Insert(s[1..], x);
      assert forall y | y in tail :: Less(s[0], y) by {
        forall y | y in tail
          ensures Less(s[0], y)
        {
          if y != x {
            var k :| 1 <= k < |s| && s[k] == y;
          }
        }
      }
      assert x in s ==> x in s[1..];
      [s[0]] + tail
  }

  /** An ascending sequence is fixed by its elements: there is only one way
      to list a set of keys in map order. */
  lemma {:induction false} AscendingUnique(s: seq<string>, u: seq<string>)
    requires Ascending(s) && Ascending(u)
    requires forall y :: y in s <==> y in u
    ensures s == u
    decreases |s|
  {
    assert s != [] ==> s[0] in s;
    assert u != [] ==> u[0] in u;
    if s != [] && u != [] {
      if s[0] != u[0] {
        assert s[0] in s && u[0] in u;
        var i :| 0 <= i < |u| && u[i] == s[0];
        var j :| 0 <= j < |s| && s[j] == u[0];
        LessIrreflexive(s[0]);
        if i > 0 && j > 0 {
          LessTransitive(s[0], s[j], u[i]);
        }
        assert false;
      }
      forall y
        ensures y in s[1..] <==> y in u[1..]
      {
        if y in s[1..] {
          var k :| 0 <= k < |s| - 1 && s[1..][k] == y;
          LessIrreflexive(s[0]);
          assert s[k + 1] == y && y in u;
          var m :| 0 <= m < |u| && u[m] == y;
          assert m != 0;
          assert u[1..][m - 1] == y;
        }
        if y in u[1..] {
          var k :| 0 <= k < |u| - 1 && u[1..][k] == y;
          LessIrreflexive(u[0]);
          assert u[k + 1] == y && y in s;
          var m :| 0 <= m < |s| && s[m] == y;
          assert m != 0;
          assert s[1..][m - 1] == y;
        }
      }
      AscendingUnique(s[1..], u[1..]);
    }
  }
}
