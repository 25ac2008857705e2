/** The string handling around the tree: splitting a line at a delimiter the
    way repeated std::getline does, trimming spaces and tabs, the cells of a
    CSV line, and the `feature=value,...` query line read in main. */
module Query {
  import opened Wrappers

  /** The characters the trim idiom strips. */
  predicate Blank(c: char)
  {
    c == ' ' || c == '\t'
  }

  /** find_first_not_of(" \t"), with |s| standing for npos. */
  function FirstNonBlank(s: string): (i: nat)
    ensures i <= |s|
    ensures forall k | 0 <= k < i :: Blank(s[k])
    ensures i < |s| ==> !Blank(s[i])
  {
    if s == [] || !Blank(s[0]) then 0 else 1 + FirstNonBlank(s[1..])
  }

  /** find_last_not_of(" \t"), with -1 standing for npos (so that npos + 1
      wraps to 0, as the unsigned arithmetic does). */
  function LastNonBlank(s: string): (j: int)
    ensures -1 <= j < |s|
    ensures forall k | j < k < |s| :: Blank(s[k])
    ensures 0 <= j ==> !Blank(s[j])
  {
    if s == [] then -1
    else if !Blank(s[|s| - 1]) then |s| - 1
    else LastNonBlank(s[..|s| - 1])
  }

  /** Erase the leading blanks, then everything after the last non-blank;
      what is left starts and ends with a non-blank. */
  function Trim(s: string): (r: string)
    ensures |r| <= |s|
    ensures r != [] ==> !Blank(r[0]) && !Blank(r[|r| - 1])
  {
    var a := s[FirstNonBlank(s)..];
    a[..LastNonBlank(a) + 1]
  }

  /** The trimmed string is the run of `s` between its first and last
      non-blank characters: blanks only lie outside it. */
  lemma TrimSpec(s: string)
    ensures FirstNonBlank(s) + |Trim(s)| <= |s|
    ensures Trim(s) == s[FirstNonBlank(s)..FirstNonBlank(s) + |Trim(s)|]
    ensures forall k | 0 <= k < |s| && !(FirstNonBlank(s) <= k < FirstNonBlank(s) + |Trim(s)|) :: Blank(s[k])
  {
  }

  /** Trimming twice is trimming once. */
  lemma TrimIdempotent(s: string)
    ensures Trim(Trim(s)) == Trim(s)
  {
    var r := Trim(s);
    if r != [] {
      assert FirstNonBlank(r) == 0;
      assert LastNonBlank(r) == |r| - 1;
      assert r[0..][..|r|] == r;
    }
  }

  /** Only a string of blanks trims to the empty string. */
  lemma TrimEmpty(s: string)
    ensures Trim(s) == [] <==> forall k | 0 <= k < |s| :: Blank(s[k])
  {
    if Trim(s) != [] {
      assert !Blank(s[FirstNonBlank(s)]);
    }
  }

  /** Position of the first `d` in `s`; `|s|` when there is none (npos). */
  function FindChar(s: string, d: char): (i: nat)
    ensures i <= |s|
    ensures i < |s| ==> s[i] == d
    ensures forall k | 0 <= k < i :: s[k] != d
  {
    if s == [] then 0 else if s[0] == d then 0 else 1 + FindChar(s[1..], d)
  }

  /** The pieces repeated getline(stream, piece, d) yields: the text between
      delimiters, with no empty piece after a final delimiter and none at
      all for an empty line. */
  function Split(s: string, d: char): (pieces: seq<string>)
    ensures forall i | 0 <= i < |pieces| :: d !in pieces[i]
    ensures s == [] <==> pieces == []
    decreases |s|
  {
    if s == [] then []
    else
      var k := FindChar(s, d);
      if k == |s| then [s] else [s[..k]] + Split(s[k + 1..], d)
  }

  /** Pieces glued back together with `d` between them. */
  function Join(pieces: seq<string>, d: char): string
  {
    if pieces == [] then []
    else if |pieces| == 1 then pieces[0]
    else pieces[0] + [d] + Join(pieces[1..], d)
  }

  /** Splitting loses only a delimiter at the very end of the line. */
  lemma {:induction false} JoinSplit(s: string, d: char)
    ensures s != [] && s[|s| - 1] == d ==> Join(Split(s, d), d) + [d] == s
    ensures s == [] || s[|s| - 1] != d ==> Join(Split(s, d), d) == s
    decreases |s|
  {
    if s != [] {
      var k := FindChar(s, d);
      if k == |s| {
        assert Split(s, d) == [s];
        assert s[|s| - 1] != d;
      } else {
        var rest := s[k + 1..];
        var front := s[..k];
        assert s == front + [d] + rest;
        JoinSplit(rest, d);
        var p := Split(rest, d);
        assert Split(s, d) == [front] + p;
        if rest == [] {
          assert Join([front], d) == front;
        } else {
          assert ([front] + p)[1..] == p;
          assert Join(Split(s, d), d) == front + [d] + Join(p, d);
          assert s[|s| - 1] == rest[|rest| - 1];
        }
      }
    }
  }

  /** A CSV line's cells, as loadCSV builds a row: split at ',' and trimmed.
      No cell holds a comma or starts or ends with a blank. */
  function ParseRow(line: string): (row: seq<string>)
    ensures |row| == |Split(line, ',')|
    ensures forall i | 0 <= i < |row| :: ',' !in row[i]
    ensures forall i | 0 <= i < |row| :: row[i] != [] ==> !Blank(row[i][0]) && !Blank(row[i][|row[i]| - 1])
  {
    var pieces := Split(line, ',');
    seq(|pieces|, i requires 0 <= i < |pieces| => TrimKeepsOut(pieces[i], ','); Trim(pieces[i]))
  }

  /** Trimming adds no character: a string without `c` trims to one without `c`. */
  lemma TrimKeepsOut(s: string, c: char)
    requires c !in s
    ensures c !in Trim(s)
  {
  }

  /** One `feature=value` assignment of a query line. */
  datatype Assignment = Assignment(feature: string, value: string)

  /** A query piece split at its first '=', both sides trimmed; a piece
      without '=' is skipped. */
  function ParsePair(piece: string): (a: Option<Assignment>)
    ensures a.None? <==> '=' !in piece
    ensures a.Some? ==> '=' !in a.value.feature
  {
    var pos := FindChar(piece, '=');
    if pos == |piece| then None
    else
      TrimKeepsOut(piece[..pos], '=');
      Some(Assignment(Trim(piece[..pos]), Trim(piece[pos + 1..])))
  }

  /** A piece written `feature=value` with no '=' in the feature parses to
      that assignment, trimmed; the value may hold further '='. */
  lemma ParsePairOf(feature: string, value: string)
    requires '=' !in feature
    ensures ParsePair(feature + "=" + value) == Some(Assignment(Trim(feature), Trim(value)))
  {
    var piece := feature + "=" + value;
    assert piece[|feature|] == '=';
    assert FindChar(piece, '=') == |feature|;
    assert piece[..|feature|] == feature;
    assert piece[|feature| + 1..] == value;
  }

  /** The parse of each piece of a query line, in order. */
  function Pairs(pieces: seq<string>): (pairs: seq<Option<Assignment>>)
    ensures |pairs| == |pieces|
  {
    seq(|pieces|, i requires 0 <= i < |pieces| => ParsePair(pieces[i]))
  }

  /** The instance built from parsed pieces in order, a later assignment to
      a feature overwriting an earlier one and a skipped piece changing
      nothing. */
  function Collect(pairs: seq<Option<Assignment>>): map<string, string>
    decreases |pairs|
  {
    if pairs == [] then map[]
    else
      var m := Collect(pairs[..|pairs| - 1]);
      match pairs[|pairs| - 1]
      case None => m
      case Some(a) => m[a.feature := a.value]
  }

  /** A parsed piece assigns `feature`. */
  predicate Assigns(p: Option<Assignment>, feature: string)
  {
    p.Some? && p.value.feature == feature
  }

  /** A feature is in the instance exactly when some piece assigns it. */
  lemma {:induction false} CollectFeatures(pairs: seq<Option<Assignment>>, feature: string)
    ensures feature in Collect(pairs) <==> exists i | 0 <= i < |pairs| :: Assigns(pairs[i], feature)
    decreases |pairs|
  {
    if pairs != [] {
      var n := |pairs| - 1;
      var front := pairs[..n];
      CollectFeatures(front, feature);
      if !Assigns(pairs[n], feature) {
        if exists i | 0 <= i < |pairs| :: Assigns(pairs[i], feature) {
          var i :| 0 <= i < |pairs| && Assigns(pairs[i], feature);
          assert Assigns(front[i], feature);
        }
        if exists i | 0 <= i < n :: Assigns(front[i], feature) {
          var i :| 0 <= i < n && Assigns(front[i], feature);
          assert Assigns(pairs[i], feature);
        }
      }
    }
  }

  /** The value of a feature is the one from the last piece assigning it. */
  lemma {:induction false} CollectLastWins(pairs: seq<Option<Assignment>>, i: nat)
    requires i < |pairs| && pairs[i].Some?
    requires forall j | i < j < |pairs| :: !Assigns(pairs[j], pairs[i].value.feature)
    ensures pairs[i].value.feature in Collect(pairs)
    ensures Collect(pairs)[pairs[i].value.feature] == pairs[i].value.value
    decreases |pairs|
  {
    var n := |pairs| - 1;
    if i < n {
      var front := pairs[..n];
      assert front[i] == pairs[i];
      forall j | i < j < |front|
        ensures !Assigns(front[j], front[i].value.feature)
      {
        assert front[j] == pairs[j];
      }
      CollectLastWins(front, i);
      assert !Assigns(pairs[n], pairs[i].value.feature);
    }
  }

  /** One more piece: a skipped piece leaves the instance as it was, an
      assignment overwrites its feature. */
  lemma CollectStep(pairs: seq<Option<Assignment>>, i: nat)
    requires i < |pairs|
    ensures pairs[i].None? ==> Collect(pairs[..i + 1]) == Collect(pairs[..i])
    ensures pairs[i].Some? ==>
      Collect(pairs[..i + 1]) == Collect(pairs[..i])[pairs[i].value.feature := pairs[i].value.value]
  {
    assert pairs[..i + 1][..i] == pairs[..i];
  }

  /** main's parse of one query line: each ','-piece holding '=' assigns
      its trimmed value to its trimmed feature, later pieces winning. */
  method ParseInstance(line: string) returns (instance: map<string, string>)
    ensures instance == Collect(Pairs(Split(line, ',')))
  {
    var pieces := Split(line, ',');
    ghost var pairs := Pairs(pieces);
    instance := map[];
    for i := 0 to |pieces|
      invariant instance == Collect(pairs[..i])
    {
      CollectStep(pairs, i);
      var piece := pieces[i];
      var pos := FindChar(piece, '=');
      if pos != |piece| {
        var feature := Trim(piece[..pos]);
        var value := Trim(piece[pos + 1..]);
        assert pairs[i] == Some(Assignment(feature, value));
        instance := instance[feature := value];
      } else {
        assert pairs[i] == None;
      }
    }
    assert pairs[..|pairs|] == pairs;
  }
}
