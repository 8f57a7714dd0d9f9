/** Facts about finite sets of row ids and the order in which rows are read back. */
module Keys {

  /** A sequence of ids in which no id occurs twice. */
  predicate Distinct(s: seq<int>)
  {
    forall i, j :: 0 <= i < j < |s| ==> s[i] != s[j]
  }

  /** A non-empty set has an element. */
  lemma NonEmpty(s: set<int>)
    requires s != {}
    ensures exists x :: x in s
  {
    if forall x :: x !in s { assert false; }
  }

  /** Every non-empty set of ids has a least element. */
  lemma {:induction false} MinExists(s: set<int>)
    requires s != {}
    ensures exists m :: m in s && forall k :: k in s ==> m <= k
    decreases |s|
  {
    NonEmpty(s);
    var x :| x in s;
    var rest := s - {x};
    if rest == {} {
      forall k | k in s ensures x <= k { assert k in rest || k == x; }
    } else {
      MinExists(rest);
      var y :| y in rest && forall k :: k in rest ==> y <= k;
      var m := if x < y then x else y;
      forall k | k in s ensures m <= k { assert k in rest || k == x; }
    }
  }

  /** The ids of a table in ascending order: the order in which the model reads a table
      that a query does not sort. */
  function SortedKeys(s: set<int>): (r: seq<int>)
    ensures forall i, j :: 0 <= i < j < |r| ==> r[i] < r[j]
    ensures forall k :: k in s <==> k in r
    decreases |s|
  {
    if s == {} then []
    else
      MinExists(s);
      var m :| m in s && forall k :: k in s ==> m <= k;
      var rest := SortedKeys(s - {m});
      LeastFirst(s, m, rest);
      [m] + rest
  }

  /** The least id of s put in front of the others in ascending order lists s in
      ascending order. */
  lemma LeastFirst(s: set<int>, m: int, rest: seq<int>)
    requires m in s && forall k :: k in s ==> m <= k
    requires forall i, j :: 0 <= i < j < |rest| ==> rest[i] < rest[j]
    requires forall k :: k in s - {m} <==> k in rest
    ensures var r := [m] + rest;
      (forall i, j :: 0 <= i < j < |r| ==> r[i] < r[j]) && forall k :: k in s <==> k in r
  {
    var r := [m] + rest;
    forall i, j | 0 <= i < j < |r| ensures r[i] < r[j] {
      if i == 0 { assert r[j] == rest[j - 1] && r[j] in rest; }
      else { assert r[i] == rest[i - 1] && r[j] == rest[j - 1]; }
    }
  }

  /** A sequence without repetitions has as many elements as the set of its elements. */
  lemma {:induction false} DistinctCard(s: seq<int>, t: set<int>)
    requires Distinct(s)
    requires forall k :: k in t <==> k in s
    ensures |t| == |s|
    decreases |s|
  {
    if s != [] {
      var last := s[|s| - 1];
      var init := s[..|s| - 1];
      assert Distinct(init);
      forall k ensures k in t - {last} <==> k in init {
        if k in s && k != last {
          var i :| 0 <= i < |s| && s[i] == k;
          assert i < |s| - 1;
          assert init[i] == k;
        }
        if k in init {
          var i :| 0 <= i < |init| && init[i] == k;
          assert s[i] == k && i < |s| - 1;
        }
      }
      DistinctCard(init, t - {last});
      assert last in t;
    } else {
      if t != {} {
        NonEmpty(t);
        assert false;
      }
    }
  }
}
