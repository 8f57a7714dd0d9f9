/** The reply tree of video comments (comments.py): `comment.replies` are the comments
    whose `replied_id` names it, and `get_all_replies` flattens a comment's replies, and
    theirs, depth first, each reply before the replies to it. */
module ReplyTree {
  import opened Records
  import Keys

  /** Every reply answers a stored comment with a smaller id, so following `replied_id`
      always ends, and the reply relation has no cycles. */
  ghost predicate Forest(cs: map<int, Comment>)
  {
    forall k {:trigger cs[k]} :: k in cs && cs[k].repliedId.Some? ==>
      cs[k].repliedId.value in cs && cs[k].repliedId.value < k
  }

  lemma WellFormedIsForest(users: map<int, User>, cs: map<int, Comment>)
    requires CommentsWellFormed(users, cs)
    ensures Forest(cs)
  {
  }

  /** Strictly ascending, as ids read in id order are. */
  ghost predicate Increasing(s: seq<int>)
  {
    forall i, j :: 0 <= i < j < |s| ==> s[i] < s[j]
  }

  /** `comment.replies`: the direct replies to p, in id order. */
  function Children(cs: map<int, Comment>, p: int): (r: seq<int>)
    ensures forall k {:trigger k in r} :: k in r <==> k in cs && cs[k].repliedId == Some(p)
    ensures Increasing(r)
    ensures RepliesTo(cs, p, r)
  {
    var r := Keys.SortedKeys(set k | k in cs && cs[k].repliedId == Some(p));
    assert forall i :: 0 <= i < |r| ==> r[i] in r;
    r
  }

  /** Stored ids above x: shrinks when the flattening moves from a comment to a reply. */
  function Above(cs: map<int, Comment>, x: int): set<int>
  {
    set k | k in cs && k > x
  }

  /** Stored ids below y: shrinks when moving from a reply to the comment it answers. */
  function Below(cs: map<int, Comment>, y: int): set<int>
  {
    set k | k in cs && k < y
  }

  lemma AboveShrinks(cs: map<int, Comment>, x: int, c: int)
    requires c in cs && x < c
    ensures Above(cs, c) < Above(cs, x)
  {
    assert c in Above(cs, x) && c !in Above(cs, c);
  }

  lemma BelowShrinks(cs: map<int, Comment>, q: int, y: int)
    requires q in cs && q < y
    ensures Below(cs, q) < Below(cs, y)
  {
    assert q in Below(cs, y) && q !in Below(cs, q);
  }

  /** A children list of p: stored comments that reply to p. */
  ghost predicate RepliesTo(cs: map<int, Comment>, p: int, ids: seq<int>)
  {
    forall i :: 0 <= i < |ids| ==> ids[i] in cs && cs[ids[i]].repliedId == Some(p)
  }

  /** x followed by the flattening of its replies: x's subtree in preorder. */
  function FlattenNode(cs: map<int, Comment>, x: int): (r: seq<int>)
    requires Forest(cs) && x in cs
    ensures forall y :: y in r ==> y in cs
    decreases Above(cs, x), 1, 0
  {
    [x] + FlattenList(cs, x, Children(cs, x))
  }

  /** What `get_all_replies(ids, result)` appends to `result`, for replies ids of p. */
  function FlattenList(cs: map<int, Comment>, p: int, ids: seq<int>): (r: seq<int>)
    requires Forest(cs) && RepliesTo(cs, p, ids)
    ensures forall y :: y in r ==> y in cs
    decreases Above(cs, p), 0, |ids|
  {
    if ids == [] then []
    else
      AboveShrinks(cs, p, ids[0]);
      FlattenNode(cs, ids[0]) + FlattenList(cs, p, ids[1..])
  }

  /** The flattening of a list grows by one subtree per reply appended to the list: the
      loop of `get_all_replies` builds its result one reply at a time. */
  lemma {:induction false} FlattenListSnoc(cs: map<int, Comment>, p: int, ids: seq<int>, c: int)
    requires Forest(cs) && RepliesTo(cs, p, ids) && c in cs && cs[c].repliedId == Some(p)
    ensures RepliesTo(cs, p, ids + [c])
    ensures FlattenList(cs, p, ids + [c]) == FlattenList(cs, p, ids) + FlattenNode(cs, c)
    decreases |ids|
  {
    var s := ids + [c];
    assert RepliesTo(cs, p, s) by {
      forall i | 0 <= i < |s| ensures s[i] in cs && cs[s[i]].repliedId == Some(p) {
        if i < |ids| { assert s[i] == ids[i]; }
      }
    }
    if ids == [] {
      assert s == [c] && s[1..] == [];
    } else {
      var rest := ids[1..];
      assert RepliesTo(cs, p, rest);
      assert s[1..] == rest + [c];
      FlattenListSnoc(cs, p, rest, c);
      var a, b, n := FlattenNode(cs, ids[0]), FlattenList(cs, p, rest), FlattenNode(cs, c);
      assert FlattenList(cs, p, s) == a + (b + n);
      assert FlattenList(cs, p, ids) == a + b;
      assert a + (b + n) == (a + b) + n;
    }
  }

  // ---- ancestry ----

  /** y answers a, directly or through a chain of replies. */
  ghost predicate DescendsFrom(cs: map<int, Comment>, y: int, a: int)
    requires Forest(cs)
    decreases Below(cs, y)
  {
    && y in cs
    && cs[y].repliedId.Some?
    && var q := cs[y].repliedId.value;
       BelowShrinks(cs, q, y);
       (q == a || DescendsFrom(cs, q, a))
  }

  lemma {:induction false} DescendsGreater(cs: map<int, Comment>, y: int, a: int)
    requires Forest(cs) && DescendsFrom(cs, y, a)
    ensures a < y
    decreases Below(cs, y)
  {
    var q := cs[y].repliedId.value;
    BelowShrinks(cs, q, y);
    if q != a {
      DescendsGreater(cs, q, a);
    }
  }

  /** A comment descends from x exactly when it is, or descends from, a reply to x. */
  lemma {:induction false} DescendsViaChild(cs: map<int, Comment>, y: int, x: int)
    requires Forest(cs)
    ensures DescendsFrom(cs, y, x) <==>
      exists c :: c in cs && cs[c].repliedId == Some(x) && (y == c || DescendsFrom(cs, y, c))
    decreases Below(cs, y)
  {
    if DescendsFrom(cs, y, x) {
      var q := cs[y].repliedId.value;
      BelowShrinks(cs, q, y);
      if q == x {
        assert y in cs && cs[y].repliedId == Some(x);
      } else {
        DescendsViaChild(cs, q, x);
        var c :| c in cs && cs[c].repliedId == Some(x) && (q == c || DescendsFrom(cs, q, c));
        assert DescendsFrom(cs, y, c);
      }
    }
    if exists c :: c in cs && cs[c].repliedId == Some(x) && (y == c || DescendsFrom(cs, y, c)) {
      var c :| c in cs && cs[c].repliedId == Some(x) && (y == c || DescendsFrom(cs, y, c));
      if y != c {
        DescendsTrans(cs, y, c, x);
      }
    }
  }

  lemma {:induction false} DescendsTrans(cs: map<int, Comment>, y: int, c: int, x: int)
    requires Forest(cs) && DescendsFrom(cs, y, c) && c in cs && cs[c].repliedId == Some(x)
    ensures DescendsFrom(cs, y, x)
    decreases Below(cs, y)
  {
    var q := cs[y].repliedId.value;
    BelowShrinks(cs, q, y);
    if q != c {
      DescendsTrans(cs, q, c, x);
    }
  }

  /** A comment lies in the subtree of at most one reply to p. */
  lemma {:induction false} OneSubtree(cs: map<int, Comment>, y: int, c1: int, c2: int, p: int)
    requires Forest(cs)
    requires c1 in cs && cs[c1].repliedId == Some(p) && c2 in cs && cs[c2].repliedId == Some(p)
    requires y == c1 || DescendsFrom(cs, y, c1)
    requires y == c2 || DescendsFrom(cs, y, c2)
    ensures c1 == c2
    decreases Below(cs, y)
  {
    if y == c1 && y != c2 {
      if cs[y].repliedId.value != c2 {
        DescendsGreater(cs, p, c2);
      }
    } else if y == c2 && y != c1 {
      if cs[y].repliedId.value != c1 {
        DescendsGreater(cs, p, c1);
      }
    } else if y != c1 && y != c2 {
      var q := cs[y].repliedId.value;
      BelowShrinks(cs, q, y);
      OneSubtree(cs, q, c1, c2, p);
    }
  }

  // ---- what the flattening contains ----

  lemma {:induction false} ListMembers(cs: map<int, Comment>, p: int, ids: seq<int>, y: int)
    requires Forest(cs) && RepliesTo(cs, p, ids)
    ensures y in FlattenList(cs, p, ids) <==>
      exists i :: 0 <= i < |ids| && y in FlattenNode(cs, ids[i])
    decreases |ids|
  {
    if ids != [] {
      ListMembers(cs, p, ids[1..], y);
      assert forall i :: 1 <= i < |ids| ==> ids[1..][i - 1] == ids[i];
      if exists i :: 0 <= i < |ids| && y in FlattenNode(cs, ids[i]) {
        var i :| 0 <= i < |ids| && y in FlattenNode(cs, ids[i]);
        if i > 0 { assert y in FlattenNode(cs, ids[1..][i - 1]); }
      }
    }
  }

  /** The subtree of x holds x and exactly the comments that descend from x. */
  lemma {:induction false} NodeMembers(cs: map<int, Comment>, x: int, y: int)
    requires Forest(cs) && x in cs
    ensures y in FlattenNode(cs, x) <==> y == x || DescendsFrom(cs, y, x)
    decreases Above(cs, x), 1
  {
    var kids := Children(cs, x);
    var below := FlattenList(cs, x, kids);
    assert FlattenNode(cs, x) == [x] + below;
    if y != x {
      ListMembers(cs, x, kids, y);
      DescendsViaChild(cs, y, x);
      if y in below {
        var i :| 0 <= i < |kids| && y in FlattenNode(cs, kids[i]);
        assert kids[i] in kids;
        AboveShrinks(cs, x, kids[i]);
        NodeMembers(cs, kids[i], y);
      }
      if DescendsFrom(cs, y, x) {
        var c :| c in cs && cs[c].repliedId == Some(x) && (y == c || DescendsFrom(cs, y, c));
        assert c in kids;
        var i :| 0 <= i < |kids| && kids[i] == c;
        AboveShrinks(cs, x, c);
        NodeMembers(cs, c, y);
      }
    }
  }

  lemma DistinctAppend(a: seq<int>, b: seq<int>)
    requires Keys.Distinct(a) && Keys.Distinct(b)
    requires forall y :: y in a ==> y !in b
    ensures Keys.Distinct(a + b)
  {
    forall i, j | 0 <= i < j < |a + b| ensures (a + b)[i] != (a + b)[j] {
      if i < |a| && j >= |a| {
        assert (a + b)[i] in a && (a + b)[j] == b[j - |a|];
      }
    }
  }

  /** The subtree of the first reply in a list shares no comment with the flattening of
      the rest of the list. */
  lemma FirstSubtreeApart(cs: map<int, Comment>, p: int, ids: seq<int>, y: int)
    requires Forest(cs) && RepliesTo(cs, p, ids) && Keys.Distinct(ids) && ids != []
    requires y in FlattenNode(cs, ids[0])
    ensures y !in FlattenList(cs, p, ids[1..])
  {
    var rest := ids[1..];
    assert RepliesTo(cs, p, rest);
    ListMembers(cs, p, rest, y);
    if y in FlattenList(cs, p, rest) {
      var i :| 0 <= i < |rest| && y in FlattenNode(cs, rest[i]);
      NodeMembers(cs, ids[0], y);
      NodeMembers(cs, rest[i], y);
      OneSubtree(cs, y, ids[0], rest[i], p);
      assert false;
    }
  }

  /** The flattening of a list of distinct replies to p repeats no comment. */
  lemma {:induction false} ListDistinct(cs: map<int, Comment>, p: int, ids: seq<int>)
    requires Forest(cs) && RepliesTo(cs, p, ids) && Keys.Distinct(ids)
    ensures Keys.Distinct(FlattenList(cs, p, ids))
    decreases Above(cs, p), 0, |ids|
  {
    if ids != [] {
      var c := ids[0];
      var rest := ids[1..];
      assert RepliesTo(cs, p, rest);
      assert Keys.Distinct(rest) by {
        forall i, j | 0 <= i < j < |rest| ensures rest[i] != rest[j] {
          assert rest[i] == ids[i + 1] && rest[j] == ids[j + 1];
        }
      }
      AboveShrinks(cs, p, c);
      NodeDistinct(cs, c);
      ListDistinct(cs, p, rest);
      forall y | y in FlattenNode(cs, c) ensures y !in FlattenList(cs, p, rest) {
        FirstSubtreeApart(cs, p, ids, y);
      }
      DistinctAppend(FlattenNode(cs, c), FlattenList(cs, p, rest));
    }
  }

  lemma {:induction false} NodeDistinct(cs: map<int, Comment>, x: int)
    requires Forest(cs) && x in cs
    ensures Keys.Distinct(FlattenNode(cs, x))
    decreases Above(cs, x), 1, 0
  {
    var kids := Children(cs, x);
    ListDistinct(cs, x, kids);
    forall y | y in FlattenList(cs, x, kids) ensures y != x {
      NodeMembers(cs, x, y);
      assert y in FlattenNode(cs, x);
      if y != x { } else {
        ListMembers(cs, x, kids, y);
        var i :| 0 <= i < |kids| && y in FlattenNode(cs, kids[i]);
        AboveShrinks(cs, x, kids[i]);
        NodeMembers(cs, kids[i], y);
        if y != kids[i] { DescendsGreater(cs, y, kids[i]); }
        assert false;
      }
    }
    DistinctAppend([x], FlattenList(cs, x, kids));
  }

  /** The comments that descend from t. */
  ghost function Descendants(cs: map<int, Comment>, t: int): set<int>
    requires Forest(cs)
  {
    set y | y in cs && DescendsFrom(cs, y, t)
  }

  lemma NotOwnDescendant(cs: map<int, Comment>, t: int)
    requires Forest(cs)
    ensures !DescendsFrom(cs, t, t)
  {
    if DescendsFrom(cs, t, t) { DescendsGreater(cs, t, t); }
  }

  /** In a well-formed comment table the replied_id links form a forest: no comment
      answers itself, directly or through a chain of replies. */
  lemma RepliesAcyclic(users: map<int, User>, cs: map<int, Comment>)
    requires CommentsWellFormed(users, cs)
    ensures Forest(cs)
    ensures forall t :: !DescendsFrom(cs, t, t)
  {
    WellFormedIsForest(users, cs);
    forall t ensures !DescendsFrom(cs, t, t) {
      NotOwnDescendant(cs, t);
    }
  }

  lemma HeadNotInTail(x: int, r: seq<int>)
    requires Keys.Distinct([x] + r)
    ensures x !in r
  {
    forall i | 0 <= i < |r| ensures r[i] != x {
      assert ([x] + r)[i + 1] == r[i] && ([x] + r)[0] == x;
    }
  }

  /** A comment is in t's reply list exactly when it descends from t. */
  lemma ReplyListMembers(cs: map<int, Comment>, t: int, y: int)
    requires Forest(cs) && t in cs
    ensures y in FlattenList(cs, t, Children(cs, t)) <==> y in cs && DescendsFrom(cs, y, t)
  {
    var r := FlattenList(cs, t, Children(cs, t));
    var whole := FlattenNode(cs, t);
    NodeMembers(cs, t, y);
    assert whole == [t] + r;
    if y == t {
      NotOwnDescendant(cs, t);
      NodeDistinct(cs, t);
      HeadNotInTail(t, r);
    } else {
      assert y in whole <==> y in r;
    }
  }

  /** The reply list of a comment t holds every comment that descends from t exactly
      once, and nothing else, so its length is the size of t's subtree minus one. */
  lemma ReplyListIsDescendants(cs: map<int, Comment>, t: int)
    requires Forest(cs) && t in cs
    ensures var r := FlattenList(cs, t, Children(cs, t));
      && Keys.Distinct(r)
      && (forall y :: y in r <==> y in cs && DescendsFrom(cs, y, t))
      && |r| == |Descendants(cs, t)|
      && |r| + 1 == |Descendants(cs, t) + {t}|
  {
    var r := FlattenList(cs, t, Children(cs, t));
    ListDistinct(cs, t, Children(cs, t));
    forall y ensures y in r <==> y in cs && DescendsFrom(cs, y, t) {
      ReplyListMembers(cs, t, y);
    }
    Keys.DistinctCard(r, Descendants(cs, t));
    NotOwnDescendant(cs, t);
  }

  // ---- the ORM's handling of a deleted comment's replies ----

  /** The comment table after the rows in `removed` are deleted: a surviving reply to a
      deleted comment has its `replied_id` set to NULL, since the relationship has no
      delete cascade. */
  function Detach(cs: map<int, Comment>, removed: set<int>): (r: map<int, Comment>)
    ensures r.Keys == cs.Keys - removed
    ensures forall k :: k in r ==>
      r[k] == if cs[k].repliedId.Some? && cs[k].repliedId.value in removed
              then cs[k].(repliedId := None) else cs[k]
  {
    map k | k in cs && k !in removed ::
      if cs[k].repliedId.Some? && cs[k].repliedId.value in removed
      then cs[k].(repliedId := None) else cs[k]
  }

  /** Deleting rows this way keeps the comment table well formed. */
  lemma DetachWellFormed(users: map<int, User>, cs: map<int, Comment>, removed: set<int>)
    requires CommentsWellFormed(users, cs)
    ensures CommentsWellFormed(users, Detach(cs, removed))
  {
  }
}
