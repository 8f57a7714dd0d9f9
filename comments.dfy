/** The video-comment handlers of comments.py: the comment page of a video, with each
    comment's replies flattened by `get_all_replies`, and publishing, replying to and
    deleting comments. */
module Comments {
  import opened Records
  import Keys
  import ReplyTree

  /** One entry of a `reply_list`. The display time is left out. */
  datatype ReplyView = ReplyView(
    userName: string,
    id: int,
    replyUserName: Option<string>,
    body: string,
    userId: int)

  /** One entry of the comment page. */
  datatype CommentView = CommentView(
    userName: string,
    body: string,
    id: int,
    userId: int,
    replyList: seq<ReplyView>)

  /** The entry `get_all_replies` appends for comment k: `reply_user_name` is the name of
      the author of the comment k answers, or None when k answers nothing. */
  function ReplyViewOf(users: map<int, User>, cs: map<int, Comment>, k: int): (v: ReplyView)
    requires CommentsWellFormed(users, cs) && k in cs
    ensures v.id == k && v.body == cs[k].body && v.userId == cs[k].userId
    ensures v.userName == users[cs[k].userId].name
    ensures v.replyUserName.None? <==> cs[k].repliedId.None?
    ensures v.replyUserName.Some? ==>
      v.replyUserName.value == users[cs[cs[k].repliedId.value].userId].name
  {
    var c := cs[k];
    var parentName := if c.repliedId.Some? then Some(users[cs[c.repliedId.value].userId].name)
                      else None;
    ReplyView(users[c.userId].name, c.id, parentName, c.body, c.userId)
  }

  function ReplyViews(users: map<int, User>, cs: map<int, Comment>, ids: seq<int>): (r: seq<ReplyView>)
    requires CommentsWellFormed(users, cs) && forall k :: k in ids ==> k in cs
    ensures |r| == |ids| && forall i :: 0 <= i < |ids| ==> r[i] == ReplyViewOf(users, cs, ids[i])
  {
    seq(|ids|, i requires 0 <= i < |ids| => ReplyViewOf(users, cs, ids[i]))
  }

  lemma ReplyViewsAppend(users: map<int, User>, cs: map<int, Comment>, a: seq<int>, b: seq<int>)
    requires CommentsWellFormed(users, cs) && forall k :: k in a + b ==> k in cs
    ensures ReplyViews(users, cs, a + b) == ReplyViews(users, cs, a) + ReplyViews(users, cs, b)
  {
    assert forall k :: k in a ==> k in a + b;
    assert forall k :: k in b ==> k in a + b;
    var l, r := ReplyViews(users, cs, a + b), ReplyViews(users, cs, a) + ReplyViews(users, cs, b);
    forall i | 0 <= i < |l| ensures l[i] == r[i] {
      if i >= |a| { assert (a + b)[i] == b[i - |a|]; }
    }
  }

  /** The entries for a list of replies grow by one reply's subtree per reply: the entry
      of the reply, then the entries of the replies to it. */
  lemma NodeViews(users: map<int, User>, cs: map<int, Comment>, p: int, prefix: seq<int>, c: int)
    requires CommentsWellFormed(users, cs) && ReplyTree.Forest(cs)
    requires ReplyTree.RepliesTo(cs, p, prefix) && c in cs && cs[c].repliedId == Some(p)
    ensures ReplyTree.RepliesTo(cs, p, prefix + [c])
    ensures ReplyViews(users, cs, ReplyTree.FlattenList(cs, p, prefix + [c]))
      == ReplyViews(users, cs, ReplyTree.FlattenList(cs, p, prefix)) + [ReplyViewOf(users, cs, c)]
         + ReplyViews(users, cs, ReplyTree.FlattenList(cs, c, ReplyTree.Children(cs, c)))
  {
    var kids := ReplyTree.Children(cs, c);
    var before := ReplyTree.FlattenList(cs, p, prefix);
    var below := ReplyTree.FlattenList(cs, c, kids);
    ReplyTree.FlattenListSnoc(cs, p, prefix, c);
    assert ReplyTree.FlattenNode(cs, c) == [c] + below;
    ViewsAround(users, cs, before, c, below);
  }

  /** The entries of before, then c, then below. */
  lemma ViewsAround(users: map<int, User>, cs: map<int, Comment>, before: seq<int>, c: int,
                    below: seq<int>)
    requires CommentsWellFormed(users, cs) && c in cs
    requires (forall k :: k in before ==> k in cs) && forall k :: k in below ==> k in cs
    ensures forall k :: k in before + ([c] + below) ==> k in cs
    ensures ReplyViews(users, cs, before + ([c] + below))
      == ReplyViews(users, cs, before) + [ReplyViewOf(users, cs, c)] + ReplyViews(users, cs, below)
  {
    ReplyViewsAppend(users, cs, before, [c] + below);
    ReplyViewsAppend(users, cs, [c], below);
    assert ReplyViews(users, cs, [c]) == [ReplyViewOf(users, cs, c)];
  }

  /** One turn of the loop of `get_all_replies`: the reply at position i brings its own
      entry, then the entries of its subtree, after those of the replies before it. */
  lemma LoopStep(users: map<int, User>, cs: map<int, Comment>, p: int, replies: seq<int>, i: int,
                 result: seq<ReplyView>)
    requires CommentsWellFormed(users, cs) && ReplyTree.Forest(cs)
    requires ReplyTree.RepliesTo(cs, p, replies) && 0 <= i < |replies|
    ensures ReplyTree.RepliesTo(cs, p, replies[..i]) && ReplyTree.RepliesTo(cs, p, replies[..i + 1])
    ensures replies[i] in cs
    ensures result + ReplyViews(users, cs, ReplyTree.FlattenList(cs, p, replies[..i + 1]))
      == result + ReplyViews(users, cs, ReplyTree.FlattenList(cs, p, replies[..i]))
         + [ReplyViewOf(users, cs, replies[i])]
         + ReplyViews(users, cs, ReplyTree.FlattenList(cs, replies[i], ReplyTree.Children(cs, replies[i])))
  {
    var c, prefix := replies[i], replies[..i];
    assert replies[..i + 1] == prefix + [c];
    assert c in replies;
    assert ReplyTree.RepliesTo(cs, p, prefix) by {
      forall j | 0 <= j < |prefix| ensures prefix[j] in replies { assert prefix[j] == replies[j]; }
    }
    NodeViews(users, cs, p, prefix, c);
    var a := ReplyViews(users, cs, ReplyTree.FlattenList(cs, p, prefix));
    var b := ReplyViews(users, cs, ReplyTree.FlattenList(cs, c, ReplyTree.Children(cs, c)));
    var e := [ReplyViewOf(users, cs, c)];
    assert result + (a + e + b) == result + a + e + b;
  }

  /** `get_all_replies(replies, result)`: appends to `result` the entry of each reply,
      each followed by the entries of its own replies, depth first. It only reads the
      users and comments tables, which are passed as values. */
  method GetAllReplies(users: map<int, User>, cs: map<int, Comment>, ghost p: int,
                       replies: seq<int>, result: seq<ReplyView>)
    returns (out: seq<ReplyView>)
    requires CommentsWellFormed(users, cs) && ReplyTree.RepliesTo(cs, p, replies)
    ensures ReplyTree.Forest(cs)
    ensures out == result + ReplyViews(users, cs, ReplyTree.FlattenList(cs, p, replies))
    decreases ReplyTree.Above(cs, p), 0, |replies|
  {
    ReplyTree.WellFormedIsForest(users, cs);
    out := result;
    assert replies[..0] == [];
    for i := 0 to |replies|
      invariant out == result + ReplyViews(users, cs, ReplyTree.FlattenList(cs, p, replies[..i]))
    {
      var c := replies[i];
      LoopStep(users, cs, p, replies, i, result);
      out := out + [ReplyViewOf(users, cs, c)];
      var kids := ReplyTree.Children(cs, c);
      if kids != [] {
        ReplyTree.AboveShrinks(cs, p, c);
        out := GetAllReplies(users, cs, c, kids, out);
      } else {
        assert ReplyTree.FlattenList(cs, c, kids) == [];
        assert out == out + ReplyViews(users, cs, []);
      }
    }
    assert replies[..|replies|] == replies;
  }

  /** Comment k on the comment page, with its whole reply tree flattened. */
  function CommentViewOf(users: map<int, User>, cs: map<int, Comment>, k: int): (v: CommentView)
    requires CommentsWellFormed(users, cs) && k in cs
    ensures v.id == k && v.body == cs[k].body && v.userId == cs[k].userId
    ensures v.userName == users[cs[k].userId].name
  {
    ReplyTree.WellFormedIsForest(users, cs);
    var c := cs[k];
    CommentView(users[c.userId].name, c.body, c.id, c.userId,
                ReplyViews(users, cs, ReplyTree.FlattenList(cs, k, ReplyTree.Children(cs, k))))
  }

  /** The ids of a list of reply entries. */
  function Ids(l: seq<ReplyView>): (r: seq<int>)
    ensures |r| == |l| && forall i :: 0 <= i < |l| ==> r[i] == l[i].id
  {
    seq(|l|, i requires 0 <= i < |l| => l[i].id)
  }

  /** The `reply_list` of comment k lists every comment of k's thread (every comment that
      answers k, directly or through other replies) exactly once, and nothing else; each
      entry names the author of the comment it answers. */
  lemma ThreadIsWhole(users: map<int, User>, cs: map<int, Comment>, k: int)
    requires CommentsWellFormed(users, cs) && k in cs
    ensures ReplyTree.Forest(cs)
    ensures var l := CommentViewOf(users, cs, k).replyList;
      && Keys.Distinct(Ids(l))
      && (forall y :: y in Ids(l) <==> y in cs && ReplyTree.DescendsFrom(cs, y, k))
      && (forall i :: 0 <= i < |l| ==> l[i].replyUserName.Some?)
  {
    ReplyTree.WellFormedIsForest(users, cs);
    var ids := ReplyTree.FlattenList(cs, k, ReplyTree.Children(cs, k));
    var l := CommentViewOf(users, cs, k).replyList;
    assert l == ReplyViews(users, cs, ids);
    assert Ids(l) == ids;
    ReplyTree.ReplyListIsDescendants(cs, k);
    forall i | 0 <= i < |l| ensures l[i].replyUserName.Some? {
      assert ids[i] in ids;
    }
  }

  // ---- the query of the comment page ----

  /** The ids of video vodId's comments, replies included, in id order. */
  function VideoIds(cs: map<int, Comment>, vodId: int): (ids: seq<int>)
    ensures ReplyTree.Increasing(ids)
    ensures forall i :: 0 <= i < |ids| ==> ids[i] in cs && cs[ids[i]].movdetailId == vodId
    ensures forall k :: k in cs && cs[k].movdetailId == vodId ==> k in ids
  {
    var ids := Keys.SortedKeys(set k | k in cs && cs[k].movdetailId == vodId);
    assert forall i :: 0 <= i < |ids| ==> ids[i] in ids;
    ids
  }

  /** The rows of those comments, in id order. */
  function VideoComments(cs: map<int, Comment>, vodId: int): (r: seq<Comment>)
    ensures var ids := VideoIds(cs, vodId);
      |r| == |ids| && forall i :: 0 <= i < |r| ==> r[i] == cs[ids[i]]
  {
    var ids := VideoIds(cs, vodId);
    seq(|ids|, i requires 0 <= i < |ids| => cs[ids[i]])
  }

  /** Newest first. */
  ghost predicate NewestFirst(s: seq<Comment>)
  {
    forall i, j :: 0 <= i < j < |s| ==> s[i].timestamp >= s[j].timestamp
  }

  function Insert(c: Comment, s: seq<Comment>): (r: seq<Comment>)
    ensures multiset(r) == multiset(s) + multiset{c}
    ensures |r| == |s| + 1
    ensures r[0] == c || (s != [] && r[0] == s[0])
  {
    if s == [] || c.timestamp > s[0].timestamp then
      [c] + s
    else
      assert s == [s[0]] + s[1..];
      [s[0]] + Insert(c, s[1..])
  }

  /** Inserting into a newest-first list keeps it newest first. */
  lemma {:induction false} InsertKeepsOrder(c: Comment, s: seq<Comment>)
    requires NewestFirst(s)
    ensures NewestFirst(Insert(c, s))
  {
    if s != [] && c.timestamp <= s[0].timestamp {
      var rest := Insert(c, s[1..]);
      assert NewestFirst(s[1..]) by {
        forall i, j | 0 <= i < j < |s[1..]| ensures s[1..][i].timestamp >= s[1..][j].timestamp {
          assert s[1..][i] == s[i + 1] && s[1..][j] == s[j + 1];
        }
      }
      InsertKeepsOrder(c, s[1..]);
      assert rest[0].timestamp <= s[0].timestamp by {
        if rest[0] != c { assert rest[0] == s[1]; }
      }
      var r := [s[0]] + rest;
      forall i, j | 0 <= i < j < |r| ensures r[i].timestamp >= r[j].timestamp {
        if i == 0 {
          assert r[j] == rest[j - 1];
          if j > 1 { assert rest[0].timestamp >= rest[j - 1].timestamp; }
        } else {
          assert r[i] == rest[i - 1] && r[j] == rest[j - 1];
        }
      }
    } else {
      var r := [c] + s;
      forall i, j | 0 <= i < j < |r| ensures r[i].timestamp >= r[j].timestamp {
        if i == 0 {
          assert r[j] == s[j - 1];
          if j > 1 { assert s[0].timestamp >= s[j - 1].timestamp; }
        } else {
          assert r[i] == s[i - 1] && r[j] == s[j - 1];
        }
      }
    }
  }

  /** `.order_by(Comment.timestamp.desc())`, with ties in an order the model fixes. */
  function SortNewestFirst(s: seq<Comment>): (r: seq<Comment>)
    ensures multiset(r) == multiset(s)
    ensures NewestFirst(r)
  {
    if s == [] then []
    else
      assert s == [s[0]] + s[1..];
      var rest := SortNewestFirst(s[1..]);
      InsertKeepsOrder(s[0], rest);
      Insert(s[0], rest)
  }

  /** The rows of the comment page: the video's comments, newest first. */
  function PageComments(cs: map<int, Comment>, vodId: int): (r: seq<Comment>)
    ensures multiset(r) == multiset(VideoComments(cs, vodId)) && NewestFirst(r)
  {
    SortNewestFirst(VideoComments(cs, vodId))
  }

  /** Membership is preserved by sorting. */
  lemma SameElements(r: seq<Comment>, s: seq<Comment>, c: Comment)
    requires multiset(r) == multiset(s)
    ensures c in r <==> c in s
  {
    assert c in r <==> c in multiset(r);
    assert c in s <==> c in multiset(s);
  }

  /** The page lists every comment of the video, replies included, and nothing else. */
  lemma PageIsWholeVideo(users: map<int, User>, cs: map<int, Comment>, vodId: int, k: int)
    requires CommentsWellFormed(users, cs)
    ensures var rows := PageComments(cs, vodId);
      k in cs && cs[k].movdetailId == vodId <==> exists i :: 0 <= i < |rows| && rows[i].id == k
  {
    var ids, s := VideoIds(cs, vodId), VideoComments(cs, vodId);
    var rows := PageComments(cs, vodId);
    if k in cs && cs[k].movdetailId == vodId {
      var j :| 0 <= j < |ids| && ids[j] == k;
      assert s[j] == cs[k];
      SameElements(rows, s, cs[k]);
      var i :| 0 <= i < |rows| && rows[i] == cs[k];
    }
    if exists i :: 0 <= i < |rows| && rows[i].id == k {
      var i :| 0 <= i < |rows| && rows[i].id == k;
      SameElements(rows, s, rows[i]);
      var j :| 0 <= j < |s| && s[j] == rows[i];
      assert cs[ids[j]].id == ids[j];
    }
  }

  /** Every row of the page is a stored comment of the video. */
  lemma PageRowsStored(users: map<int, User>, cs: map<int, Comment>, vodId: int)
    requires CommentsWellFormed(users, cs)
    ensures var rows := PageComments(cs, vodId);
      forall i :: 0 <= i < |rows| ==>
        rows[i].id in cs && cs[rows[i].id] == rows[i] && rows[i].movdetailId == vodId
  {
    var ids, s := VideoIds(cs, vodId), VideoComments(cs, vodId);
    var rows := PageComments(cs, vodId);
    forall i | 0 <= i < |rows|
      ensures rows[i].id in cs && cs[rows[i].id] == rows[i] && rows[i].movdetailId == vodId
    {
      SameElements(rows, s, rows[i]);
      var j :| 0 <= j < |s| && s[j] == rows[i];
      assert cs[ids[j]].id == ids[j];
    }
  }

  /** No comment appears twice on the page, and the page is newest first. */
  lemma PageOnceEach(users: map<int, User>, cs: map<int, Comment>, vodId: int)
    requires CommentsWellFormed(users, cs)
    ensures var rows := PageComments(cs, vodId);
      && NewestFirst(rows)
      && forall i, j :: 0 <= i < j < |rows| ==> rows[i].id != rows[j].id
  {
    var ids, s := VideoIds(cs, vodId), VideoComments(cs, vodId);
    var rows := PageComments(cs, vodId);
    PageRowsStored(users, cs, vodId);
    forall i, j | 0 <= i < j < |rows| ensures rows[i].id != rows[j].id {
      if rows[i].id == rows[j].id {
        AtMostOnce(s, ids, cs, rows[i]);
        CountTwo(rows, i, j);
      }
    }
  }

  lemma {:induction false} AtMostOnce(s: seq<Comment>, ids: seq<int>, cs: map<int, Comment>, c: Comment)
    requires |s| == |ids| && forall i :: 0 <= i < |s| ==> ids[i] in cs && s[i] == cs[ids[i]]
    requires ReplyTree.Increasing(ids)
    requires forall k :: k in cs ==> cs[k].id == k
    ensures multiset(s)[c] <= 1
  {
    if s != [] {
      var s', ids' := s[1..], ids[1..];
      assert s == [s[0]] + s';
      AtMostOnce(s', ids', cs, c);
      if s[0] == c {
        forall i | 0 <= i < |s'| ensures s'[i] != c {
          assert s'[i] == cs[ids[i + 1]] && ids[0] < ids[i + 1];
        }
        assert c !in s';
      }
    }
  }

  /** Two equal entries at different positions make the value occur twice. */
  lemma CountTwo(r: seq<Comment>, i: int, j: int)
    requires 0 <= i < j < |r| && r[i] == r[j]
    ensures multiset(r)[r[i]] >= 2
  {
    assert r == r[..j] + r[j..];
    assert r[i] in r[..j] && r[j] in r[j..];
    assert multiset(r) == multiset(r[..j]) + multiset(r[j..]);
  }

  /** `show_comments`: one entry per comment of the video, newest first, each with its
      `reply_list`. */
  method ShowComments(db: Database, vodId: int) returns (list: seq<CommentView>)
    requires db.Valid()
    ensures var rows := PageComments(db.comments, vodId);
      && |list| == |rows|
      && forall i :: 0 <= i < |rows| ==>
           rows[i].id in db.comments && list[i] == CommentViewOf(db.users, db.comments, rows[i].id)
  {
    var rows := PageComments(db.comments, vodId);
    PageRowsStored(db.users, db.comments, vodId);
    list := BuildCommentList(db.users, db.comments, rows);
  }

  /** The `for comment in comments` loop of `show_comments`, over rows read from the
      comment table. */
  method BuildCommentList(users: map<int, User>, cs: map<int, Comment>, rows: seq<Comment>)
    returns (list: seq<CommentView>)
    requires CommentsWellFormed(users, cs)
    requires forall i :: 0 <= i < |rows| ==> rows[i].id in cs && cs[rows[i].id] == rows[i]
    ensures |list| == |rows|
    ensures forall i :: 0 <= i < |rows| ==> list[i] == CommentViewOf(users, cs, rows[i].id)
  {
    ReplyTree.WellFormedIsForest(users, cs);
    list := [];
    for i := 0 to |rows|
      invariant |list| == i
      invariant forall j :: 0 <= j < i ==> list[j] == CommentViewOf(users, cs, rows[j].id)
    {
      var c := rows[i];
      var replies := [];
      var kids := ReplyTree.Children(cs, c.id);
      if kids != [] {
        replies := GetAllReplies(users, cs, c.id, kids, []);
      }
      ViewOfRow(users, cs, c, kids, replies);
      list := list + [CommentView(users[c.userId].name, c.body, c.id, c.userId, replies)];
    }
  }

  /** The entry `show_comments` builds for a row is CommentViewOf its id. */
  lemma ViewOfRow(users: map<int, User>, cs: map<int, Comment>, c: Comment, kids: seq<int>,
                  replies: seq<ReplyView>)
    requires CommentsWellFormed(users, cs) && c.id in cs && cs[c.id] == c
    requires kids == ReplyTree.Children(cs, c.id)
    requires ReplyTree.Forest(cs)
    requires kids != [] ==> replies == [] + ReplyViews(users, cs, ReplyTree.FlattenList(cs, c.id, kids))
    requires kids == [] ==> replies == []
    ensures c.userId in users
    ensures CommentView(users[c.userId].name, c.body, c.id, c.userId, replies)
      == CommentViewOf(users, cs, c.id)
  {
    if kids == [] {
      assert ReplyTree.FlattenList(cs, c.id, kids) == [];
    }
  }

  // ---- publishing, replying, deleting ----

  /** `post_comments`: an empty body is refused; otherwise a new top-level comment. The
      database assigns the id, larger than every id in use. */
  method PostComment(db: Database, current: User, vodId: int, body: string, newId: int, now: Time)
    returns (code: int)
    requires db.Valid() && current.id in db.users
    requires forall k :: k in db.comments ==> k < newId
    modifies db
    ensures db.Valid()
    ensures code == OK <==> body != ""
    ensures code != OK ==> code == BAD_REQUEST && db.State() == old(db.State())
    ensures code == OK ==> db.State() == old(db.State()).(comments :=
      old(db.comments)[newId := Comment(newId, body, now, current.id, vodId, None)])
  {
    if body == "" {
      return BAD_REQUEST;
    }
    db.comments := db.comments[newId := Comment(newId, body, now, current.id, vodId, None)];
    code := OK;
  }

  /** `reply_comment`: the missing parent is reported before the empty body; the reply
      belongs to the parent's video. */
  method ReplyComment(db: Database, current: User, commentId: int, body: string, newId: int, now: Time)
    returns (code: int)
    requires db.Valid() && current.id in db.users
    requires forall k :: k in db.comments ==> k < newId
    modifies db
    ensures db.Valid()
    ensures code == OK <==> commentId in old(db.comments) && body != ""
    ensures code != OK ==> code == BAD_REQUEST && db.State() == old(db.State())
    ensures code == OK ==> db.State() == old(db.State()).(comments := old(db.comments)[newId :=
      Comment(newId, body, now, current.id, old(db.comments)[commentId].movdetailId, Some(commentId))])
  {
    if commentId !in db.comments {
      return BAD_REQUEST;
    }
    if body == "" {
      return BAD_REQUEST;
    }
    var parent := db.comments[commentId];
    db.comments := db.comments[newId :=
      Comment(newId, body, now, current.id, parent.movdetailId, Some(commentId))];
    code := OK;
  }

  /** `delete_comment` and `delete_reply`, which share their code: only the author can
      delete; the replies to the deleted comment stay, detached from it. */
  method DeleteOwnComment(db: Database, current: User, commentId: int) returns (code: int)
    requires db.Valid()
    modifies db
    ensures db.Valid()
    ensures code == OK <==> commentId in old(db.comments) && old(db.comments)[commentId].userId == current.id
    ensures code != OK ==> code == NOT_FOUND && db.State() == old(db.State())
    ensures code == OK ==> db.State() == old(db.State()).(comments :=
      ReplyTree.Detach(old(db.comments), {commentId}))
  {
    if commentId !in db.comments || db.comments[commentId].userId != current.id {
      return NOT_FOUND;
    }
    ReplyTree.DetachWellFormed(db.users, db.comments, {commentId});
    db.comments := ReplyTree.Detach(db.comments, {commentId});
    code := OK;
  }
}
