/** The live-stream handlers of live.py: the two-state status machine (1 live, 0 ended)
    with its start and end times, the "streamer or admin" rule, the viewer-count bump of
    the detail page, the public list page, and the two ways a stream is deleted.

    Every handler of live.py runs inside `try: ... except Exception`, so a 400, 403 or 404
    it raises itself is caught, the session is rolled back and the client sees 500. */
module Live {
  import opened Records
  import Keys
  import Paging

  const UNKNOWN_STREAMER: string := "未知主播"
  const DEFAULT_COVER: string := "/api/imgs/live-default.svg"

  /** Python's `x or default` on a nullable text column: NULL and "" are both falsy. */
  function TextOr(x: Option<string>, default: string): (r: string)
    ensures x.Some? && x.value != "" ==> r == x.value
    ensures x.None? || x.value == "" ==> r == default
  {
    if x.Some? && x.value != "" then x.value else default
  }

  /** `stream.viewer_count or 0`. */
  function Viewers(s: LiveStream): (n: int)
    ensures s.viewerCount.Some? ==> n == s.viewerCount.value
    ensures s.viewerCount.None? ==> n == 0
  {
    if s.viewerCount.Some? then s.viewerCount.value else 0
  }

  // ---- the status machine ----

  /** The streamer of s, or an admin, may end or delete it. A stream without a streamer
      (NULL `user_id`) can only be managed by an admin. */
  predicate MayManage(s: LiveStream, u: User)
  {
    s.userId == Some(u.id) || u.role == ADMIN
  }

  /** Status and end time agree: a live stream has no end time, an ended one has. */
  predicate Settled(s: LiveStream)
  {
    (s.status == 1 && s.endTime.None?) || (s.status == 0 && s.endTime.Some?)
  }

  /** s and r agree on everything but status, start time and end time. */
  predicate SameStream(s: LiveStream, r: LiveStream)
  {
    r.(status := s.status, startTime := s.startTime, endTime := s.endTime) == s
  }

  /** The stream after ending it at `now`. */
  function Ended(s: LiveStream, now: Time): (r: LiveStream)
    ensures r.status == 0 && r.endTime == Some(now) && r.startTime == s.startTime
    ensures Settled(r) && SameStream(s, r)
  {
    s.(status := 0, endTime := Some(now))
  }

  /** The stream after an admin turns it live again at `now`. */
  function Reopened(s: LiveStream, now: Time): (r: LiveStream)
    ensures r.status == 1 && r.startTime == Some(now) && r.endTime.None?
    ensures Settled(r) && SameStream(s, r)
  {
    s.(status := 1, startTime := Some(now), endTime := None)
  }

  /** The admin status change: only 0 and 1 are accepted. */
  predicate ValidStatus(status: Option<int>)
  {
    status == Some(0) || status == Some(1)
  }

  function WithStatus(s: LiveStream, status: int, now: Time): (r: LiveStream)
    requires status == 0 || status == 1
    ensures r.status == status && Settled(r) && SameStream(s, r)
    ensures status == 0 ==> r == Ended(s, now)
    ensures status == 1 ==> r == Reopened(s, now)
  {
    if status == 0 then Ended(s, now) else Reopened(s, now)
  }

  /** The stream after one more view of its detail page. */
  function Viewed(s: LiveStream): (r: LiveStream)
    ensures r.viewerCount == Some(Viewers(s) + 1)
    ensures r.(viewerCount := s.viewerCount) == s
  {
    s.(viewerCount := Some(Viewers(s) + 1))
  }

  /** What can happen to one stream over time through these handlers. */
  datatype Event = End(at: Time) | SetStatus(status: Option<int>, at: Time) | View

  function Step(s: LiveStream, e: Event): LiveStream
  {
    match e
    case End(at) => Ended(s, at)
    case SetStatus(status, at) => if ValidStatus(status) then WithStatus(s, status.value, at) else s
    case View => Viewed(s)
  }

  function Run(s: LiveStream, events: seq<Event>): LiveStream
    decreases |events|
  {
    if events == [] then s else Run(Step(s, events[0]), events[1..])
  }

  predicate Changes(e: Event)
  {
    e.End? || (e.SetStatus? && ValidStatus(e.status))
  }

  function ViewsIn(events: seq<Event>): nat
  {
    if events == [] then 0 else (if events[0].View? then 1 else 0) + ViewsIn(events[1..])
  }

  /** Once a stream has been ended or had its status set, status and end time agree, and
      they keep agreeing whatever happens next. */
  lemma {:induction false} RunSettles(s: LiveStream, events: seq<Event>)
    requires Settled(s) || exists i :: 0 <= i < |events| && Changes(events[i])
    ensures Settled(Run(s, events))
    decreases |events|
  {
    if events != [] {
      var t := Step(s, events[0]);
      assert Settled(t) || exists i :: 0 <= i < |events[1..]| && Changes(events[1..][i]) by {
        if !Settled(t) {
          var i :| 0 <= i < |events| && Changes(events[i]);
          assert i != 0;
          assert events[1..][i - 1] == events[i];
        }
      }
      RunSettles(t, events[1..]);
    }
  }

  /** Every view adds exactly one to the viewer count, NULL counting as 0, and nothing
      else changes it. */
  lemma {:induction false} RunCountsViews(s: LiveStream, events: seq<Event>)
    ensures Viewers(Run(s, events)) == Viewers(s) + ViewsIn(events)
    decreases |events|
  {
    if events != [] {
      RunCountsViews(Step(s, events[0]), events[1..]);
    }
  }

  /** Title, description, cover, stream key, streamer and creation time never change. */
  lemma {:induction false} RunKeepsIdentity(s: LiveStream, events: seq<Event>)
    ensures var r := Run(s, events);
      r.(status := s.status, startTime := s.startTime, endTime := s.endTime,
         viewerCount := s.viewerCount) == s
    decreases |events|
  {
    if events != [] {
      RunKeepsIdentity(Step(s, events[0]), events[1..]);
    }
  }

  // ---- live comments of a stream ----

  /** `chat_count`: the live comments posted to stream id. */
  function ChatCount(liveComments: map<int, LiveComment>, id: int): (n: nat)
    ensures n == 0 <==> forall k :: k in liveComments ==> liveComments[k].liveStreamId != Some(id)
  {
    var chat := set k | k in liveComments && liveComments[k].liveStreamId == Some(id);
    NoChat(liveComments, id, chat);
    |chat|
  }

  lemma NoChat(liveComments: map<int, LiveComment>, id: int, chat: set<int>)
    requires chat == set k | k in liveComments && liveComments[k].liveStreamId == Some(id)
    ensures |chat| == 0 <==> forall k :: k in liveComments ==> liveComments[k].liveStreamId != Some(id)
  {
    if forall k :: k in liveComments ==> liveComments[k].liveStreamId != Some(id) {
      assert forall x :: x !in chat;
      assert chat == {};
    } else {
      var k :| k in liveComments && liveComments[k].liveStreamId == Some(id);
      assert k in chat;
    }
  }

  /** The live-comment table after the bulk delete of stream id's comments. */
  function DropStreamComments(lcs: map<int, LiveComment>, id: int): (r: map<int, LiveComment>)
    ensures forall k :: k in r <==> k in lcs && lcs[k].liveStreamId != Some(id)
    ensures forall k :: k in r ==> r[k] == lcs[k]
  {
    map k | k in lcs && lcs[k].liveStreamId != Some(id) :: lcs[k]
  }

  /** The live-comment table after the ORM deletes stream id without a delete cascade:
      its comments stay, detached from any stream. */
  function OrphanStreamComments(lcs: map<int, LiveComment>, id: int): (r: map<int, LiveComment>)
    ensures r.Keys == lcs.Keys
    ensures forall k :: k in r ==>
      r[k] == if lcs[k].liveStreamId == Some(id) then lcs[k].(liveStreamId := None) else lcs[k]
  {
    map k | k in lcs ::
      if lcs[k].liveStreamId == Some(id) then lcs[k].(liveStreamId := None) else lcs[k]
  }

  /** Either way of deleting a stream leaves no comment on it and every other stream's
      chat count as it was. */
  lemma DeletedStreamHasNoChat(lcs: map<int, LiveComment>, id: int, other: int)
    requires other != id
    ensures ChatCount(DropStreamComments(lcs, id), id) == 0
    ensures ChatCount(OrphanStreamComments(lcs, id), id) == 0
    ensures ChatCount(DropStreamComments(lcs, id), other) == ChatCount(lcs, other)
    ensures ChatCount(OrphanStreamComments(lcs, id), other) == ChatCount(lcs, other)
  {
    var d, o := DropStreamComments(lcs, id), OrphanStreamComments(lcs, id);
    assert (set k | k in d && d[k].liveStreamId == Some(id)) == {};
    assert (set k | k in o && o[k].liveStreamId == Some(id)) == {};
    assert (set k | k in d && d[k].liveStreamId == Some(other))
        == (set k | k in lcs && lcs[k].liveStreamId == Some(other));
    assert (set k | k in o && o[k].liveStreamId == Some(other))
        == (set k | k in lcs && lcs[k].liveStreamId == Some(other));
  }

  // ---- the handlers ----

  /** `end_live_stream`. */
  method EndLiveStream(db: Database, current: User, streamId: int, now: Time) returns (code: int)
    requires db.Valid()
    modifies db
    ensures db.Valid()
    ensures code == OK <==> streamId in old(db.streams) && MayManage(old(db.streams)[streamId], current)
    ensures code != OK ==> code == SERVER_ERROR && db.State() == old(db.State())
    ensures code == OK ==> db.State() == old(db.State()).(streams :=
      old(db.streams)[streamId := Ended(old(db.streams)[streamId], now)])
  {
    if streamId !in db.streams {
      return SERVER_ERROR;  // the 404 is caught by the generic handler
    }
    var stream := db.streams[streamId];
    if !MayManage(stream, current) {
      return SERVER_ERROR;  // so is the 403
    }
    db.streams := db.streams[streamId := Ended(stream, now)];
    code := OK;
  }

  /** `delete_live_stream`: the streamer or an admin deletes the stream; its live comments
      survive with a NULL `live_stream_id`. */
  method DeleteLiveStream(db: Database, current: User, streamId: int) returns (code: int)
    requires db.Valid()
    modifies db
    ensures db.Valid()
    ensures code == OK <==> streamId in old(db.streams) && MayManage(old(db.streams)[streamId], current)
    ensures code != OK ==> code == SERVER_ERROR && db.State() == old(db.State())
    ensures code == OK ==> db.State() == old(db.State()).(
      streams := old(db.streams) - {streamId},
      liveComments := OrphanStreamComments(old(db.liveComments), streamId))
  {
    if streamId !in db.streams || !MayManage(db.streams[streamId], current) {
      return SERVER_ERROR;
    }
    db.streams := db.streams - {streamId};
    db.liveComments := OrphanStreamComments(db.liveComments, streamId);
    code := OK;
  }

  /** The outcome shared by `admin_update_stream_status` (live.py) and
      `update_live_stream_status` (admin.py). */
  ghost predicate StatusUpdated(before: Tables, after: Tables, current: User, streamId: int,
                                status: Option<int>, now: Time, code: int)
  {
    && (code == OK <==> current.role == ADMIN && streamId in before.streams && ValidStatus(status))
    && (code != OK ==> code == SERVER_ERROR && after == before)
    && (code == OK ==> after == before.(streams :=
          before.streams[streamId := WithStatus(before.streams[streamId], status.value, now)]))
  }

  /** `admin_update_stream_status`. */
  method AdminUpdateStreamStatus(db: Database, current: User, streamId: int,
                                 status: Option<int>, now: Time) returns (code: int)
    requires db.Valid()
    modifies db
    ensures db.Valid()
    ensures StatusUpdated(old(db.State()), db.State(), current, streamId, status, now, code)
  {
    if current.role != ADMIN || streamId !in db.streams || !ValidStatus(status) {
      return SERVER_ERROR;  // the 403, 404 and 400 all end up here
    }
    db.streams := db.streams[streamId := WithStatus(db.streams[streamId], status.value, now)];
    code := OK;
  }

  /** `admin_delete_live_stream`: the stream's live comments are deleted first, then the
      stream. */
  method AdminDeleteLiveStream(db: Database, current: User, streamId: int) returns (code: int)
    requires db.Valid()
    modifies db
    ensures db.Valid()
    ensures code == OK <==> current.role == ADMIN && streamId in old(db.streams)
    ensures code != OK ==> code == SERVER_ERROR && db.State() == old(db.State())
    ensures code == OK ==> db.State() == old(db.State()).(
      streams := old(db.streams) - {streamId},
      liveComments := DropStreamComments(old(db.liveComments), streamId))
  {
    if current.role != ADMIN || streamId !in db.streams {
      return SERVER_ERROR;
    }
    db.liveComments := DropStreamComments(db.liveComments, streamId);
    db.streams := db.streams - {streamId};
    code := OK;
  }

  /** The card the list and detail pages show for a stream. */
  datatype Card = Card(
    id: int,
    title: string,
    description: string,
    cover: string,
    status: int,
    viewers: int,
    streamer: string,
    chatCount: nat)

  /** The streamer's name on the list page: `stream.user.name if stream.user`. */
  function ListStreamer(users: map<int, User>, s: LiveStream): (name: string)
    ensures s.userId.Some? && s.userId.value in users ==> name == users[s.userId.value].name
    ensures s.userId.None? || s.userId.value !in users ==> name == UNKNOWN_STREAMER
  {
    if s.userId.Some? && s.userId.value in users then users[s.userId.value].name
    else UNKNOWN_STREAMER
  }

  /** The streamer's name on the detail page, looked up only when `if stream.user_id:`
      holds, so a streamer with id 0 shows as unknown there. */
  function DetailStreamer(users: map<int, User>, s: LiveStream): (name: string)
    ensures s.userId.Some? && s.userId.value != 0 && s.userId.value in users ==>
      name == users[s.userId.value].name
    ensures s.userId.None? || s.userId.value == 0 || s.userId.value !in users ==>
      name == UNKNOWN_STREAMER
  {
    if s.userId.Some? && s.userId.value != 0 && s.userId.value in users then
      users[s.userId.value].name
    else UNKNOWN_STREAMER
  }

  /** The two pages name the same streamer except for a stored user with id 0, whom the
      detail page's truthiness test skips. Either name is a stored user's or the fallback. */
  lemma StreamerPagesAgree(users: map<int, User>, s: LiveStream)
    ensures ListStreamer(users, s) == UNKNOWN_STREAMER
      || (s.userId.Some? && s.userId.value in users && ListStreamer(users, s) == users[s.userId.value].name)
    ensures s.userId != Some(0) ==> DetailStreamer(users, s) == ListStreamer(users, s)
    ensures DetailStreamer(users, s) != ListStreamer(users, s) <==>
      s.userId == Some(0) && 0 in users && users[0].name != UNKNOWN_STREAMER
  {
  }

  /** The card of stream id, with the given streamer name. */
  function CardOf(t: Tables, id: int, streamer: string): (c: Card)
    requires id in t.streams
    ensures c.id == t.streams[id].id && c.title == t.streams[id].title
    ensures c.status == t.streams[id].status && c.viewers == Viewers(t.streams[id])
    ensures c.chatCount == ChatCount(t.liveComments, id) && c.streamer == streamer
  {
    var s := t.streams[id];
    Card(s.id, s.title, TextOr(s.description, ""), TextOr(s.coverImage, DEFAULT_COVER),
         s.status, Viewers(s), streamer, ChatCount(t.liveComments, id))
  }

  /** A card always shows a cover: the stored one, or the default when the column is NULL
      or "". Its description is the stored one, or "" when the column is NULL. */
  lemma CardFallbacks(t: Tables, id: int, streamer: string)
    requires id in t.streams
    ensures var c, s := CardOf(t, id, streamer), t.streams[id];
      && c.cover != ""
      && (c.cover == DEFAULT_COVER || s.coverImage == Some(c.cover))
      && (s.coverImage.Some? && s.coverImage.value != "" ==> c.cover == s.coverImage.value)
      && (c.description == "" <==> s.description.None? || s.description == Some(""))
      && (c.description != "" ==> s.description == Some(c.description))
  {
  }

  /** `get_live_stream_detail`: one more viewer, then the card. */
  method GetLiveStreamDetail(db: Database, streamId: int) returns (code: int, card: Option<Card>)
    requires db.Valid()
    modifies db
    ensures db.Valid()
    ensures code == OK <==> streamId in old(db.streams)
    ensures code != OK ==> code == SERVER_ERROR && card.None? && db.State() == old(db.State())
    ensures code == OK ==>
      && db.State() == old(db.State()).(streams :=
           old(db.streams)[streamId := Viewed(old(db.streams)[streamId])])
      && card == Some(CardOf(db.State(), streamId, DetailStreamer(db.users, db.streams[streamId])))
      && card.value.viewers == Viewers(old(db.streams)[streamId]) + 1
  {
    if streamId !in db.streams {
      return SERVER_ERROR, None;
    }
    db.streams := db.streams[streamId := Viewed(db.streams[streamId])];
    code := OK;
    card := Some(CardOf(db.State(), streamId, DetailStreamer(db.users, db.streams[streamId])));
  }

  /** The ids of the live streams (status 1), in the order the unsorted query reads them. */
  function LiveIds(streams: map<int, LiveStream>): (ids: seq<int>)
    ensures Keys.Distinct(ids)
    ensures forall k :: k in ids <==> k in streams && streams[k].status == 1
  {
    Keys.SortedKeys(set k | k in streams && streams[k].status == 1)
  }

  /** `get_live_streams`: page `page` of the live streams, one card each, and the
      pagination block. */
  method GetLiveStreams(db: Database, page: int, pageSize: int)
    returns (cards: seq<Card>, meta: Paging.LiveListMeta)
    requires db.Valid() && Paging.ValidPaging(page, pageSize)
    ensures var rows := Paging.PageRows(LiveIds(db.streams), page, pageSize);
      && |cards| == |rows|
      && forall i :: 0 <= i < |rows| ==>
           rows[i] in db.streams &&
           cards[i] == CardOf(db.State(), rows[i], ListStreamer(db.users, db.streams[rows[i]]))
    ensures meta == Paging.LiveMeta(page, pageSize, |cards|)
  {
    var rows := Paging.PageRows(LiveIds(db.streams), page, pageSize);
    cards := [];
    for i := 0 to |rows|
      invariant |cards| == i
      invariant forall j :: 0 <= j < i ==>
        rows[j] in db.streams &&
        cards[j] == CardOf(db.State(), rows[j], ListStreamer(db.users, db.streams[rows[j]]))
    {
      var id := rows[i];
      assert id in LiveIds(db.streams);
      cards := cards + [CardOf(db.State(), id, ListStreamer(db.users, db.streams[id]))];
    }
    meta := Paging.LiveMeta(page, pageSize, |cards|);
  }

  /** Only live streams are listed, and every live stream appears on one of the pages. */
  lemma ListedStreamsAreLive(streams: map<int, LiveStream>, page: int, pageSize: int, id: int)
    requires Paging.ValidPaging(page, pageSize)
    ensures id in Paging.PageRows(LiveIds(streams), page, pageSize) ==>
      id in streams && streams[id].status == 1
    ensures id in streams && streams[id].status == 1 ==>
      exists p :: 1 <= p <= Paging.Pages(|LiveIds(streams)|, pageSize) &&
        id in Paging.PageRows(LiveIds(streams), p, pageSize)
  {
    var ids := LiveIds(streams);
    if id in Paging.PageRows(ids, page, pageSize) {
      Paging.PageRowIsRow(ids, page, pageSize, id);
    }
    if id in streams && streams[id].status == 1 {
      assert id in ids;
      var i :| 0 <= i < |ids| && ids[i] == id;
      Paging.RowIsShown(ids, pageSize, i);
    }
  }
}
