/** The rows of the relational schema (the User, Comment, LiveStream, LiveComment and
    video-detail tables) and the in-memory store that the route handlers change. */
module Records {

  datatype Option<T> = None | Some(value: T)

  /** An instant. The model never reads a clock: every handler that stamps a row takes
      the current time as a parameter. */
  type Time = int

  /** HTTP status codes the handlers answer with. */
  const OK: int := 200
  const BAD_REQUEST: int := 400
  const FORBIDDEN: int := 403
  const NOT_FOUND: int := 404
  const SERVER_ERROR: int := 500

  /** The two role values the admin screens know. */
  const ADMIN: string := "admin"
  const USER: string := "user"

  datatype User = User(
    id: int,
    name: string,
    passwordHash: string,
    role: string,
    createdAt: Time,
    isActive: bool)

  /** A video comment; `repliedId` names the comment it answers, if any. */
  datatype Comment = Comment(
    id: int,
    body: string,
    timestamp: Time,
    userId: int,
    movdetailId: int,
    repliedId: Option<int>)

  /** A live-stream record: `status` is 1 while live and 0 once ended. */
  datatype LiveStream = LiveStream(
    id: int,
    title: string,
    description: Option<string>,
    coverImage: Option<string>,
    streamKey: string,
    status: int,
    viewerCount: Option<int>,
    maxViewers: Option<int>,
    startTime: Option<Time>,
    createdTime: Option<Time>,
    endTime: Option<Time>,
    userId: Option<int>)

  datatype LiveComment = LiveComment(
    id: int,
    liveStreamId: Option<int>,
    userId: int,
    content: string,
    timestamp: Time)

  /** A row of the video-detail table as the admin screen inserts it. */
  datatype Video = Video(
    vodId: int,
    vodName: string,
    vodPic: string,
    vodRemarks: string,
    typeId: int,
    typeName: string,
    vodContent: string,
    vodPlayUrl: string,
    vodTime: Time)

  /** Every comment is stored under its own id, is written by a stored user, and answers
      (if anything) a stored comment with a smaller id, because a reply can only be made
      to a comment that already exists and ids are handed out in increasing order. */
  ghost predicate CommentsWellFormed(users: map<int, User>, comments: map<int, Comment>)
  {
    forall k {:trigger comments[k]} :: k in comments ==>
      && comments[k].id == k
      && comments[k].userId in users
      && (comments[k].repliedId.Some? ==>
            comments[k].repliedId.value in comments && comments[k].repliedId.value < k)
  }

  /** The contents of every table at one moment. */
  datatype Tables = Tables(
    users: map<int, User>,
    comments: map<int, Comment>,
    streams: map<int, LiveStream>,
    liveComments: map<int, LiveComment>,
    videos: map<int, Video>)

  /** The store's integrity: every row sits under its own key, and the comment table
      satisfies CommentsWellFormed. */
  ghost predicate ValidTables(t: Tables)
  {
    && (forall k :: k in t.users ==> t.users[k].id == k)
    && CommentsWellFormed(t.users, t.comments)
    && (forall k :: k in t.streams ==> t.streams[k].id == k)
    && (forall k :: k in t.liveComments ==> t.liveComments[k].id == k)
    && (forall k :: k in t.videos ==> t.videos[k].vodId == k)
  }

  /** The database session: the handlers read and change its tables in place. */
  class Database {
    var users: map<int, User>
    var comments: map<int, Comment>
    var streams: map<int, LiveStream>
    var liveComments: map<int, LiveComment>
    var videos: map<int, Video>

    function State(): Tables
      reads this
    {
      Tables(users, comments, streams, liveComments, videos)
    }

    ghost predicate Valid()
      reads this
    {
      ValidTables(State())
    }

    constructor ()
      ensures Valid()
      ensures State() == Tables(map[], map[], map[], map[], map[])
    {
      users, comments, streams := map[], map[], map[];
      liveComments, videos := map[], map[];
    }
  }
}
