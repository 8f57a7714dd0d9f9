/** The admin screens of admin.py: user role and status changes, creating users and
    videos, and the admin deletes of comments and live streams. Except for
    `update_live_stream_status`, every endpoint here is guarded by the `get_current_admin`
    dependency (security.py), which answers 403 to anyone whose role is not "admin" before
    the handler runs. */
module Admin {
  import opened Records
  import Keys
  import Utf8
  import ReplyTree
  import Live

  /** `get_current_admin`. */
  predicate IsAdmin(u: User)
  {
    u.role == ADMIN
  }

  /** The two role values `update_user_role` accepts. */
  predicate ValidRole(role: Option<string>)
  {
    role == Some(ADMIN) || role == Some(USER)
  }

  /** `update_user_role`. */
  method UpdateUserRole(db: Database, current: User, userId: int, role: Option<string>)
    returns (code: int)
    requires db.Valid()
    modifies db
    ensures db.Valid()
    ensures !IsAdmin(current) ==> code == FORBIDDEN
    ensures IsAdmin(current) && userId !in old(db.users) ==> code == NOT_FOUND
    ensures IsAdmin(current) && userId in old(db.users) && !ValidRole(role) ==> code == BAD_REQUEST
    ensures code != OK ==> db.State() == old(db.State())
    ensures code == OK <==> IsAdmin(current) && userId in old(db.users) && ValidRole(role)
    ensures code == OK ==> db.State() == old(db.State()).(users :=
      old(db.users)[userId := old(db.users)[userId].(role := role.value)])
  {
    if !IsAdmin(current) {
      return FORBIDDEN;
    }
    if userId !in db.users {
      return NOT_FOUND;
    }
    if !ValidRole(role) {
      return BAD_REQUEST;
    }
    db.users := db.users[userId := db.users[userId].(role := role.value)];
    code := OK;
  }

  /** `update_user_status`: `is_active` defaults to true when the body leaves it out. */
  method UpdateUserStatus(db: Database, current: User, userId: int, isActive: Option<bool>)
    returns (code: int)
    requires db.Valid()
    modifies db
    ensures db.Valid()
    ensures !IsAdmin(current) ==> code == FORBIDDEN
    ensures IsAdmin(current) && userId !in old(db.users) ==> code == NOT_FOUND
    ensures code != OK ==> db.State() == old(db.State())
    ensures code == OK <==> IsAdmin(current) && userId in old(db.users)
    ensures code == OK ==> db.State() == old(db.State()).(users :=
      old(db.users)[userId := old(db.users)[userId].(isActive := GetBoolOr(isActive, true))])
  {
    if !IsAdmin(current) {
      return FORBIDDEN;
    }
    if userId !in db.users {
      return NOT_FOUND;
    }
    db.users := db.users[userId := db.users[userId].(isActive := GetBoolOr(isActive, true))];
    code := OK;
  }

  /** `d.get(key, default)` for a boolean field. */
  function GetBoolOr(x: Option<bool>, default: bool): (b: bool)
    ensures x.Some? ==> b == x.value
    ensures x.None? ==> b == default
  {
    if x.Some? then x.value else default
  }

  // ---- required fields ----

  /** The string fields of a JSON request body. A field the body leaves out is not a key. */
  type Form = map<string, string>

  /** `field not in data or not data[field]`: absent, or the empty string. */
  predicate Missing(form: Form, field: string)
  {
    field !in form || form[field] == ""
  }

  /** `for field in required_fields: if ... raise`: the first required field the form
      lacks, if any. */
  method FirstMissing(form: Form, required: seq<string>) returns (missing: Option<string>)
    ensures missing.None? <==> forall i :: 0 <= i < |required| ==> !Missing(form, required[i])
    ensures missing.Some? ==>
      exists i :: 0 <= i < |required| && required[i] == missing.value &&
        Missing(form, required[i]) && forall j :: 0 <= j < i ==> !Missing(form, required[j])
  {
    var i := 0;
    while i < |required|
      invariant 0 <= i <= |required|
      invariant forall j :: 0 <= j < i ==> !Missing(form, required[j])
    {
      if Missing(form, required[i]) {
        return Some(required[i]);
      }
      i := i + 1;
    }
    missing := None;
  }

  const USER_FIELDS: seq<string> := ["name", "password"]
  const VIDEO_FIELDS: seq<string> := ["vod_name", "type_name"]

  /** `d.get(key, default)` for a string field. */
  function GetOr(form: Form, field: string, default: string): (s: string)
    ensures field in form ==> s == form[field]
    ensures field !in form ==> s == default
  {
    if field in form then form[field] else default
  }

  // ---- create_user ----

  /** The role a new user gets: "admin" only when the form asks for exactly "admin". */
  function NewUserRole(form: Form): (role: string)
    ensures role == ADMIN || role == USER
    ensures role == ADMIN <==> "role" in form && form["role"] == ADMIN
  {
    var role := GetOr(form, "role", USER);
    if role == ADMIN || role == USER then role else USER
  }

  predicate NameTaken(users: map<int, User>, name: string)
  {
    exists k :: k in users && users[k].name == name
  }

  /** The 400s of `create_user`, in the order they are checked. */
  datatype UserError = MissingField(field: string) | NameInUse | PasswordTooShort

  /** The minimum password length, in characters. */
  const MIN_PASSWORD: nat := 6

  /** `create_user`. The database assigns the new id; `hash` is the password hashing
      function, applied to the password cut to 72 UTF-8 bytes. */
  method CreateUser(db: Database, current: User, form: Form, isActive: Option<bool>,
                    hash: string -> string, newId: int, now: Time)
    returns (code: int, err: Option<UserError>)
    requires db.Valid() && newId !in db.users
    modifies db
    ensures db.Valid()
    ensures !IsAdmin(current) ==> code == FORBIDDEN && err.None?
    ensures IsAdmin(current) && Missing(form, "name") ==> err == Some(MissingField("name"))
    ensures IsAdmin(current) && !Missing(form, "name") && Missing(form, "password") ==>
      err == Some(MissingField("password"))
    ensures IsAdmin(current) && !Missing(form, "name") && !Missing(form, "password") ==>
      && (NameTaken(old(db.users), form["name"]) ==> err == Some(NameInUse))
      && (!NameTaken(old(db.users), form["name"]) && |form["password"]| < MIN_PASSWORD ==>
            err == Some(PasswordTooShort))
    ensures err.Some? ==> code == BAD_REQUEST
    ensures code != OK ==> db.State() == old(db.State())
    ensures code == OK <==>
      && IsAdmin(current) && !Missing(form, "name") && !Missing(form, "password")
      && !NameTaken(old(db.users), form["name"]) && |form["password"]| >= MIN_PASSWORD
    ensures code == OK ==> db.State() == old(db.State()).(users := old(db.users)[newId :=
      User(newId, form["name"], hash(Utf8.TruncatePassword(form["password"])),
           NewUserRole(form), now, GetBoolOr(isActive, true))])
  {
    if !IsAdmin(current) {
      return FORBIDDEN, None;
    }
    var missing := FirstMissing(form, USER_FIELDS);
    if missing.Some? {
      ghost var i :| 0 <= i < |USER_FIELDS| && USER_FIELDS[i] == missing.value &&
        Missing(form, USER_FIELDS[i]) && forall j :: 0 <= j < i ==> !Missing(form, USER_FIELDS[j]);
      assert i == 1 ==> !Missing(form, USER_FIELDS[0]);
      return BAD_REQUEST, Some(MissingField(missing.value));
    }
    assert !Missing(form, USER_FIELDS[0]) && !Missing(form, USER_FIELDS[1]);
    var name := form["name"];
    if NameTaken(db.users, name) {
      return BAD_REQUEST, Some(NameInUse);
    }
    var password := form["password"];
    if |password| < MIN_PASSWORD {
      return BAD_REQUEST, Some(PasswordTooShort);
    }
    var u := User(newId, name, hash(Utf8.TruncatePassword(password)),
                  NewUserRole(form), now, GetBoolOr(isActive, true));
    db.users := db.users[newId := u];
    code, err := OK, None;
  }

  // ---- create_video ----

  /** `get_type_id_by_name`'s table. */
  const TYPE_IDS: map<string, int> := map[
    "电影" := 1, "连续剧" := 2, "综艺" := 3, "动漫" := 4, "国产剧" := 13,
    "香港剧" := 14, "韩国剧" := 16, "日本剧" := 23, "欧美剧" := 24]

  /** The film type, used for every name the table does not know. */
  const FILM_TYPE: int := 1

  function TypeIdByName(name: string): (id: int)
    ensures name in TYPE_IDS ==> id == TYPE_IDS[name]
    ensures name !in TYPE_IDS ==> id == FILM_TYPE
  {
    if name in TYPE_IDS then TYPE_IDS[name] else FILM_TYPE
  }

  /** The type id is always one of the nine known ids, and it is the film id exactly for
      "电影" and for the names the table does not know. */
  lemma TypeIdRange(name: string)
    ensures TypeIdByName(name) in {1, 2, 3, 4, 13, 14, 16, 23, 24}
    ensures TypeIdByName(name) == FILM_TYPE <==> name == "电影" || name !in TYPE_IDS
  {
  }

  /** Distinct known type names have distinct ids, so the type name can be recovered. */
  lemma TypeIdsDistinct(a: string, b: string)
    requires a in TYPE_IDS && b in TYPE_IDS && a != b
    ensures TypeIdByName(a) != TypeIdByName(b)
  {
  }

  /** `SELECT COALESCE(MAX(vod_id), 0) + 1`. */
  function NextVodId(videos: map<int, Video>): (n: int)
    ensures videos == map[] ==> n == 1
    ensures videos != map[] ==> n - 1 in videos && forall k :: k in videos ==> k < n
  {
    var ids := Keys.SortedKeys(videos.Keys);
    if ids == [] then
      assert videos.Keys == {};
      1
    else
      assert ids[|ids| - 1] in videos.Keys;
      assert forall k :: k in videos ==> k in ids;
      ids[|ids| - 1] + 1
  }

  /** The next vod id is determined by the table and is not in use. */
  lemma NextVodIdFresh(videos: map<int, Video>, n: int)
    requires videos == map[] ==> n == 1
    requires videos != map[] ==> n - 1 in videos && forall k :: k in videos ==> k < n
    ensures n == NextVodId(videos)
    ensures n !in videos
  {
    var m := NextVodId(videos);
    if videos != map[] {
      assert !(m - 1 < n - 1) && !(n - 1 < m - 1);
    }
  }

  /** `create_video`: after the required-field check the row is inserted with the next
      vod id, the mapped type id, and "" for each optional field left out. */
  method CreateVideo(db: Database, current: User, form: Form, now: Time)
    returns (code: int, vodId: Option<int>)
    requires db.Valid()
    modifies db
    ensures db.Valid()
    ensures code == OK <==> IsAdmin(current) && !Missing(form, "vod_name") && !Missing(form, "type_name")
    ensures code != OK ==> vodId.None? && db.State() == old(db.State())
    ensures code != OK ==> code == (if IsAdmin(current) then BAD_REQUEST else FORBIDDEN)
    ensures code == OK ==>
      && vodId == Some(NextVodId(old(db.videos)))
      && vodId.value !in old(db.videos)
      && db.State() == old(db.State()).(videos := old(db.videos)[vodId.value :=
           Video(vodId.value, form["vod_name"], GetOr(form, "vod_pic", ""),
                 GetOr(form, "vod_remarks", ""), TypeIdByName(form["type_name"]),
                 form["type_name"], GetOr(form, "vod_content", ""),
                 GetOr(form, "vod_play_url", ""), now)])
  {
    if !IsAdmin(current) {
      return FORBIDDEN, None;
    }
    var missing := FirstMissing(form, VIDEO_FIELDS);
    if missing.Some? {
      return BAD_REQUEST, None;
    }
    assert !Missing(form, VIDEO_FIELDS[0]) && !Missing(form, VIDEO_FIELDS[1]);
    var id := NextVodId(db.videos);
    NextVodIdFresh(db.videos, id);
    var v := Video(id, form["vod_name"], GetOr(form, "vod_pic", ""),
                   GetOr(form, "vod_remarks", ""), TypeIdByName(form["type_name"]),
                   form["type_name"], GetOr(form, "vod_content", ""),
                   GetOr(form, "vod_play_url", ""), now);
    db.videos := db.videos[id := v];
    code, vodId := OK, Some(id);
  }

  // ---- admin deletes ----

  /** The direct replies to comment id. */
  function DirectReplies(cs: map<int, Comment>, id: int): (r: set<int>)
    ensures forall k :: k in r <==> k in cs && cs[k].repliedId == Some(id)
  {
    set k | k in cs && cs[k].repliedId == Some(id)
  }

  /** `delete_comment_admin`: the comment and its direct replies are deleted; the replies
      to those replies stay, with their `replied_id` set to NULL by the ORM. */
  method DeleteCommentAdmin(db: Database, current: User, commentId: int) returns (code: int)
    requires db.Valid()
    modifies db
    ensures db.Valid()
    ensures !IsAdmin(current) ==> code == FORBIDDEN
    ensures code == OK <==> IsAdmin(current) && commentId in old(db.comments)
    ensures IsAdmin(current) && code != OK ==> code == NOT_FOUND
    ensures code != OK ==> db.State() == old(db.State())
    ensures code == OK ==> db.State() == old(db.State()).(comments := ReplyTree.Detach(
      old(db.comments), {commentId} + DirectReplies(old(db.comments), commentId)))
  {
    if !IsAdmin(current) {
      return FORBIDDEN;
    }
    if commentId !in db.comments {
      return NOT_FOUND;
    }
    var replies := ReplyTree.Children(db.comments, commentId);
    var deleted := MarkDeleted(replies);
    assert deleted == DirectReplies(db.comments, commentId) by {
      forall k ensures k in deleted <==> k in DirectReplies(db.comments, commentId) {
        assert k in deleted <==> k in replies;
      }
    }
    deleted := deleted + {commentId};
    ReplyTree.DetachWellFormed(db.users, db.comments, deleted);
    db.comments := ReplyTree.Detach(db.comments, deleted);
    code := OK;
  }

  /** `for reply in comment.replies: db.delete(reply)`: the session marks each reply for
      deletion; the rows go when the session is committed. */
  method MarkDeleted(replies: seq<int>) returns (deleted: set<int>)
    ensures forall k :: k in deleted <==> k in replies
  {
    deleted := {};
    for i := 0 to |replies|
      invariant forall k :: k in deleted <==> k in replies[..i]
    {
      assert replies[..i + 1] == replies[..i] + [replies[i]];
      deleted := deleted + {replies[i]};
    }
    assert replies[..|replies|] == replies;
  }

  /** Only the first generation goes: every reply to a direct reply survives, now a
      top-level comment, with its text and author intact. */
  lemma GrandchildrenSurvive(cs: map<int, Comment>, id: int, c: int, g: int)
    requires c in cs && cs[c].repliedId == Some(id)
    requires g in cs && cs[g].repliedId == Some(c) && g != id
    requires cs[g].repliedId != Some(id)
    ensures var r := ReplyTree.Detach(cs, {id} + DirectReplies(cs, id));
      && g in r && c !in r && id !in r
      && r[g] == cs[g].(repliedId := None)
  {
  }

  /** `delete_live_stream_admin`: unlike live.py, the 404 is raised before the `try`,
      so it reaches the client. */
  method DeleteLiveStreamAdmin(db: Database, current: User, streamId: int) returns (code: int)
    requires db.Valid()
    modifies db
    ensures db.Valid()
    ensures !IsAdmin(current) ==> code == FORBIDDEN
    ensures code == OK <==> IsAdmin(current) && streamId in old(db.streams)
    ensures IsAdmin(current) && code != OK ==> code == NOT_FOUND
    ensures code != OK ==> db.State() == old(db.State())
    ensures code == OK ==> db.State() == old(db.State()).(
      streams := old(db.streams) - {streamId},
      liveComments := Live.DropStreamComments(old(db.liveComments), streamId))
  {
    if !IsAdmin(current) {
      return FORBIDDEN;
    }
    if streamId !in db.streams {
      return NOT_FOUND;
    }
    db.liveComments := Live.DropStreamComments(db.liveComments, streamId);
    db.streams := db.streams - {streamId};
    code := OK;
  }

  /** `update_live_stream_status`: the same rules, and the same 500 for every refusal, as
      live.py's `admin_update_stream_status`. */
  method UpdateLiveStreamStatus(db: Database, current: User, streamId: int,
                                status: Option<int>, now: Time) returns (code: int)
    requires db.Valid()
    modifies db
    ensures db.Valid()
    ensures Live.StatusUpdated(old(db.State()), db.State(), current, streamId, status, now, code)
  {
    code := Live.AdminUpdateStreamStatus(db, current, streamId, status, now);
  }
}
