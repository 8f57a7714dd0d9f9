# Live-stream and comment back end: verified model of the decision logic

This project models the server-side decision logic of a FastAPI/SQLAlchemy back end that
serves videos, their comment threads and live streams, and proves properties of it in Dafny.

The database session is a class, `Records.Database`. Its fields are maps from row id to
record: users, video comments, live streams, live comments and videos. The record fields
follow `models.py`. Each request handler is a method that takes the session, the logged-in
user and the request values. It returns the HTTP status code the client sees, and its
`ensures` states the whole new state as a function of the old one (`db.State()`). The
session invariant `Valid()` is preserved by every handler: every row is stored under its
own id, every comment belongs to a stored user, and every reply answers a stored,
older comment.

The modules follow the source files:

- `category.dfy`: `normalize_category` and `CATEGORY_MAP` of `live.py`. It includes
  Python's `str()`, `strip()`, `lower()`, `isdigit()` and `int()` as far as the
  normaliser uses them.
- `paging.dfy`: the `skip`/`offset`, `pages` and `hasMore` arithmetic, and the
  OFFSET/LIMIT window that it selects.
- `live.py` handlers, in `live.dfy`:
  - the two-state status machine, with its start and end times;
  - the "streamer or admin" rule;
  - the viewer count;
  - the public list and detail pages;
  - the two ways a stream is deleted.
- `admin.py` handlers, in `admin.dfy`:
  - role and status changes;
  - `create_user`, whose password cut to 72 UTF-8 bytes is in `utf8.dfy`;
  - `get_type_id_by_name`;
  - `vod_id` allocation in `create_video`;
  - the admin deletes of comments and live streams;
  - `update_live_stream_status`.
- `comments.py`, in `comments.dfy` and `replytree.dfy`:
  - the comment page, built by the recursive `get_all_replies`;
  - posting, replying and deleting.
- `records.dfy` and `keys.dfy`: the rows, the session, and facts about id sets.

Some behaviour of the source is modelled as written, not as its messages suggest:

- **Errors that become 500.** Every handler in `live.py`, and `update_live_stream_status`
  in `admin.py`, raises its 400, 403 and 404 inside `try: ... except Exception`. The
  handler catches its own `HTTPException`, rolls back and answers 500. The model returns
  500 for those refusals. `create_user` and `create_video` re-raise `HTTPException` first,
  so their 400s reach the client. `delete_live_stream_admin` raises its 404 before the
  `try`, so that 404 also reaches the client.
- **`get_current_admin`** (`后端/security.py:194-201`) answers 403 to a non-admin before an
  admin handler runs. The model states this as the handler's first check, `Admin.IsAdmin`.
- **Deleting a row that others refer to.** The relationships have no delete cascade, so
  the ORM sets the referring column to NULL:
  - a reply to a deleted comment survives as a top-level comment (`ReplyTree.Detach`);
  - the live comments of a stream deleted by `delete_live_stream` survive with a NULL
    stream (`Live.OrphanStreamComments`).
- **Values supplied by the caller.** The clock (`now`), the password hash function
  (`hash`) and the id the database assigns to a new row (`newId`) are parameters.
- **One request at a time.** Every handler is an `async def` with no `await`, and
  `main.py:67-72` starts a single uvicorn process, so each handler body runs to completion
  before another starts. The handlers are modelled as atomic steps. Several worker
  processes would break this for three check-then-act steps: the
  `MAX(vod_id) + 1` allocation of `create_video` (`Admin.NextVodIdFresh`), the name-in-use
  check of `create_user` (`Admin.CreateUser`), and the read-modify-write viewer bump of
  `get_live_stream_detail` (`Live.RunCountsViews`).
- **Read order of unsorted queries.** A query without `ORDER BY`, and the `replies`
  relationship, are read in ascending id order. Ties in
  `order_by(Comment.timestamp.desc())` are broken in the order the model's insertion sort
  fixes.

## Model

| member | source | states |
|---|---|---|
| Category.Normalize | live.py:23-64 | `normalize_category` itself. It has no contract of its own: NormalizeInRange, FalsyAndZero, DigitTextCase, NumberCase, PlainLookup, PaddingIgnored and CaseIgnored state its behaviour. |
| Category.Lookup | live.py:61-64 | The lookup after strip() and lower(), with no contract of its own: DigitTextCase states the digit-table branch, and PlainLookup the English, then Chinese, then default order. |
| Category.Label | live.py:14-20 | A category's Chinese display name is its CATEGORY_MAP entry, two CJK characters long. |
| Category.NormalizeInRange | live.py:14-64 | normalize_category returns one of the five CATEGORY_MAP keys gaming, entertainment, music, education and other. The ValueError that CPython's int() raises on more than 4300 digits is not modelled (see Left out). |
| Category.FalsyAndZero | live.py:25-26 | None, "" and the integer 0 give entertainment. The string "0" is truthy, reaches the digit table and gives gaming. |
| Category.KeyIsFixed | live.py:31-40 | Each internal key is unchanged by strip() and lower(), and the alias tables map it to itself. |
| Category.NormalizeIdempotent | live.py:28-64 | Normalising the key that normalize_category returned gives the same category again. |
| Category.LabelRoundTrip | live.py:14-20 | Each Chinese display name of CATEGORY_MAP normalises back to its own category. |
| Category.DigitTextCase | live.py:53-62 | A text that is a digit string after strip and lower is read as an integer. 0..4 give the digit table's category, and every other value gives entertainment. |
| Category.NumberCase | live.py:25-28 | An integer input goes through str(): 1..4 hit the digit table, and every other integer, negative ones and 0 included, gives entertainment. |
| Category.NegativeNumber | live.py:28 | A negative integer is written with a '-' sign, so it is neither a digit string nor an alias, and it gives the default. |
| Category.DigitsAreDigits | live.py:61-62 | The decimal text of a natural number is a digit string whose value is that number. |
| Category.DecimalIsPlain | live.py:28 | The decimal text of an integer is non-empty, and strip() and lower() leave it unchanged. |
| Category.PaddingIgnored | live.py:28 | Whitespace around a text does not change its category. |
| Category.PlainLookup | live.py:28-64 | A text that strip() and lower() leave unchanged and that is not a digit string is looked up in the English aliases, then the Chinese aliases, and otherwise gets the default. |
| Category.CaseIgnored | live.py:28 | Texts that differ only in the case of ASCII letters get the same category. |
| Category.StripLeftAppend | live.py:28 | strip() of a concatenation stops inside the first part unless that part is all whitespace. |
| Category.ExamplePaddedUpperCase | live.py:28-40 | " GAME " gives gaming. |
| Category.ExampleShortAlias | live.py:31-40 | "Edu" gives education. |
| Category.ExampleUnknownDigit | live.py:53-62 | "7" is a digit string outside the digit table and gives entertainment. |
| Paging.Skip | admin.py:26 | skip = (page - 1) * page_size, with no contract beyond being non-negative; SkipWholePages states its meaning. |
| Paging.SkipWholePages | admin.py:26 | For page >= 1, skip is a non-negative number of whole pages: exactly page - 1 pages of page_size rows. |
| Paging.Pages | admin.py:72 | pages = (total + page_size - 1) // page_size is ceiling division. pages * page_size >= total, (pages - 1) * page_size < total when total > 0, and pages == 0 exactly when total == 0. |
| Paging.Window | live.py:82-84 | OFFSET/LIMIT returns min(limit, rows left after the offset) rows, namely the rows from the offset on, in order. |
| Paging.PageRows | live.py:82-84 | One page as OFFSET skip LIMIT page_size reads it, with no contract of its own: Window states its rows, and RowOnItsPage, PageRowIsRow, RowIsShown, AllPagesAreAllRows and PageSizes state how the pages cover the rows. |
| Paging.RowOnItsPage | admin.py:26-72 | Row i lies on page i / page_size + 1, which is one of the `pages` pages, and inside that page's window. |
| Paging.FirstPagesArePrefix | admin.py:26-47 | Pages 1..k laid end to end are the first k * page_size rows. |
| Paging.AllPagesAreAllRows | admin.py:26-72 | The `pages` pages read in order are exactly the rows of the query: nothing is lost and nothing is repeated. |
| Paging.PageRowIsRow | admin.py:26-47 | Every row of a page is a row of the query. |
| Paging.RowIsShown | admin.py:26-72 | Every row of the query is on one of the `pages` pages. |
| Paging.PageSizes | admin.py:26-72 | Every page before the last is full, and every page after the last is empty. |
| Paging.LiveMeta | live.py:124-129 | The pagination block of the live list: hasMore holds exactly when the page came back full, and total is the page length. |
| Paging.NoMoreMeansLastPage | live.py:79-84 | When hasMore is false, the next page is empty and the page reaches the end of the rows. |
| Paging.HasMoreOnFullLastPage | live.py:127-128 | hasMore is only a hint: a full last page reports more rows that do not exist, and total is less than the number of live streams. |
| Live.Viewers | live.py:111 | `viewer_count or 0`: NULL counts as 0. |
| Live.MayManage | live.py:441-447 | A predicate with no contract of its own: the streamer or an admin may end or delete a stream, and a stream with a NULL streamer only an admin. EndLiveStream and DeleteLiveStream (the same rule at live.py:483-488) answer 200 exactly under this rule. |
| Live.CardFallbacks | live.py:107-108 | A card always shows a cover: the stored one, or the default when the column is NULL or "". The description is the stored one, or "" when the column is NULL. |
| Live.Ended | live.py:449-450 | Ending sets status 0 and the end time. The start time and all non-status fields are kept, and status and end time agree afterwards. |
| Live.Reopened | live.py:733-738 | Reopening sets status 1 and the start time, and clears the end time. Nothing else changes. |
| Live.WithStatus | live.py:725-738 | Status 0 ends the stream and status 1 reopens it. The result is settled, and only times and status differ. |
| Live.Viewed | live.py:264 | A view sets viewer_count to (viewer_count or 0) + 1 and changes nothing else. |
| Live.RunSettles | live.py:449-450 | After any sequence of handler events that contains an end or a valid status change, status and end time agree, and they keep agreeing. |
| Live.RunCountsViews | live.py:264 | Over any sequence of events, the viewer count grows by exactly the number of views, with NULL counting as 0. |
| Live.RunKeepsIdentity | live.py:449-450 | No sequence of events changes a stream's title, description, cover, key, streamer or creation time. |
| Live.DropStreamComments | live.py:784-786 | The bulk delete removes exactly the live comments of the stream and keeps every other row unchanged. |
| Live.OrphanStreamComments | live.py:490 | Deleting the stream row through the ORM keeps every live comment, and sets a NULL stream on the stream's own comments. |
| Live.ChatCount | live.py:92-94 | The chat count of a stream is 0 exactly when no live comment names the stream. |
| Live.DeletedStreamHasNoChat | live.py:490 | After either kind of delete, the deleted stream has chat count 0 and every other stream keeps its chat count. |
| Live.EndLiveStream | live.py:419-465 | 200 exactly when the stream exists and the user is its streamer or an admin, and then only that stream changes, to Ended. Otherwise 500 and nothing changes. |
| Live.DeleteLiveStream | live.py:467-502 | 200 exactly when the stream exists and the user may manage it, and then the stream goes and its live comments are orphaned. Otherwise 500 and nothing changes. |
| Live.AdminUpdateStreamStatus | live.py:698-756 | 200 exactly for an admin, a stored stream and a status of 0 or 1, and then only that stream changes, to WithStatus. Every refusal is 500 with nothing changed. |
| Live.AdminDeleteLiveStream | live.py:758-805 | 200 exactly for an admin and a stored stream, and then the stream and all of its live comments go. Otherwise 500 and nothing changes. |
| Live.CardOf | live.py:103-117 | A stream's card carries its id, title, status, viewer count (NULL as 0), the given streamer and its chat count. |
| Live.StreamerPagesAgree | live.py:267-272 | The detail page names the same streamer as the list page (line 112), except for a stored user with id 0, whom only the list page names, because the detail page tests `if stream.user_id:`. Either name is a stored user's name or 未知主播. |
| Live.GetLiveStreamDetail | live.py:246-329 | A stored stream gets exactly one more viewer and nothing else changes; the card shows the new count. A missing stream gives 500 and no change. |
| Live.LiveIds | live.py:82-84 | The rows the list query reads are the live streams (status 1), each once. |
| Live.GetLiveStreams | live.py:68-136 | One card per row of the requested page of live streams, in order, and the pagination block of that page. |
| Live.ListedStreamsAreLive | live.py:82-84 | Only live streams are listed, and every live stream appears on one of the pages. |
| Admin.IsAdmin | admin.py:82 | A predicate with no contract of its own: the `get_current_admin` dependency (its role test is in `后端/security.py:194-201`). Every handler guarded by it answers 403 whenever it fails, before any other check. |
| Admin.UpdateUserRole | admin.py:77-99 | A non-admin gets 403 and a missing user 404. A role other than "admin" or "user" gives 400. All of these leave the data unchanged. 200 exactly otherwise, when only that user's role changes. |
| Admin.UpdateUserStatus | admin.py:101-120 | 403 for a non-admin and 404 for a missing user, with nothing changed. Otherwise only is_active changes, to the given value or true. |
| Admin.FirstMissing | admin.py:694-700 | None exactly when every required field is present and non-empty. Otherwise, the first required field that is absent or empty. |
| Admin.Missing | admin.py:694-700 | A predicate with no contract of its own: a field is missing when it is absent or empty. FirstMissing and CreateUser state the checks built on it. |
| Admin.NewUserRole | admin.py:733-735 | The new user's role is "admin" exactly when the form asks for "admin", and "user" otherwise. |
| Admin.NameTaken | admin.py:703-706 | A predicate with no contract of its own: some stored user has exactly the name. After the field checks, CreateUser answers 400 NameInUse exactly then. The database compares through the column's collation, which is not modelled (see Left out). |
| Admin.CreateUser | admin.py:683-770 | 403 for a non-admin. The 400s come in the source's order: a missing name, a missing password, a name in use, then a password under 6 characters. Each refusal leaves the data unchanged. 200 exactly otherwise, adding one user whose hash is of the password cut to 72 bytes, whose role is coerced, and whose is_active defaults to true. The collation, the 30-character name limit and the lone-surrogate 500 are not modelled (see Left out). |
| Utf8.Encode | admin.py:720 | `password.encode('utf-8')`: the encoding is empty exactly for the empty text. EncodeAppend states that it distributes over concatenation. |
| Utf8.EncodeChar | admin.py:720 | The UTF-8 encoding of a character is 1 to 4 bytes long: a leading byte that announces the width, then continuation bytes. |
| Utf8.EncodeAppend | admin.py:720 | Encoding a concatenation gives the concatenation of the encodings. |
| Utf8.FitPrefix | admin.py:724-725 | A prefix of the text whose encoding fits the budget, such that adding the next character would not fit. |
| Utf8.TruncatePassword | admin.py:719-726 | The hashed password is a prefix of the original whose encoding has at most 72 bytes. It is the original exactly when the original fits. When cut, the bytes dropped after the prefix are a proper start of the next character's encoding, so the lenient decode drops them. |
| Utf8.TruncationIsLongest | admin.py:724-725 | No longer prefix of an over-long password fits in 72 bytes. |
| Utf8.ThirtyWideCharacters | admin.py:721-725 | Thirty three-byte characters (90 bytes) are cut to 24 characters. |
| Admin.TypeIdByName | admin.py:771-785 | The nine listed type names map to their ids, and every other name maps to 1. |
| Admin.TypeIdRange | admin.py:771-785 | The type id is one of the nine known ids. It is 1 exactly for "电影" and for unknown names. |
| Admin.TypeIdsDistinct | admin.py:773-784 | Distinct listed names have distinct ids. |
| Admin.NextVodId | admin.py:810-811 | The next vod_id is 1 for an empty table, and otherwise one more than the largest vod_id in use. |
| Admin.NextVodIdFresh | admin.py:810-811 | Any number that meets the COALESCE(MAX(vod_id), 0) + 1 description is NextVodId, and it is not in use. |
| Admin.CreateVideo | admin.py:787-855 | 403 for a non-admin, and 400 with no change for a missing vod_name or type_name. Otherwise one row is added under the next vod_id, with the mapped type id and "" for each optional field left out. |
| Admin.DirectReplies | admin.py:313-315 | The comments whose replied_id is the given comment. |
| Admin.MarkDeleted | admin.py:313-315 | The loop marks exactly the listed replies for deletion. |
| Admin.DeleteCommentAdmin | admin.py:301-324 | 403 for a non-admin and 404 for a missing comment, with nothing changed. Otherwise the comment and its direct replies go, and the surviving replies to them lose their replied_id. |
| Admin.GrandchildrenSurvive | admin.py:313-317 | A reply to a direct reply is not deleted. It survives as a top-level comment with its other fields intact. |
| Admin.DeleteLiveStreamAdmin | admin.py:561-592 | 403 for a non-admin and a genuine 404 for a missing stream, with nothing changed. Otherwise the stream and its live comments go. |
| Admin.UpdateLiveStreamStatus | admin.py:621-678 | The same outcome as admin_update_stream_status: 200 exactly for an admin, a stored stream and status 0 or 1. Every refusal is 500 with nothing changed. |
| ReplyTree.RepliesAcyclic | models.py:89-106 | Because a comment only answers an older stored comment, the replied_id links form a forest: no comment descends from itself. |
| ReplyTree.Children | comments.py:34-35 | `comment.replies`: exactly the stored comments that answer p, each once, in id order. |
| ReplyTree.FlattenNode | comments.py:16-35 | A comment followed by its flattened replies, all stored comments. NodeMembers and NodeDistinct state that this is the comment's whole subtree, each comment once. |
| ReplyTree.FlattenList | comments.py:17-35 | What `get_all_replies` appends for a list of replies, all stored comments. FlattenListSnoc states how it grows one reply at a time. |
| ReplyTree.FlattenListSnoc | comments.py:17-35 | Flattening one more reply appends that reply, then its whole flattened subtree. |
| ReplyTree.DescendsGreater | models.py:89-106 | A descendant of a comment has a larger id than the comment. |
| ReplyTree.NodeMembers | comments.py:16-35 | A comment's flattened subtree holds exactly the comment and its descendants. |
| ReplyTree.NodeDistinct | comments.py:16-35 | No comment occurs twice in a flattened subtree. |
| ReplyTree.ReplyListIsDescendants | comments.py:58-61 | A comment's reply_list ids hold every descendant exactly once and nothing else, so its length is the size of the subtree minus 1. |
| ReplyTree.Detach | comments.py:181 | Deleting rows keeps every other comment. A survivor loses its replied_id exactly when the comment it answered was deleted. |
| ReplyTree.DetachWellFormed | comments.py:181-182 | Deleting comments keeps the comment table well formed. |
| Comments.ReplyViewOf | comments.py:25-32 | A reply entry carries the comment's id, body, author id and author name. reply_user_name is the name of the author of the comment it answers, or None when it answers nothing. |
| Comments.ReplyViews | comments.py:17-33 | One entry per id, in order. |
| Comments.NodeViews | comments.py:17-35 | Adding one reply to the list adds that reply's entry, then the entries of its whole subtree. |
| Comments.LoopStep | comments.py:17-35 | One turn of the loop over the replies appends the reply's entry and then its subtree's entries, after the entries of the earlier replies. |
| Comments.GetAllReplies | comments.py:16-35 | The accumulator comes back as the old contents followed by the entries of the preorder flattening of the given replies. |
| Comments.CommentViewOf | comments.py:51-61 | A page entry carries the comment's id, body, author id and author name. |
| Comments.ThreadIsWhole | comments.py:16-35 | A comment's reply_list names every comment of its thread exactly once and nothing else. Every entry names the author of the comment it answers. |
| Comments.VideoIds | comments.py:37-39 | Exactly the stored comments of the video, replies included, each once. |
| Comments.VideoComments | comments.py:37-39 | The stored rows of the video's comments, one per id of VideoIds, in that order. |
| Comments.PageComments | comments.py:37-39 | The rows of the comment page: a permutation of the video's comments, newest first. |
| Comments.Insert | comments.py:39 | Inserting adds exactly one copy of the comment and changes no other multiplicity. |
| Comments.InsertKeepsOrder | comments.py:39 | Inserting into a newest-first list keeps it newest first. |
| Comments.SortNewestFirst | comments.py:39 | `order_by(timestamp.desc())`: a permutation of the rows, newest first. |
| Comments.PageIsWholeVideo | comments.py:37-42 | The page has an entry for a comment exactly when the comment is a stored comment of the video, replies included. |
| Comments.PageRowsStored | comments.py:37-39 | Every row of the page is the stored row of a comment of the video. |
| Comments.PageOnceEach | comments.py:37-42 | The page is newest first and lists no comment twice. |
| Comments.BuildCommentList | comments.py:41-62 | For a list of stored comment rows, one page entry per row, in order, each with the comment's flattened reply list. |
| Comments.ShowComments | comments.py:11-68 | One entry per row of the page, in order, each holding the comment's fields and its flattened reply list. |
| Comments.PostComment | comments.py:71-110 | An empty body gives 400 and creates nothing. Otherwise, exactly one top-level comment by the current user on the video is added. |
| Comments.ReplyComment | comments.py:113-163 | A missing parent gives 400 before an empty body does, and both leave the data unchanged. Otherwise, one reply is added with replied_id set to the parent and the parent's movdetail_id. |
| Comments.DeleteOwnComment | comments.py:165-209 | 200 exactly when the comment exists and the current user wrote it. It is then deleted, and its replies are detached, not deleted. Otherwise 404 and nothing changes. |

## Left out

The following parts of the source are not modelled:

- **The ORM and the SQL itself**: sessions, query building, `commit`/`rollback`, and the
  500s from database failures such as foreign-key violations. The `LIKE` filters of the
  search endpoints are left out as well.
- **Framework request validation.** `Paging.ValidPaging` (`page >= 1`,
  `1 <= page_size <= 100`) is required of callers, because FastAPI rejects any other value
  before the handler runs.
- **Other endpoints:**
  - the admin list endpoints (`get_users`, `get_videos`, the comment and live-stream
    lists) beyond their paging arithmetic, and `get_stats`;
  - `create_live_stream`, the like counter, and the live-comment endpoints of `live.py`;
  - `delete_live_comment_admin` and `create_comment` of `admin.py`.
- **Response shaping.** Messages, avatar and `likes` placeholders, and the UTC+8
  `strftime` display times are not modelled. `ShowComments` omits the `time` field, and
  cards omit their creation time.
- **Opaque external values.** Password hashing (bcrypt), stream keys
  (`secrets.token_urlsafe`) and the clock are parameters, with no properties assumed.
- **Other code.**
  - `ai_search.py`, which calls a language model over the network;
  - the mock stream fixtures and `debug_search`;
  - the migration and crawler scripts;
  - `main.py`;
  - the frontend JavaScript.
- **JSON request bodies.** They are modelled as maps from field name to string: a field
  that is `null` or not a string is treated as absent. Python's `in [0, 1]` also accepts
  `False`, `True` and `1.0`, while the model's status is an optional integer. String
  fields are sequences of Unicode scalar values. Python's `json` also accepts a lone
  surrogate escape such as `"\ud800"`. In `create_user` such a password makes
  `password.encode('utf-8')` (admin.py:720) raise, and the `except Exception` at
  admin.py:764-770 turns that into 500. A Dafny `char` cannot hold a surrogate, so that
  500 is not modelled.
- Admin.UpdateUserStatus: for `{"is_active": null}`, Python stores NULL, and
  `get_current_user` then refuses the user (`if not user.is_active`). The model stores
  true, the opposite outcome.
- Admin.NameTaken: compares names by exact string equality. The source's test
  (admin.py:703-705) is SQL `=` on the `name` column, which follows the column's
  collation. On MySQL's stock collations that comparison ignores case and accents, and
  the PAD SPACE ones also ignore trailing spaces. With "Alice" stored, creating "alice"
  gives 400 in the source and 200 with a second user in the model.
- Admin.CreateUser: its "200 exactly otherwise" inherits the NameTaken gap above. It
  also does not model the `String(30)` limit of `name` (models.py:12). Under MySQL's
  strict mode a longer name fails the INSERT, which answers 500.
- Category.Normalize: models `isdigit()` and `lower()` on ASCII only. Python also accepts
  other Unicode digits and letters. `int()` of a non-ASCII digit string is not modelled.
  Nor is the `ValueError` that `int()` raises, in CPython 3.11 and later (and patched
  3.7-3.10), on a digit string of more than 4300 digits: `normalize_category` has no
  `try`, so such a text raises, while the model returns the default.
- Category.Raw: the raw value is None, a string or an integer. A `bool` or `float` is not
  modelled (`True` becomes "true" and `2.0` becomes "2.0", and both give the default).
  `normalize_category` is called nowhere in the source, so no handler's result depends
  on it.
- Utf8.TruncatePassword: the decode after the cut is stated through its result: the
  dropped bytes are an incomplete character. No UTF-8 decoder is modelled.
- **Tie order.** The order of equal timestamps under `order_by(timestamp.desc())`, and the
  order of `comment.replies`, are fixed by the model (insertion order of the sort; id
  order). The database leaves both unspecified.
- **Comments that answer a comment on another video.** These do not occur through
  `reply_comment`, which copies the parent's video. The model does not forbid them.
