/** The mutable store of lib/api.ts (`db`, `rateState` and the id counters, lines 65-102)
    and the operations that change it. Each method is one atomic call of the source's
    exported function; `now` is the clock reading the call sees. */
module Api {
  import opened Types
  import opened Seqs
  import opened Text
  import opened Guard
  import opened RateLimit
  import opened Ledger
  import opened Lifecycle
  import opened Schema

  // ----- refusals, in the order the source checks them -----

  /** The checks every chapter edit starts with: a signed-in, unbanned actor, an existing
      chapter, and the actor as its creator. */
  function ChapterEditRefusal(users: seq<User>, chapters: seq<Chapter>, userId: Option<Id>, chapterId: Id): (r: Option<Error>)
    ensures r.None? <==>
      && AssertAuthed(users, userId).Pass?
      && ChapterIndex(chapters, chapterId).Some?
      && chapters[ChapterIndex(chapters, chapterId).value].creatorId == userId.value
    ensures AssertAuthed(users, userId).Fail? ==> r == Some(AssertAuthed(users, userId).error)
    ensures AssertAuthed(users, userId).Pass? && ChapterIndex(chapters, chapterId).None? ==> r == Some(ChapterNotFound)
    ensures (AssertAuthed(users, userId).Pass? && ChapterIndex(chapters, chapterId).Some?
      && chapters[ChapterIndex(chapters, chapterId).value].creatorId != userId.value) ==> r == Some(NotChapterOwner)
  {
    match AssertAuthed(users, userId)
    case Fail(e) => Some(e)
    case Pass =>
      match ChapterIndex(chapters, chapterId)
      case None => Some(ChapterNotFound)
      case Some(k) => if !IsCreatorOrOwner(userId.value, chapters[k]) then Some(NotChapterOwner) else None
  }

  /** The checks `addPageToDraft` makes before it writes. */
  function AddPageRefusal(users: seq<User>, chapters: seq<Chapter>, pages: seq<Page>, userId: Option<Id>, chapterId: Id): (r: Option<Error>)
    ensures r.None? <==>
      && ChapterEditRefusal(users, chapters, userId, chapterId).None?
      && chapters[ChapterIndex(chapters, chapterId).value].status == Draft
      && |ChapterPages(chapters, pages, chapterId)| < MaxPagesPerChapter
    ensures ChapterEditRefusal(users, chapters, userId, chapterId).Some? ==> r == ChapterEditRefusal(users, chapters, userId, chapterId)
  {
    match ChapterEditRefusal(users, chapters, userId, chapterId)
    case Some(e) => Some(e)
    case None =>
      var k := ChapterIndex(chapters, chapterId).value;
      if chapters[k].status != Draft then Some(PublishedCannotAddPages)
      else if |ChapterPages(chapters, pages, chapterId)| >= MaxPagesPerChapter then Some(PageLimitReached)
      else None
  }

  /** A chapter holding 80 pages takes no more, and a published chapter takes none. */
  lemma AddPageLimits(users: seq<User>, chapters: seq<Chapter>, pages: seq<Page>, userId: Option<Id>, chapterId: Id)
    requires ChapterEditRefusal(users, chapters, userId, chapterId).None?
    ensures chapters[ChapterIndex(chapters, chapterId).value].status == Published ==>
      AddPageRefusal(users, chapters, pages, userId, chapterId) == Some(PublishedCannotAddPages)
    ensures chapters[ChapterIndex(chapters, chapterId).value].status == Draft
      && |ChapterPages(chapters, pages, chapterId)| >= MaxPagesPerChapter
      ==> AddPageRefusal(users, chapters, pages, userId, chapterId) == Some(PageLimitReached)
  {
  }

  /** The checks `reorderDraftPages` makes before it writes. */
  function ReorderRefusal(users: seq<User>, chapters: seq<Chapter>, pages: seq<Page>, userId: Option<Id>, chapterId: Id,
                          newOrder: seq<Id>): (r: Option<Error>)
    ensures r.None? <==>
      && ChapterEditRefusal(users, chapters, userId, chapterId).None?
      && chapters[ChapterIndex(chapters, chapterId).value].status == Draft
      && ReorderError(ChapterPages(chapters, pages, chapterId), newOrder).None?
    ensures (ChapterEditRefusal(users, chapters, userId, chapterId).None?
      && chapters[ChapterIndex(chapters, chapterId).value].status == Published) ==> r == Some(OrderLockedAfterPublish)
  {
    match ChapterEditRefusal(users, chapters, userId, chapterId)
    case Some(e) => Some(e)
    case None =>
      var k := ChapterIndex(chapters, chapterId).value;
      if chapters[k].status != Draft then Some(OrderLockedAfterPublish)
      else ReorderError(ChapterPages(chapters, pages, chapterId), newOrder)
  }

  /** The checks `publishChapter` makes before it writes. */
  function PublishRefusal(users: seq<User>, chapters: seq<Chapter>, pages: seq<Page>, userId: Option<Id>, chapterId: Id): (r: Option<Error>)
    ensures r.None? <==>
      && ChapterEditRefusal(users, chapters, userId, chapterId).None?
      && chapters[ChapterIndex(chapters, chapterId).value].status == Draft
      && |ChapterPages(chapters, pages, chapterId)| >= 1
    ensures (ChapterEditRefusal(users, chapters, userId, chapterId).None?
      && chapters[ChapterIndex(chapters, chapterId).value].status == Published) ==> r == Some(AlreadyPublished)
  {
    match ChapterEditRefusal(users, chapters, userId, chapterId)
    case Some(e) => Some(e)
    case None => PublishError(chapters[ChapterIndex(chapters, chapterId).value], ChapterPages(chapters, pages, chapterId))
  }

  /** The checks `unpublishChapter` makes before it writes. */
  function UnpublishRefusal(users: seq<User>, chapters: seq<Chapter>, comments: seq<Comment>, reactions: seq<Reaction>,
                            userId: Option<Id>, chapterId: Id): (r: Option<Error>)
    ensures r.None? <==>
      && ChapterEditRefusal(users, chapters, userId, chapterId).None?
      && chapters[ChapterIndex(chapters, chapterId).value].status == Published
      && !Engaged(comments, reactions, chapterId)
  {
    match ChapterEditRefusal(users, chapters, userId, chapterId)
    case Some(e) => Some(e)
    case None => UnpublishError(chapters[ChapterIndex(chapters, chapterId).value], comments, reactions)
  }

  /** The checks `replacePublishedPageImage` makes before it writes. */
  function ReplaceImageRefusal(users: seq<User>, chapters: seq<Chapter>, pages: seq<Page>, userId: Option<Id>, chapterId: Id,
                               pageNumber: int): (r: Option<Error>)
    ensures r.None? <==>
      && ChapterEditRefusal(users, chapters, userId, chapterId).None?
      && chapters[ChapterIndex(chapters, chapterId).value].status == Published
      && PageSlot(pages, chapterId, pageNumber).Some?
    ensures (ChapterEditRefusal(users, chapters, userId, chapterId).None?
      && chapters[ChapterIndex(chapters, chapterId).value].status == Draft) ==> r == Some(OnlyPublishedReplace)
  {
    match ChapterEditRefusal(users, chapters, userId, chapterId)
    case Some(e) => Some(e)
    case None =>
      if chapters[ChapterIndex(chapters, chapterId).value].status != Published then Some(OnlyPublishedReplace)
      else if PageSlot(pages, chapterId, pageNumber).None? then Some(PageNotFound)
      else None
  }

  /** The checks `addComment` makes before it writes: sign-in, a published chapter, the
      per-actor cooldown, then the body. */
  function CommentRefusal(users: seq<User>, chapters: seq<Chapter>, lastCommentAt: map<Id, int>, userId: Option<Id>,
                          chapterId: Id, body: string, now: int): (r: Option<Error>)
    ensures r.None? <==>
      && AssertAuthed(users, userId).Pass?
      && IsChapterPublished(chapters, chapterId)
      && !CoolingDown(lastCommentAt, userId.value, now, CommentCooldownMs)
      && CommentBodyError(body).None?
    ensures AssertAuthed(users, userId).Pass? && !IsChapterPublished(chapters, chapterId) ==> r == Some(CommentsOnlyOnPublished)
    ensures (AssertAuthed(users, userId).Pass? && IsChapterPublished(chapters, chapterId)
      && CoolingDown(lastCommentAt, userId.value, now, CommentCooldownMs)) ==> r == Some(CommentRateLimited)
  {
    match AssertAuthed(users, userId)
    case Fail(e) => Some(e)
    case Pass =>
      if !IsChapterPublished(chapters, chapterId) then Some(CommentsOnlyOnPublished)
      else if CoolingDown(lastCommentAt, userId.value, now, CommentCooldownMs) then Some(CommentRateLimited)
      else CommentBodyError(body)
  }

  /** The checks `addReaction` makes before it writes. */
  function ReactionRefusal(users: seq<User>, chapters: seq<Chapter>, lastReactionAt: map<Id, int>, userId: Option<Id>,
                           chapterId: Id, now: int): (r: Option<Error>)
    ensures r.None? <==>
      && AssertAuthed(users, userId).Pass?
      && IsChapterPublished(chapters, chapterId)
      && !CoolingDown(lastReactionAt, userId.value, now, ReactionCooldownMs)
    ensures (AssertAuthed(users, userId).Pass? && IsChapterPublished(chapters, chapterId)
      && CoolingDown(lastReactionAt, userId.value, now, ReactionCooldownMs)) ==> r == Some(ReactionThrottled)
  {
    match AssertAuthed(users, userId)
    case Fail(e) => Some(e)
    case Pass =>
      if !IsChapterPublished(chapters, chapterId) then Some(ReactionsOnlyOnPublished)
      else if CoolingDown(lastReactionAt, userId.value, now, ReactionCooldownMs) then Some(ReactionThrottled)
      else None
  }

  /** The index of the first comment with that id that is not deleted
      (`db.comments.find(...)` in `voteComment`). */
  function LiveCommentSlot(comments: seq<Comment>, commentId: Id): (r: Option<nat>)
    ensures r.Some? ==> r.value < |comments| && comments[r.value].id == commentId && !comments[r.value].isDeleted
    ensures r.None? <==> forall k :: 0 <= k < |comments| ==> !(comments[k].id == commentId && !comments[k].isDeleted)
  {
    FirstIndex(comments, (c: Comment) => c.id == commentId && !c.isDeleted)
  }

  /** The checks `voteComment` makes once the rate limiter has let the vote through. */
  function VoteTargetRefusal(comments: seq<Comment>, chapters: seq<Chapter>, commentId: Id): (r: Option<Error>)
    ensures r.None? <==>
      LiveCommentSlot(comments, commentId).Some? &&
      IsChapterPublished(chapters, comments[LiveCommentSlot(comments, commentId).value].chapterId)
    ensures LiveCommentSlot(comments, commentId).None? ==> r == Some(CommentNotFound)
  {
    match LiveCommentSlot(comments, commentId)
    case None => Some(CommentNotFound)
    case Some(k) => if !IsChapterPublished(chapters, comments[k].chapterId) then Some(VotesOnlyOnPublished) else None
  }

  /** The index of the first user with that id who is a creator. */
  function CreatorSlot(users: seq<User>, creatorId: Id): (r: Option<nat>)
    ensures r.Some? ==> r.value < |users| && users[r.value].id == creatorId && users[r.value].isCreator
    ensures r.None? <==> forall k :: 0 <= k < |users| ==> !(users[k].id == creatorId && users[k].isCreator)
  {
    FirstIndex(users, (u: User) => u.id == creatorId && u.isCreator)
  }

  /** The checks `followCreator` makes before it writes. */
  function FollowRefusal(users: seq<User>, userId: Option<Id>, creatorId: Id): (r: Option<Error>)
    ensures r.None? <==> AssertAuthed(users, userId).Pass? && userId.value != creatorId && CreatorSlot(users, creatorId).Some?
    ensures AssertAuthed(users, userId).Pass? && userId == Some(creatorId) ==> r == Some(CannotFollowSelf)
  {
    match AssertAuthed(users, userId)
    case Fail(e) => Some(e)
    case Pass =>
      if userId == Some(creatorId) then Some(CannotFollowSelf)
      else if CreatorSlot(users, creatorId).None? then Some(CreatorNotFound)
      else None
  }

  /** The user record after `updateProfile`'s patch, before `touchUser`: a username only when
      it trims to something non-empty, the bio (trimmed, possibly to "") whenever given, the
      avatar only when it trims to something non-empty; nothing else changes. */
  function Edited(u: User, username: Option<string>, bio: Option<string>, avatarUrl: Option<string>): (r: User)
    ensures r.id == u.id && r.isCreator == u.isCreator && r.isBanned == u.isBanned && r.lastActiveAt == u.lastActiveAt
    ensures r.username == if username.Some? && Trim(username.value) != [] then Trim(username.value) else u.username
    ensures r.bio == if bio.Some? then Some(Trim(bio.value)) else u.bio
    ensures r.avatarUrl == if avatarUrl.Some? && Trim(avatarUrl.value) != [] then Trim(avatarUrl.value) else u.avatarUrl
  {
    var named := if username.Some? && |Trim(username.value)| > 0 then u.(username := Trim(username.value)) else u;
    var described := if bio.Some? then named.(bio := Some(Trim(bio.value))) else named;
    if avatarUrl.Some? && |Trim(avatarUrl.value)| > 0 then described.(avatarUrl := Trim(avatarUrl.value)) else described
  }

  /** The user record `updateProfile` returns: the patch, then the `touchUser` stamp. */
  function Patched(u: User, username: Option<string>, bio: Option<string>, avatarUrl: Option<string>, now: int): (r: User)
    ensures r.id == u.id && r.isCreator == u.isCreator && r.isBanned == u.isBanned && r.lastActiveAt == now
    ensures r.username == if username.Some? && Trim(username.value) != [] then Trim(username.value) else u.username
    ensures r.bio == if bio.Some? then Some(Trim(bio.value)) else u.bio
    ensures r.avatarUrl == if avatarUrl.Some? && Trim(avatarUrl.value) != [] then Trim(avatarUrl.value) else u.avatarUrl
  {
    Edited(u, username, bio, avatarUrl).(lastActiveAt := now)
  }

  /** Applying the same patch twice is applying it once: every stored value is already
      trimmed. */
  lemma PatchIdempotent(u: User, username: Option<string>, bio: Option<string>, avatarUrl: Option<string>, now: int)
    ensures Patched(Patched(u, username, bio, avatarUrl, now), username, bio, avatarUrl, now) == Patched(u, username, bio, avatarUrl, now)
  {
    if username.Some? { TrimIdempotent(username.value); }
    if bio.Some? { TrimIdempotent(bio.value); }
    if avatarUrl.Some? { TrimIdempotent(avatarUrl.value); }
  }

  class Store {
    var db: Db
    var rateState: RateState
    var counters: Counters
    const rankingRollups: seq<RankingRollup>

    ghost predicate Valid()
      reads this
    {
      Invariant(db, counters) && HistoryBounded(rateState.voteHistory)
    }

    /** The store seeded from any initial state that satisfies the invariant. */
    constructor(init: Db, rate: RateState, initCounters: Counters, rollups: seq<RankingRollup>)
      requires Invariant(init, initCounters) && HistoryBounded(rate.voteHistory)
      ensures db == init && rateState == rate && counters == initCounters && rankingRollups == rollups
      ensures Valid()
    {
      db, rateState, counters, rankingRollups := init, rate, initCounters, rollups;
    }

    /** `nextId`: bump the prefix's counter and mint the id from its new value. */
    method NextId(prefix: IdPrefix) returns (id: Id)
      requires Valid()
      modifies this
      ensures id == Id(prefix, old(counters.Of(prefix)) + 1)
      ensures counters == old(counters.Bump(prefix))
      ensures db == old(db) && rateState == old(rateState)
      ensures Valid()
    {
      MintKeepsInvariant(db, counters, prefix);
      counters := counters.Bump(prefix);
      id := Id(prefix, counters.Of(prefix));
    }

    /** `pushNotification`: append an unread notification with a fresh id. */
    method PushNotification(userId: Id, kind: NotificationType, payload: Payload, now: int)
      requires Valid()
      modifies this
      ensures db == old(db).(notifications := old(db.notifications) +
        [Notification(Id(NotificationPrefix, old(counters.notification) + 1), userId, kind, payload, false, now)])
      ensures counters == old(counters).(notification := old(counters.notification) + 1)
      ensures rateState == old(rateState)
      ensures Valid()
    {
      var id := NextId(NotificationPrefix);
      db := db.(notifications := db.notifications + [Notification(id, userId, kind, payload, false, now)]);
    }

    /** `touchUser`: stamp the first user with that id as active now, if there is one. */
    method TouchUser(userId: Id, now: int)
      requires Valid()
      modifies this
      ensures FindUser(old(db.users), Some(userId)).None? ==> db == old(db)
      ensures FindUser(old(db.users), Some(userId)).Some? ==>
        var k := FindUser(old(db.users), Some(userId)).value;
        db == old(db).(users := old(db.users)[k := old(db.users)[k].(lastActiveAt := now)])
      ensures rateState == old(rateState) && counters == old(counters)
      ensures Valid()
    {
      match FindUser(db.users, Some(userId))
      case None =>
      case Some(k) =>
        SetUserKeepsInvariant(db, counters, k, db.users[k].(lastActiveAt := now));
        db := db.(users := db.users[k := db.users[k].(lastActiveAt := now)]);
    }

    /** `enforceVoteRateLimit`: refuse when a window is full; otherwise store the stamps younger
        than a day plus `now`. */
    method EnforceVoteRateLimit(userId: Id, now: int) returns (err: Option<Error>)
      requires Valid()
      modifies this
      ensures err == VoteLimitError(HistoryOf(old(rateState.voteHistory), userId), now)
      ensures err.Some? ==> rateState == old(rateState)
      ensures err.None? ==> rateState == old(rateState).(voteHistory :=
        old(rateState.voteHistory)[userId := RecordedVotes(HistoryOf(old(rateState.voteHistory), userId), now)])
      ensures db == old(db) && counters == old(counters)
      ensures Valid()
    {
      var stamps := HistoryOf(rateState.voteHistory, userId);
      err := VoteLimitError(stamps, now);
      if err.None? {
        AcceptedHistoryBounded(stamps, now);
        rateState := rateState.(voteHistory := rateState.voteHistory[userId := RecordedVotes(stamps, now)]);
      }
    }

    /** Replace chapter k by a record with the same identity, status agreement and counts. */
    method SetChapter(k: nat, c: Chapter)
      requires Valid() && k < |db.chapters|
      requires c.id == db.chapters[k].id && StatusAgrees(c)
      requires c.pageCount == db.chapters[k].pageCount && c.commentCount == db.chapters[k].commentCount
      requires c.reactionCount == db.chapters[k].reactionCount
      modifies this
      ensures db == old(db).(chapters := old(db.chapters)[k := c])
      ensures rateState == old(rateState) && counters == old(counters)
      ensures Valid()
    {
      SetChapterKeepsInvariant(db, counters, k, c);
      db := db.(chapters := db.chapters[k := c]);
    }

    // ----- chapter lifecycle -----

    /** The write `createChapterDraft` makes once its checks pass. */
    method InsertChapter(seriesId: Id, creatorId: Id, chapterNumber: int, title: Option<string>, notes: Option<string>,
                         now: int) returns (draft: Chapter)
      requires Valid()
      modifies this
      ensures draft == Chapter(Id(ChapterPrefix, old(counters.chapter) + 1), seriesId, creatorId, chapterNumber,
                              title, notes, Draft, None, now, now, 0, 0, 0, 0)
      ensures db == old(db).(chapters := old(db.chapters) + [draft])
      ensures counters == old(counters).(chapter := old(counters.chapter) + 1)
      ensures rateState == old(rateState)
      ensures Valid()
    {
      ghost var counters0 := counters;
      var id := NextId(ChapterPrefix);
      draft := Chapter(id, seriesId, creatorId, chapterNumber, title, notes, Draft, None, now, now, 0, 0, 0, 0);
      AddChapterKeepsInvariant(db, counters0, draft);
      db := db.(chapters := db.chapters + [draft]);
    }

    /** `createChapterDraft`: the owner of a series opens a DRAFT chapter with no pages and no
        publish time. */
    method CreateChapterDraft(userId: Option<Id>, seriesId: Id, chapterNumber: int, title: Option<string>,
                              notes: Option<string>, now: int) returns (r: Result<Chapter>)
      requires Valid()
      modifies this
      ensures AssertAuthed(old(db.users), userId).Fail? ==> r == Err(AssertAuthed(old(db.users), userId).error)
      ensures AssertAuthed(old(db.users), userId).Pass? && !EnsureCreatorOwnsSeries(old(db.series), userId.value, seriesId) ==>
        r == Err(CannotCreateDrafts)
      ensures r.Err? <==> AssertAuthed(old(db.users), userId).Fail? || !EnsureCreatorOwnsSeries(old(db.series), userId.value, seriesId)
      ensures r.Err? ==> db == old(db) && counters == old(counters)
      ensures r.Ok? ==>
        && AssertAuthed(old(db.users), userId).Pass? && EnsureCreatorOwnsSeries(old(db.series), userId.value, seriesId)
        && r.value == Chapter(Id(ChapterPrefix, old(counters.chapter) + 1), seriesId, userId.value, chapterNumber,
                              title, notes, Draft, None, now, now, 0, 0, 0, 0)
        && db == old(db).(chapters := old(db.chapters) + [r.value])
        && counters == old(counters).(chapter := old(counters.chapter) + 1)
      ensures rateState == old(rateState)
      ensures Valid()
    {
      var guard := AssertAuthed(db.users, userId);
      if guard.Fail? {
        return Err(guard.error);
      }
      if !EnsureCreatorOwnsSeries(db.series, userId.value, seriesId) {
        return Err(CannotCreateDrafts);
      }
      var draft := InsertChapter(seriesId, userId.value, chapterNumber, title, notes, now);
      r := Ok(draft);
    }

    /** The write `addPageToDraft` makes once its checks pass: a page with a fresh id goes to the
        end of `db.pages`, and chapter k counts one more page and is stamped `now`. */
    method InsertPage(k: nat, pageNumber: int, imageUrl: string, now: int) returns (page: Page)
      requires Valid() && k < |db.chapters| && pageNumber > 0
      modifies this
      ensures var c := old(db.chapters)[k];
        && page == Page(Id(PagePrefix, old(counters.page) + 1), c.id, c.seriesId, pageNumber, imageUrl, now)
        && db == old(db).(pages := old(db.pages) + [page],
                          chapters := old(db.chapters)[k := c.(pageCount := c.pageCount + 1, updatedAt := now)])
        && counters == old(counters).(page := old(counters.page) + 1)
      ensures rateState == old(rateState)
      ensures Valid()
    {
      var chapter := db.chapters[k];
      ghost var counters0 := counters;
      var id := NextId(PagePrefix);
      page := Page(id, chapter.id, chapter.seriesId, pageNumber, imageUrl, now);
      AddPageKeepsInvariant(db, counters0, k, page, now);
      db := db.(pages := db.pages + [page],
                chapters := db.chapters[k := chapter.(pageCount := chapter.pageCount + 1, updatedAt := now)]);
    }

    /** `addPageToDraft`: append page number n + 1 to a DRAFT chapter of n pages (n < 80) and
        raise its `pageCount` by one; no other page changes. */
    method AddPageToDraft(userId: Option<Id>, chapterId: Id, imageUrl: string, now: int) returns (r: Result<Page>)
      requires Valid()
      modifies this
      ensures r.Err? <==> AddPageRefusal(old(db.users), old(db.chapters), old(db.pages), userId, chapterId).Some?
      ensures r.Err? ==> r.error == AddPageRefusal(old(db.users), old(db.chapters), old(db.pages), userId, chapterId).value
      ensures r.Err? ==> db == old(db) && counters == old(counters)
      ensures r.Ok? ==>
        var k := ChapterIndex(old(db.chapters), chapterId).value;
        var c := old(db.chapters)[k];
        && r.value == Page(Id(PagePrefix, old(counters.page) + 1), chapterId, c.seriesId,
                           PageCount(old(db.pages), chapterId) + 1, imageUrl, now)
        && db == old(db).(pages := old(db.pages) + [r.value],
                          chapters := old(db.chapters)[k := c.(pageCount := c.pageCount + 1, updatedAt := now)])
        && counters == old(counters).(page := old(counters.page) + 1)
      ensures rateState == old(rateState)
      ensures Valid()
    {
      var refusal := AddPageRefusal(db.users, db.chapters, db.pages, userId, chapterId);
      if refusal.Some? {
        return Err(refusal.value);
      }
      var k := ChapterIndex(db.chapters, chapterId).value;
      var chapterPages := ChapterPages(db.chapters, db.pages, chapterId);
      var page := InsertPage(k, |chapterPages| + 1, imageUrl, now);
      r := Ok(page);
    }

    /** The forEach of `reorderDraftPages`: for each entry of order, in order, the chapter
        page with that id (looked up among the pages listed before the loop) gets the entry's
        1-based position as its number. */
    method RenumberPages(chapterId: Id, order: seq<Id>)
      requires Valid()
      modifies this
      ensures db == old(db).(pages := ReorderedPages(old(db.pages), chapterId, order))
      ensures rateState == old(rateState) && counters == old(counters)
      ensures Valid()
    {
      var ps := RenumberListed(db.pages, chapterId, order);
      RenumberKeepsInvariant(db, counters, chapterId, order);
      db := db.(pages := ps);
    }

    /** `reorderDraftPages`: renumber a DRAFT chapter's pages 1..n in the order given and
        return its page list. */
    method ReorderDraftPages(userId: Option<Id>, chapterId: Id, newOrder: seq<Id>, now: int) returns (r: Result<seq<Page>>)
      requires Valid()
      modifies this
      ensures r.Err? <==> ReorderRefusal(old(db.users), old(db.chapters), old(db.pages), userId, chapterId, newOrder).Some?
      ensures r.Err? ==> r.error == ReorderRefusal(old(db.users), old(db.chapters), old(db.pages), userId, chapterId, newOrder).value
      ensures r.Err? ==> db == old(db)
      ensures r.Ok? ==>
        var k := ChapterIndex(old(db.chapters), chapterId).value;
        && db == old(db).(pages := ReorderedPages(old(db.pages), chapterId, newOrder),
                          chapters := old(db.chapters)[k := old(db.chapters)[k].(updatedAt := now)])
        && r.value == ChapterPages(db.chapters, db.pages, chapterId)
      ensures rateState == old(rateState) && counters == old(counters)
      ensures Valid()
    {
      var refusal := ReorderRefusal(db.users, db.chapters, db.pages, userId, chapterId, newOrder);
      if refusal.Some? {
        return Err(refusal.value);
      }
      var k := ChapterIndex(db.chapters, chapterId).value;
      RenumberPages(chapterId, newOrder);
      SetChapter(k, db.chapters[k].(updatedAt := now));
      r := Ok(ChapterPages(db.chapters, db.pages, chapterId));
    }

    /** The follower loop of `publishChapter`: one notification per follower, in order. */
    method NotifyFollowers(followers: seq<Follow>, chapter: Chapter, now: int)
      requires Valid()
      modifies this
      ensures db == old(db).(notifications := old(db.notifications) +
        FanOut(followers, chapter, old(counters.notification), now))
      ensures counters == old(counters).(notification := old(counters.notification) + |followers|)
      ensures rateState == old(rateState)
      ensures Valid()
    {
      var i := 0;
      while i < |followers|
        invariant 0 <= i <= |followers|
        invariant Valid()
        invariant db == old(db).(notifications := old(db.notifications) +
          FanOut(followers[..i], chapter, old(counters.notification), now))
        invariant counters == old(counters).(notification := old(counters.notification) + i)
        invariant rateState == old(rateState)
      {
        assert followers[..i + 1][..i] == followers[..i];
        PushNotification(followers[i].followerId, FollowedCreatorNewChapter,
          ChapterPayload(chapter.id, chapter.seriesId, chapter.creatorId), now);
        i := i + 1;
      }
      assert followers[..i] == followers;
    }

    /** `publishChapter`: a DRAFT chapter with at least one page becomes PUBLISHED at `now`,
        and each follower of its creator is notified. */
    method PublishChapter(userId: Option<Id>, chapterId: Id, now: int) returns (r: Result<Chapter>)
      requires Valid()
      modifies this
      ensures var refusal := PublishRefusal(old(db.users), old(db.chapters), old(db.pages), userId, chapterId);
        refusal.Some? ==> r == Err(refusal.value) && db == old(db) && counters == old(counters)
      ensures PublishRefusal(old(db.users), old(db.chapters), old(db.pages), userId, chapterId).None? ==>
        var k := ChapterIndex(old(db.chapters), chapterId).value;
        var published := PublishedChapter(old(db.chapters)[k], |ChapterPages(old(db.chapters), old(db.pages), chapterId)|, now);
        var followers := FollowersOf(old(db.follows), old(db.chapters)[k].creatorId);
        && r == Ok(published)
        && db == old(db).(chapters := db.chapters, notifications := db.notifications)
        && db.chapters == old(db.chapters)[k := published]
        && db.notifications == old(db.notifications) + FanOut(followers, published, old(counters.notification), now)
        && counters == old(counters).(notification := old(counters.notification) + |followers|)
      ensures rateState == old(rateState)
      ensures Valid()
    {
      var refusal := PublishRefusal(db.users, db.chapters, db.pages, userId, chapterId);
      if refusal.Some? {
        r := Err(refusal.value);
      } else {
        var k := ChapterIndex(db.chapters, chapterId).value;
        var published := Announce(k, |ChapterPages(db.chapters, db.pages, chapterId)|, now);
        r := Ok(published);
      }
    }

    /** The writes `publishChapter` makes once its checks pass: chapter k becomes PUBLISHED
        with its listed page count, then every follower of its creator is notified. */
    method Announce(k: nat, pageCount: nat, now: int) returns (published: Chapter)
      requires Valid() && k < |db.chapters| && pageCount == db.chapters[k].pageCount
      modifies this
      ensures published == PublishedChapter(old(db.chapters)[k], pageCount, now)
      ensures var followers := FollowersOf(old(db.follows), old(db.chapters)[k].creatorId);
        && db == old(db).(chapters := old(db.chapters)[k := published],
                          notifications := old(db.notifications) + FanOut(followers, published, old(counters.notification), now))
        && counters == old(counters).(notification := old(counters.notification) + |followers|)
      ensures rateState == old(rateState)
      ensures Valid()
    {
      published := PublishedChapter(db.chapters[k], pageCount, now);
      SetChapter(k, published);
      var followers := FollowersOf(db.follows, db.chapters[k].creatorId);
      NotifyFollowers(followers, published, now);
    }

    /** `unpublishChapter`: a PUBLISHED chapter nobody has engaged with returns to DRAFT. */
    method UnpublishChapter(userId: Option<Id>, chapterId: Id, now: int) returns (r: Result<Chapter>)
      requires Valid()
      modifies this
      ensures r.Err? <==> UnpublishRefusal(old(db.users), old(db.chapters), old(db.comments), old(db.reactions), userId, chapterId).Some?
      ensures r.Err? ==>
        r.error == UnpublishRefusal(old(db.users), old(db.chapters), old(db.comments), old(db.reactions), userId, chapterId).value
      ensures r.Err? ==> db == old(db)
      ensures r.Ok? ==>
        var k := ChapterIndex(old(db.chapters), chapterId).value;
        && r.value == UnpublishedChapter(old(db.chapters)[k], now)
        && db == old(db).(chapters := old(db.chapters)[k := r.value])
      ensures rateState == old(rateState) && counters == old(counters)
      ensures Valid()
    {
      var refusal := UnpublishRefusal(db.users, db.chapters, db.comments, db.reactions, userId, chapterId);
      if refusal.Some? {
        return Err(refusal.value);
      }
      var k := ChapterIndex(db.chapters, chapterId).value;
      var draft := UnpublishedChapter(db.chapters[k], now);
      SetChapter(k, draft);
      r := Ok(draft);
    }

    /** `replacePublishedPageImage`: swap the image of a published chapter's page in place. */
    method ReplacePublishedPageImage(userId: Option<Id>, chapterId: Id, pageNumber: int, imageUrl: string, now: int)
      returns (r: Result<Page>)
      requires Valid()
      modifies this
      ensures var refusal := ReplaceImageRefusal(old(db.users), old(db.chapters), old(db.pages), userId, chapterId, pageNumber);
        refusal.Some? ==> r == Err(refusal.value) && db == old(db)
      ensures ReplaceImageRefusal(old(db.users), old(db.chapters), old(db.pages), userId, chapterId, pageNumber).None? ==>
        var k := ChapterIndex(old(db.chapters), chapterId).value;
        var s := PageSlot(old(db.pages), chapterId, pageNumber).value;
        var page := old(db.pages)[s].(imageUrl := imageUrl);
        && r == Ok(page)
        && db == old(db).(pages := old(db.pages)[s := page],
                          chapters := old(db.chapters)[k := old(db.chapters)[k].(updatedAt := now)])
      ensures rateState == old(rateState) && counters == old(counters)
      ensures Valid()
    {
      var refusal := ReplaceImageRefusal(db.users, db.chapters, db.pages, userId, chapterId, pageNumber);
      if refusal.Some? {
        return Err(refusal.value);
      }
      var k := ChapterIndex(db.chapters, chapterId).value;
      var s := PageSlot(db.pages, chapterId, pageNumber).value;
      var page := SetPageImage(k, s, imageUrl, now);
      r := Ok(page);
    }

    /** The write `replacePublishedPageImage` makes once its checks pass. */
    method SetPageImage(k: nat, s: nat, imageUrl: string, now: int) returns (page: Page)
      requires Valid() && k < |db.chapters| && s < |db.pages|
      modifies this
      ensures page == old(db.pages)[s].(imageUrl := imageUrl)
      ensures db == old(db).(pages := old(db.pages)[s := old(db.pages)[s].(imageUrl := imageUrl)],
                             chapters := old(db.chapters)[k := old(db.chapters)[k].(updatedAt := now)])
      ensures rateState == old(rateState) && counters == old(counters)
      ensures Valid()
    {
      page := db.pages[s].(imageUrl := imageUrl);
      SetImageKeepsInvariant(db, counters, s, imageUrl);
      db := db.(pages := db.pages[s := page]);
      SetChapter(k, db.chapters[k].(updatedAt := now));
    }

    // ----- engagement -----

    /** The write `addComment` makes once its checks pass. */
    method InsertComment(k: nat, pageNumber: int, authorId: Id, parentCommentId: ParentRef, body: string, now: int)
      returns (comment: Comment)
      requires Valid() && k < |db.chapters|
      modifies this
      ensures var c := old(db.chapters)[k];
        && comment == Comment(Id(CommentPrefix, old(counters.comment) + 1), c.id, c.seriesId, pageNumber, authorId,
                              parentCommentId, body, now, false, false, 0, 0, 0)
        && db == old(db).(comments := old(db.comments) + [comment],
                          chapters := old(db.chapters)[k := c.(commentCount := c.commentCount + 1)])
        && counters == old(counters).(comment := old(counters.comment) + 1)
      ensures rateState == old(rateState).(lastCommentAt := old(rateState.lastCommentAt)[authorId := now])
      ensures Valid()
    {
      var chapter := db.chapters[k];
      ghost var counters0 := counters;
      var id := NextId(CommentPrefix);
      comment := Comment(id, chapter.id, chapter.seriesId, pageNumber, authorId, parentCommentId, body, now, false, false, 0, 0, 0);
      AddCommentKeepsInvariant(db, counters0, k, comment);
      db := db.(comments := db.comments + [comment], chapters := db.chapters[k := chapter.(commentCount := chapter.commentCount + 1)]);
      rateState := rateState.(lastCommentAt := rateState.lastCommentAt[authorId := now]);
    }

    /** The comment write plus the reply notice: the parent (looked up after the append) is
        notified when its author is someone else. */
    method PostComment(k: nat, pageNumber: int, authorId: Id, parentCommentId: ParentRef, body: string, now: int)
      returns (comment: Comment)
      requires Valid() && k < |db.chapters|
      modifies this
      ensures var c := old(db.chapters)[k];
        var posted := Comment(Id(CommentPrefix, old(counters.comment) + 1), c.id, c.seriesId, pageNumber, authorId,
                              parentCommentId, body, now, false, false, 0, 0, 0);
        var db1 := old(db).(comments := old(db.comments) + [posted],
                            chapters := old(db.chapters)[k := c.(commentCount := c.commentCount + 1)]);
        var counters1 := old(counters).(comment := old(counters.comment) + 1);
        && comment == posted
        && rateState == old(rateState).(lastCommentAt := old(rateState.lastCommentAt)[authorId := now])
        && match ReplyRecipient(old(db.comments) + [posted], parentCommentId, authorId)
           case None => db == db1 && counters == counters1
           case Some(recipient) =>
             && db == db1.(notifications := old(db.notifications) +
                  [Notification(Id(NotificationPrefix, old(counters.notification) + 1), recipient, Reply,
                                ReplyPayload(c.id, pageNumber, posted.id), false, now)])
             && counters == counters1.(notification := old(counters.notification) + 1)
      ensures Valid()
    {
      var comments0 := db.comments;
      comment := InsertComment(k, pageNumber, authorId, parentCommentId, body, now);
      match ReplyRecipient(comments0 + [comment], parentCommentId, authorId) {
        case None =>
        case Some(recipient) =>
          PushNotification(recipient, Reply, ReplyPayload(db.chapters[k].id, pageNumber, comment.id), now);
      }
    }

    /** `addComment`: a signed-in reader comments on a page of a published chapter, at most
        once per cooldown; the body is stored trimmed, and the parent's author (if someone else)
        is notified. */
    method AddComment(userId: Option<Id>, chapterId: Id, pageNumber: int, body: string, parentCommentId: ParentRef, now: int)
      returns (r: Result<Comment>)
      requires Valid()
      modifies this
      ensures var refusal := CommentRefusal(old(db.users), old(db.chapters), old(rateState.lastCommentAt), userId, chapterId, body, now);
        refusal.Some? ==> r == Err(refusal.value) && db == old(db) && counters == old(counters) && rateState == old(rateState)
      ensures CommentRefusal(old(db.users), old(db.chapters), old(rateState.lastCommentAt), userId, chapterId, body, now).None? ==>
        var k := ChapterIndex(old(db.chapters), chapterId).value;
        var c := old(db.chapters)[k];
        var posted := Comment(Id(CommentPrefix, old(counters.comment) + 1), c.id, c.seriesId, pageNumber, userId.value,
                              parentCommentId, Trim(body), now, false, false, 0, 0, 0);
        var db1 := old(db).(comments := old(db.comments) + [posted],
                            chapters := old(db.chapters)[k := c.(commentCount := c.commentCount + 1)]);
        var counters1 := old(counters).(comment := old(counters.comment) + 1);
        && r == Ok(posted)
        && rateState == old(rateState).(lastCommentAt := old(rateState.lastCommentAt)[userId.value := now])
        && match ReplyRecipient(old(db.comments) + [posted], parentCommentId, userId.value)
           case None => db == db1 && counters == counters1
           case Some(recipient) =>
             && db == db1.(notifications := old(db.notifications) +
                  [Notification(Id(NotificationPrefix, old(counters.notification) + 1), recipient, Reply,
                                ReplyPayload(chapterId, pageNumber, posted.id), false, now)])
             && counters == counters1.(notification := old(counters.notification) + 1)
      ensures Valid()
    {
      var refusal := CommentRefusal(db.users, db.chapters, rateState.lastCommentAt, userId, chapterId, body, now);
      if refusal.Some? {
        return Err(refusal.value);
      }
      var k := ChapterIndex(db.chapters, chapterId).value;
      var comment := PostComment(k, pageNumber, userId.value, parentCommentId, Trim(body), now);
      r := Ok(comment);
    }

    /** The write of a first vote: a vote record with a fresh id, and the comment retallied. */
    method InsertVote(k: nat, voterId: Id, value: VoteValue, now: int) returns (c: Comment)
      requires Valid() && k < |db.comments|
      requires VoteSlot(db.commentVotes, db.comments[k].id, voterId).None?
      modifies this
      ensures c == Retallied(old(db.comments)[k], None, value)
      ensures db == old(db).(comments := old(db.comments)[k := c], commentVotes := old(db.commentVotes) +
        [CommentVote(Id(VotePrefix, old(counters.vote) + 1), old(db.comments)[k].id, voterId, value, now)])
      ensures counters == old(counters).(vote := old(counters.vote) + 1)
      ensures rateState == old(rateState)
      ensures Valid()
    {
      ghost var counters0 := counters;
      var id := NextId(VotePrefix);
      var vote := CommentVote(id, db.comments[k].id, voterId, value, now);
      c := Retallied(db.comments[k], None, value);
      FirstVoteKeepsInvariant(db, counters0, k, vote);
      db := db.(comments := db.comments[k := c], commentVotes := db.commentVotes + [vote]);
    }

    /** The write of a changed vote: the stored vote takes the new value and time, and the
        comment is retallied. */
    method SwitchVote(k: nat, s: nat, value: VoteValue, now: int) returns (c: Comment)
      requires Valid() && k < |db.comments| && s < |db.commentVotes|
      requires db.commentVotes[s].commentId == db.comments[k].id && db.commentVotes[s].value != value
      modifies this
      ensures c == Retallied(old(db.comments)[k], Some(old(db.commentVotes)[s].value), value)
      ensures db == old(db).(comments := old(db.comments)[k := c],
        commentVotes := old(db.commentVotes)[s := old(db.commentVotes)[s].(value := value, createdAt := now)])
      ensures rateState == old(rateState) && counters == old(counters)
      ensures Valid()
    {
      c := Retallied(db.comments[k], Some(db.commentVotes[s].value), value);
      SwitchVoteKeepsInvariant(db, counters, k, s, value, now);
      db := db.(comments := db.comments[k := c],
                commentVotes := db.commentVotes[s := db.commentVotes[s].(value := value, createdAt := now)]);
    }

    /** `voteComment`: one vote per (voter, comment); repeating the vote changes nothing,
        switching it moves one unit between the tallies, and the score is up minus down. The
        rate limiter records the attempt before the comment is looked up. */
    method VoteComment(userId: Option<Id>, commentId: Id, value: VoteValue, now: int) returns (r: Result<Comment>)
      requires Valid()
      modifies this
      ensures AssertAuthed(old(db.users), userId).Fail? ==>
        r == Err(AssertAuthed(old(db.users), userId).error) && db == old(db) && counters == old(counters) && rateState == old(rateState)
      ensures AssertAuthed(old(db.users), userId).Pass? ==>
        var limit := VoteLimitError(HistoryOf(old(rateState.voteHistory), userId.value), now);
        && (limit.Some? ==> r == Err(limit.value) && db == old(db) && counters == old(counters) && rateState == old(rateState))
        && (limit.None? ==> rateState == old(rateState).(voteHistory := old(rateState.voteHistory)[userId.value :=
              RecordedVotes(HistoryOf(old(rateState.voteHistory), userId.value), now)]))
      ensures (&& AssertAuthed(old(db.users), userId).Pass?
               && VoteLimitError(HistoryOf(old(rateState.voteHistory), userId.value), now).None?) ==>
        var refusal := VoteTargetRefusal(old(db.comments), old(db.chapters), commentId);
        refusal.Some? ==> r == Err(refusal.value) && db == old(db) && counters == old(counters)
      ensures (&& AssertAuthed(old(db.users), userId).Pass?
               && VoteLimitError(HistoryOf(old(rateState.voteHistory), userId.value), now).None?
               && VoteTargetRefusal(old(db.comments), old(db.chapters), commentId).None?) ==>
        var k := LiveCommentSlot(old(db.comments), commentId).value;
        var target := old(db.comments)[k];
        match VoteSlot(old(db.commentVotes), commentId, userId.value)
        case Some(s) =>
          if old(db.commentVotes)[s].value == value then r == Ok(target) && db == old(db) && counters == old(counters)
          else
            var c := Retallied(target, Some(old(db.commentVotes)[s].value), value);
            && r == Ok(c)
            && db == old(db).(comments := old(db.comments)[k := c],
                 commentVotes := old(db.commentVotes)[s := old(db.commentVotes)[s].(value := value, createdAt := now)])
            && counters == old(counters)
        case None =>
          var c := Retallied(target, None, value);
          && r == Ok(c)
          && db == old(db).(comments := old(db.comments)[k := c], commentVotes := old(db.commentVotes) +
               [CommentVote(Id(VotePrefix, old(counters.vote) + 1), commentId, userId.value, value, now)])
          && counters == old(counters).(vote := old(counters.vote) + 1)
      ensures Valid()
    {
      var guard := AssertAuthed(db.users, userId);
      if guard.Fail? {
        return Err(guard.error);
      }
      var limit := EnforceVoteRateLimit(userId.value, now);
      if limit.Some? {
        return Err(limit.value);
      }
      var refusal := VoteTargetRefusal(db.comments, db.chapters, commentId);
      if refusal.Some? {
        return Err(refusal.value);
      }
      var k := LiveCommentSlot(db.comments, commentId).value;
      var c := CastVote(k, commentId, userId.value, value, now);
      r := Ok(c);
    }

    /** The vote write of `voteComment` on comment k: nothing on a repeated vote, a switch of
        the stored vote, or a first vote with a fresh id. */
    method CastVote(k: nat, commentId: Id, voterId: Id, value: VoteValue, now: int) returns (c: Comment)
      requires Valid() && k < |db.comments| && db.comments[k].id == commentId
      modifies this
      ensures var target := old(db.comments)[k];
        match VoteSlot(old(db.commentVotes), commentId, voterId)
        case Some(s) =>
          if old(db.commentVotes)[s].value == value then c == target && db == old(db) && counters == old(counters)
          else
            && c == Retallied(target, Some(old(db.commentVotes)[s].value), value)
            && db == old(db).(comments := old(db.comments)[k := c],
                 commentVotes := old(db.commentVotes)[s := old(db.commentVotes)[s].(value := value, createdAt := now)])
            && counters == old(counters)
        case None =>
          && c == Retallied(target, None, value)
          && db == old(db).(comments := old(db.comments)[k := c], commentVotes := old(db.commentVotes) +
               [CommentVote(Id(VotePrefix, old(counters.vote) + 1), commentId, voterId, value, now)])
          && counters == old(counters).(vote := old(counters.vote) + 1)
      ensures rateState == old(rateState)
      ensures Valid()
    {
      match VoteSlot(db.commentVotes, commentId, voterId) {
        case Some(s) =>
          if db.commentVotes[s].value == value {
            c := db.comments[k];
          } else {
            c := SwitchVote(k, s, value, now);
          }
        case None =>
          c := InsertVote(k, voterId, value, now);
      }
    }

    /** `addReaction`: a signed-in reader reacts on a page of a published chapter, at most once
        per cooldown. */
    method AddReaction(userId: Option<Id>, chapterId: Id, pageNumber: int, emoji: string, now: int) returns (r: Result<Reaction>)
      requires Valid()
      modifies this
      ensures var refusal := ReactionRefusal(old(db.users), old(db.chapters), old(rateState.lastReactionAt), userId, chapterId, now);
        refusal.Some? ==> r == Err(refusal.value) && db == old(db) && counters == old(counters) && rateState == old(rateState)
      ensures ReactionRefusal(old(db.users), old(db.chapters), old(rateState.lastReactionAt), userId, chapterId, now).None? ==>
        var k := ChapterIndex(old(db.chapters), chapterId).value;
        var c := old(db.chapters)[k];
        var reaction := Reaction(Id(ReactionPrefix, old(counters.reaction) + 1), c.id, c.seriesId, pageNumber, userId.value, emoji, now);
        && r == Ok(reaction)
        && db == old(db).(reactions := old(db.reactions) + [reaction],
                          chapters := old(db.chapters)[k := c.(reactionCount := c.reactionCount + 1)])
        && counters == old(counters).(reaction := old(counters.reaction) + 1)
        && rateState == old(rateState).(lastReactionAt := old(rateState.lastReactionAt)[userId.value := now])
      ensures Valid()
    {
      var refusal := ReactionRefusal(db.users, db.chapters, rateState.lastReactionAt, userId, chapterId, now);
      if refusal.Some? {
        return Err(refusal.value);
      }
      var k := ChapterIndex(db.chapters, chapterId).value;
      var reaction := InsertReaction(k, pageNumber, userId.value, emoji, now);
      r := Ok(reaction);
    }

    /** The write `addReaction` makes once its checks pass. */
    method InsertReaction(k: nat, pageNumber: int, userId: Id, emoji: string, now: int) returns (reaction: Reaction)
      requires Valid() && k < |db.chapters|
      modifies this
      ensures var c := old(db.chapters)[k];
        && reaction == Reaction(Id(ReactionPrefix, old(counters.reaction) + 1), c.id, c.seriesId, pageNumber, userId, emoji, now)
        && db == old(db).(reactions := old(db.reactions) + [reaction],
                          chapters := old(db.chapters)[k := c.(reactionCount := c.reactionCount + 1)])
        && counters == old(counters).(reaction := old(counters.reaction) + 1)
      ensures rateState == old(rateState).(lastReactionAt := old(rateState.lastReactionAt)[userId := now])
      ensures Valid()
    {
      var chapter := db.chapters[k];
      ghost var counters0 := counters;
      var id := NextId(ReactionPrefix);
      reaction := Reaction(id, chapter.id, chapter.seriesId, pageNumber, userId, emoji, now);
      AddReactionKeepsInvariant(db, counters0, k, reaction);
      db := db.(reactions := db.reactions + [reaction],
                chapters := db.chapters[k := chapter.(reactionCount := chapter.reactionCount + 1)]);
      rateState := rateState.(lastReactionAt := rateState.lastReactionAt[userId := now]);
    }

    /** `followCreator`: add the follow edge unless it is already there, in which case the
        stored edge is returned and nothing changes. */
    method FollowCreator(userId: Option<Id>, creatorId: Id, now: int) returns (r: Result<Follow>)
      requires Valid()
      modifies this
      ensures r.Err? <==> FollowRefusal(old(db.users), userId, creatorId).Some?
      ensures r.Err? ==> r.error == FollowRefusal(old(db.users), userId, creatorId).value
      ensures r.Ok? && FollowSlot(old(db.follows), userId.value, creatorId).Some? ==>
        r.value == old(db.follows)[FollowSlot(old(db.follows), userId.value, creatorId).value]
      ensures r.Ok? && FollowSlot(old(db.follows), userId.value, creatorId).None? ==>
        && r.value == Follow(Id(FollowPrefix, old(counters.follow) + 1), userId.value, creatorId, now)
        && db == old(db).(follows := old(db.follows) + [r.value])
        && counters == old(counters).(follow := old(counters.follow) + 1)
      ensures r.Err? || FollowSlot(old(db.follows), userId.value, creatorId).Some? ==>
        db == old(db) && counters == old(counters)
      ensures rateState == old(rateState)
      ensures Valid()
    {
      var refusal := FollowRefusal(db.users, userId, creatorId);
      if refusal.Some? {
        return Err(refusal.value);
      }
      match FollowSlot(db.follows, userId.value, creatorId)
      case Some(s) =>
        r := Ok(db.follows[s]);
      case None =>
        var id := NextId(FollowPrefix);
        var follow := Follow(id, userId.value, creatorId, now);
        FollowKeepsWellFormed(db.follows, follow);
        db := db.(follows := db.follows + [follow]);
        r := Ok(follow);
    }

    /** `unfollowCreator`: remove the (user, creator) edge if present; never refused once
        signed in. */
    method UnfollowCreator(userId: Option<Id>, creatorId: Id) returns (r: Outcome)
      requires Valid()
      modifies this
      ensures r == AssertAuthed(old(db.users), userId)
      ensures r.Pass? && FollowSlot(old(db.follows), userId.value, creatorId).Some? ==>
        db == old(db).(follows := RemoveAt(old(db.follows), FollowSlot(old(db.follows), userId.value, creatorId).value))
      ensures r.Fail? || FollowSlot(old(db.follows), userId.value, creatorId).None? ==> db == old(db)
      ensures r.Pass? ==> !HasEdge(db.follows, userId.value, creatorId)
      ensures rateState == old(rateState) && counters == old(counters)
      ensures Valid()
    {
      r := AssertAuthed(db.users, userId);
      if r.Fail? {
        return;
      }
      match FollowSlot(db.follows, userId.value, creatorId)
      case Some(s) =>
        UnfollowRemovesEdge(db.follows, userId.value, creatorId);
        db := db.(follows := RemoveAt(db.follows, s));
      case None =>
    }

    /** `reportTarget`: file an OPEN report. */
    method ReportTarget(userId: Option<Id>, targetType: ReportTargetType, targetId: Id, reason: string,
                        details: Option<string>, now: int) returns (r: Result<Report>)
      requires Valid()
      modifies this
      ensures AssertAuthed(old(db.users), userId).Fail? ==>
        r == Err(AssertAuthed(old(db.users), userId).error) && db == old(db) && counters == old(counters)
      ensures AssertAuthed(old(db.users), userId).Pass? ==>
        && r == Ok(Report(Id(ReportPrefix, old(counters.report) + 1), userId.value, targetType, targetId, reason,
                          details, now, ReportOpen))
        && db == old(db).(reports := old(db.reports) + [r.value])
        && counters == old(counters).(report := old(counters.report) + 1)
      ensures rateState == old(rateState)
      ensures Valid()
    {
      var guard := AssertAuthed(db.users, userId);
      if guard.Fail? {
        return Err(guard.error);
      }
      var id := NextId(ReportPrefix);
      var report := Report(id, userId.value, targetType, targetId, reason, details, now, ReportOpen);
      db := db.(reports := db.reports + [report]);
      r := Ok(report);
    }

    /** `markAllNotificationsRead`: mark every unread notification of the user read and
        return how many there were. */
    method MarkAllNotificationsRead(userId: Option<Id>) returns (r: Result<nat>)
      requires Valid()
      modifies this
      ensures AssertAuthed(old(db.users), userId).Fail? ==> r == Err(AssertAuthed(old(db.users), userId).error) && db == old(db)
      ensures AssertAuthed(old(db.users), userId).Pass? ==>
        && r == Ok(UnreadCount(old(db.notifications), userId.value))
        && db == old(db).(notifications := MarkedRead(old(db.notifications), userId.value))
      ensures rateState == old(rateState) && counters == old(counters)
      ensures Valid()
    {
      var guard := AssertAuthed(db.users, userId);
      if guard.Fail? {
        return Err(guard.error);
      }
      var ns, updated := MarkAllRead(db.notifications, userId.value);
      db := db.(notifications := ns);
      r := Ok(updated);
    }

    /** `updateProfile`: patch the actor's own profile; a username another user holds is
        refused and nothing changes. */
    method UpdateProfile(userId: Option<Id>, username: Option<string>, bio: Option<string>, avatarUrl: Option<string>,
                         now: int) returns (r: Result<User>)
      requires Valid()
      modifies this
      ensures AssertAuthed(old(db.users), userId).Fail? ==> r == Err(AssertAuthed(old(db.users), userId).error) && db == old(db)
      ensures AssertAuthed(old(db.users), userId).Pass? ==>
        var k := FindUser(old(db.users), userId).value;
        var taken := username.Some? && Trim(username.value) != [] && UsernameTakenBy(old(db.users), userId.value, Trim(username.value));
        && (taken ==> r == Err(UsernameTaken) && db == old(db))
        && (!taken ==>
              && r == Ok(Patched(old(db.users)[k], username, bio, avatarUrl, now))
              && db == old(db).(users := old(db.users)[k := r.value]))
      ensures rateState == old(rateState) && counters == old(counters)
      ensures Valid()
    {
      var guard := AssertAuthed(db.users, userId);
      if guard.Fail? {
        return Err(guard.error);
      }
      var k := FindUser(db.users, userId).value;
      if username.Some? && |Trim(username.value)| > 0 && UsernameTakenBy(db.users, userId.value, Trim(username.value)) {
        return Err(UsernameTaken);
      }
      var u := WriteProfile(k, Edited(db.users[k], username, bio, avatarUrl), now);
      r := Ok(u);
    }

    /** The write `updateProfile` makes once the name is free: the edited record replaces user
        k, then `touchUser` stamps it. */
    method WriteProfile(k: nat, edited: User, now: int) returns (u: User)
      requires Valid() && k < |db.users| && FindUser(db.users, Some(edited.id)) == Some(k)
      requires edited.username == db.users[k].username || !UsernameTakenBy(db.users, edited.id, edited.username)
      modifies this
      ensures u == edited.(lastActiveAt := now)
      ensures db == old(db).(users := old(db.users)[k := u])
      ensures rateState == old(rateState) && counters == old(counters)
      ensures Valid()
    {
      SetUserKeepsInvariant(db, counters, k, edited);
      FindUserAfterSet(db.users, Some(edited.id), k, edited);
      db := db.(users := db.users[k := edited]);
      TouchUser(edited.id, now);
      u := db.users[k];
    }
  }
}
