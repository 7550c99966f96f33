/** Record shapes, enumerations and limits of the engagement engine (lib/types.ts, lib/constants.ts). */
module Types {

  datatype Option<+T> = None | Some(value: T)

  /** The engine's error kinds. Most constructors stand for one of the human-readable
      messages the engine returns in `{ ok: false, error }`; `NotChapterOwner` stands for five. */
  datatype Error =
    | SignInRequired          // no actor, or an unknown actor id
    | AccountRestricted       // the actor is banned
    | CannotCreateDrafts      // actor does not own the series
    | ChapterNotFound
    | NotChapterOwner         // "You cannot edit / reorder / publish / unpublish / update this chapter."
    | PublishedCannotAddPages
    | PageLimitReached
    | OrderLockedAfterPublish
    | IncompleteOrder         // new order does not have one entry per page
    | InvalidOrder            // new order names a page that is not the chapter's
    | AlreadyPublished
    | EmptyChapter
    | AlreadyDraft
    | HasEngagement
    | OnlyPublishedReplace
    | PageNotFound
    | CommentsOnlyOnPublished
    | CommentRateLimited
    | EmptyComment
    | CommentTooLong
    | VoteMinuteLimit
    | VoteDailyLimit
    | CommentNotFound
    | VotesOnlyOnPublished
    | ReactionsOnlyOnPublished
    | ReactionThrottled
    | CannotFollowSelf
    | CreatorNotFound
    | UsernameTaken

  /** `MutationResult<T>`: either data or an error. */
  datatype Result<+T> = Ok(value: T) | Err(error: Error)

  /** The guard result `MutationResult<null>`. */
  datatype Outcome = Pass | Fail(error: Error)

  /** The key of the id counters; a minted id is `${prefix}_${n}`. */
  datatype IdPrefix =
    | SeriesPrefix | ChapterPrefix | PagePrefix | CommentPrefix | VotePrefix
    | ReactionPrefix | FollowPrefix | NotificationPrefix | ReportPrefix | UserPrefix

  /** An entity id, kept abstract: the prefix and the counter value it was minted from. */
  datatype Id = Id(prefix: IdPrefix, n: int)

  datatype ChapterStatus = Draft | Published
  datatype VoteValue = Up | Down   // the source's `1 | -1`
  datatype ThreadSort = SortTop | SortNew
  datatype HomeFeedType = TrendingFeed | NewFeed | RisingFeed | MostDiscussedFeed
  datatype RankingPeriod = Week | Month | Year | AllTime
  datatype RankingType = TrendingRanking | RisingRanking | MostDiscussedRanking | TopRatedRanking
  datatype NotificationType = NewChapter | Reply | CommentReaction | FollowedCreatorNewChapter | SystemNotice
  datatype ReportTargetType = SeriesTarget | ChapterTarget | CommentTarget | UserTarget
  datatype ReportStatus = ReportOpen | ReportReviewing | ReportClosed
  datatype Badge = NewBadge | TrendingBadge

  datatype User = User(
    id: Id, username: string, avatarUrl: string, bio: Option<string>,
    isCreator: bool, lastActiveAt: int, isBanned: bool)

  datatype Series = Series(id: Id, creatorId: Id, title: string, averageRating: real)

  datatype Chapter = Chapter(
    id: Id, seriesId: Id, creatorId: Id, chapterNumber: int,
    title: Option<string>, notes: Option<string>,
    status: ChapterStatus, publishedAt: Option<int>, createdAt: int, updatedAt: int,
    pageCount: int, commentCount: int, reactionCount: int, viewCount: int)

  datatype Page = Page(id: Id, chapterId: Id, seriesId: Id, pageNumber: int, imageUrl: string, createdAt: int)

  /** A comment's `parentCommentId`: `null`, the empty string `""` (which `addComment` stores
      as given), or an id. Only `null` makes a top-level comment and only an id makes a reply. */
  datatype ParentRef = NoParent | EmptyParent | Parent(id: Id)

  datatype Comment = Comment(
    id: Id, chapterId: Id, seriesId: Id, pageNumber: int, authorId: Id,
    parentCommentId: ParentRef, body: string, createdAt: int,
    isDeleted: bool, isPinned: bool, score: int, upvoteCount: int, downvoteCount: int)

  datatype CommentVote = CommentVote(id: Id, commentId: Id, voterId: Id, value: VoteValue, createdAt: int)

  datatype Reaction = Reaction(id: Id, chapterId: Id, seriesId: Id, pageNumber: int, userId: Id, emoji: string, createdAt: int)

  datatype Follow = Follow(id: Id, followerId: Id, creatorId: Id, createdAt: int)

  /** The structured payloads the engine itself writes; anything else came from elsewhere. */
  datatype Payload =
    | ChapterPayload(chapterId: Id, seriesId: Id, creatorId: Id)
    | ReplyPayload(replyChapterId: Id, pageNumber: int, commentId: Id)
    | OtherPayload

  datatype Notification = Notification(id: Id, userId: Id, kind: NotificationType, payload: Payload, isRead: bool, createdAt: int)

  datatype Report = Report(
    id: Id, reporterId: Id, targetType: ReportTargetType, targetId: Id,
    reason: string, details: Option<string>, createdAt: int, status: ReportStatus)

  datatype RankingItem = RankingItem(chapterId: Id, score: real, rank: int)

  datatype RankingRollup = RankingRollup(id: Id, period: RankingPeriod, kind: RankingType, items: seq<RankingItem>, computedAt: int)

  // Limits (lib/constants.ts)
  const MaxPagesPerChapter: int := 80
  const CommentMaxLength: int := 140
  const CommentCooldownMs: int := 8000
  const ReactionCooldownMs: int := 1000
  const VotesPerMinute: int := 20
  const VotesPerDay: int := 300
  const LowScoreCollapseThreshold: int := -5

  // Windows and sizes written inline in lib/api.ts
  const MinuteMs: int := 60000
  const DayMs: int := 86400000
  const HourMs: int := 3600000
  const NewBadgeWindowMs: int := 172800000   // 48 hours
  const ReactingNowWindowMs: int := 30000
  const OverlayCommentLimit: int := 12
  const OverlayReactionLimit: int := 24
  const FallbackRankingSize: int := 10
}
