/** Discovery reads: the chapter list of a series, the home feed with its four orderings and
    badges, and the rankings with their rollup lookup and fallback (lib/api.ts:141-207,
    260-263, 299-305, 420-446). Scores are exact `real` arithmetic. */
module Discovery {
  import opened Types
  import opened Seqs
  import opened Guard
  import opened Lifecycle

  // ----- chapters of a series -----

  /** `!!viewerId && ensureCreatorOwnsSeries(viewerId, seriesId)`. */
  predicate ViewerOwnsSeries(series: seq<Series>, seriesId: Id, viewerId: Option<Id>) {
    viewerId.Some? && EnsureCreatorOwnsSeries(series, viewerId.value, seriesId)
  }

  const HigherChapterNumberFirst: (Chapter, Chapter) -> bool := (a: Chapter, b: Chapter) => a.chapterNumber >= b.chapterNumber

  /** `getChaptersBySeries`: the series' chapters the viewer may see, highest number first. */
  function ChaptersBySeries(series: seq<Series>, chapters: seq<Chapter>, seriesId: Id, viewerId: Option<Id>): seq<Chapter> {
    var isOwner := ViewerOwnsSeries(series, seriesId, viewerId);
    Sort(Filter(chapters, (c: Chapter) => c.seriesId == seriesId && (c.status == Published || isOwner)), HigherChapterNumberFirst)
  }

  /** The owner of the series sees all its chapters, anyone else only the published ones,
      and the list runs from the highest chapter number down. */
  lemma ChaptersBySeriesVisible(series: seq<Series>, chapters: seq<Chapter>, seriesId: Id, viewerId: Option<Id>)
    ensures var r := ChaptersBySeries(series, chapters, seriesId, viewerId);
      && (forall c :: c in r <==>
            (c in chapters && c.seriesId == seriesId && (c.status == Published || ViewerOwnsSeries(series, seriesId, viewerId))))
      && (forall i, j :: 0 <= i < j < |r| ==> r[i].chapterNumber >= r[j].chapterNumber)
      && (forall c :: multiset(r)[c] ==
            if c.seriesId == seriesId && (c.status == Published || ViewerOwnsSeries(series, seriesId, viewerId))
            then multiset(chapters)[c] else 0)
  {
    var isOwner := ViewerOwnsSeries(series, seriesId, viewerId);
    var p := (c: Chapter) => c.seriesId == seriesId && (c.status == Published || isOwner);
    FilterMembers(chapters, p);
    SortSorted(Filter(chapters, p), HigherChapterNumberFirst);
    SortPermutes(Filter(chapters, p), HigherChapterNumberFirst);
    forall c ensures multiset(Filter(chapters, p))[c] == if p(c) then multiset(chapters)[c] else 0 {
      FilterMultiset(chapters, p, c);
    }
  }

  // ----- home feed -----

  /** `publishedAt ?? 0`. */
  function PublishedAtOrZero(c: Chapter): int {
    match c.publishedAt
    case None => 0
    case Some(t) => t
  }

  /** `chapter.publishedAt ? …`: set and non-zero. */
  predicate PublishedAtTruthy(c: Chapter) {
    c.publishedAt.Some? && c.publishedAt.value != 0
  }

  const NewestPublishedFirst: (Chapter, Chapter) -> bool := (a: Chapter, b: Chapter) => PublishedAtOrZero(a) >= PublishedAtOrZero(b)

  const MostCommentedFirst: (Chapter, Chapter) -> bool := (a: Chapter, b: Chapter) => a.commentCount >= b.commentCount

  const IsPublished: Chapter -> bool := (c: Chapter) => c.status == Published

  /** `activePublishedChapters`: the published chapters, latest `publishedAt` first. */
  function ActivePublished(chapters: seq<Chapter>): seq<Chapter> {
    Sort(Filter(chapters, IsPublished), NewestPublishedFirst)
  }

  lemma ActivePublishedIsPublished(chapters: seq<Chapter>)
    ensures var r := ActivePublished(chapters);
      && (forall c :: c in r <==> c in chapters && c.status == Published)
      && (forall i, j :: 0 <= i < j < |r| ==> PublishedAtOrZero(r[i]) >= PublishedAtOrZero(r[j]))
      && (forall c :: multiset(r)[c] == if c.status == Published then multiset(chapters)[c] else 0)
  {
    var p := IsPublished;
    FilterMembers(chapters, p);
    SortSorted(Filter(chapters, p), NewestPublishedFirst);
    SortPermutes(Filter(chapters, p), NewestPublishedFirst);
    forall c ensures multiset(Filter(chapters, p))[c] == if p(c) then multiset(chapters)[c] else 0 {
      FilterMultiset(chapters, p, c);
    }
  }

  /** `Math.max(1, (now - publishedAt) / 3_600_000)`, or 72 hours for a chapter never published. */
  function RecencyHours(c: Chapter, now: int): (h: real)
    ensures h >= 1.0
  {
    if PublishedAtTruthy(c) then
      var hours := (now - c.publishedAt.value) as real / 3600000.0;
      if hours > 1.0 then hours else 1.0
    else 72.0
  }

  function FollowerCount(follows: seq<Follow>, creatorId: Id): nat {
    |FollowersOf(follows, creatorId)|
  }

  /** `computeFeedScore`. */
  function FeedScore(c: Chapter, s: Series, followerCount: nat, now: int): real {
    c.viewCount as real * 0.003 + c.commentCount as real * 2.0 + c.reactionCount as real * 0.4
      + s.averageRating * 8.0 + followerCount as real * 0.03 + 24.0 / RecencyHours(c, now)
  }

  /** The recency boost lies in (0, 24]: a chapter an hour old or younger gets all of it,
      an unpublished one a third of an hour's worth; a comment is worth two points. */
  lemma FeedScoreParts(c: Chapter, s: Series, followerCount: nat, now: int)
    ensures var boost := FeedScore(c, s, followerCount, now)
      - (c.viewCount as real * 0.003 + c.commentCount as real * 2.0 + c.reactionCount as real * 0.4
         + s.averageRating * 8.0 + followerCount as real * 0.03);
      && 0.0 < boost <= 24.0
      && (PublishedAtTruthy(c) && now - c.publishedAt.value <= HourMs ==> boost == 24.0)
      && (!PublishedAtTruthy(c) ==> boost == 24.0 / 72.0)
    ensures FeedScore(c.(commentCount := c.commentCount + 1), s, followerCount, now) == FeedScore(c, s, followerCount, now) + 2.0
  {
  }

  /** The RISING key: comments, half the reactions and 1.4 per follower of the creator. */
  function RisingScore(follows: seq<Follow>, c: Chapter): real {
    c.commentCount as real + c.reactionCount as real * 0.5 + FollowerCount(follows, c.creatorId) as real * 1.4
  }

  function RisingFirst(follows: seq<Follow>): (Chapter, Chapter) -> bool {
    (a: Chapter, b: Chapter) => RisingScore(follows, a) >= RisingScore(follows, b)
  }

  /** The TRENDING comparator: chapters whose series is missing compare as equal to
      everything, the rest by feed score, highest first. */
  function TrendingFirst(series: seq<Series>, follows: seq<Follow>, now: int): (Chapter, Chapter) -> bool {
    (a: Chapter, b: Chapter) =>
      match (SeriesById(series, a.seriesId), SeriesById(series, b.seriesId))
      case (Some(sa), Some(sb)) =>
        FeedScore(a, sa, FollowerCount(follows, a.creatorId), now) >= FeedScore(b, sb, FollowerCount(follows, b.creatorId), now)
      case _ => true
  }

  /** The comparator `sortByFeedType` picks for a feed type. */
  function FeedOrder(feedType: HomeFeedType, series: seq<Series>, follows: seq<Follow>, now: int): (Chapter, Chapter) -> bool {
    match feedType
    case NewFeed => NewestPublishedFirst
    case MostDiscussedFeed => MostCommentedFirst
    case RisingFeed => RisingFirst(follows)
    case TrendingFeed => TrendingFirst(series, follows, now)
  }

  /** `sortByFeedType`. */
  function SortByFeedType(feedType: HomeFeedType, chapters: seq<Chapter>, series: seq<Series>, follows: seq<Follow>, now: int): seq<Chapter> {
    Sort(chapters, FeedOrder(feedType, series, follows, now))
  }

  /** Every feed type reorders without adding or dropping; NEW, MOST_DISCUSSED and RISING
      come out in their key's descending order. */
  lemma SortByFeedTypeOrders(feedType: HomeFeedType, chapters: seq<Chapter>, series: seq<Series>, follows: seq<Follow>, now: int)
    ensures var r := SortByFeedType(feedType, chapters, series, follows, now);
      && multiset(r) == multiset(chapters)
      && (feedType == NewFeed ==> forall i, j :: 0 <= i < j < |r| ==> PublishedAtOrZero(r[i]) >= PublishedAtOrZero(r[j]))
      && (feedType == MostDiscussedFeed ==> forall i, j :: 0 <= i < j < |r| ==> r[i].commentCount >= r[j].commentCount)
      && (feedType == RisingFeed ==> forall i, j :: 0 <= i < j < |r| ==> RisingScore(follows, r[i]) >= RisingScore(follows, r[j]))
  {
    match feedType
    case NewFeed => SortSorted(chapters, NewestPublishedFirst); SortPermutes(chapters, NewestPublishedFirst);
    case MostDiscussedFeed => SortSorted(chapters, MostCommentedFirst); SortPermutes(chapters, MostCommentedFirst);
    case RisingFeed => SortSorted(chapters, RisingFirst(follows)); SortPermutes(chapters, RisingFirst(follows));
    case TrendingFeed => SortPermutes(chapters, TrendingFirst(series, follows, now));
  }

  /** `HomeFeedItem` without its cover URL. */
  datatype FeedItem = FeedItem(
    seriesId: Id, chapterId: Id, creatorId: Id, title: string, creatorName: string,
    rating: real, commentCount: int, viewCount: int, updatedAt: int, badges: seq<Badge>)

  /** `buildFeedItem`: nothing when the chapter's series or creator is missing. The NEW badge
      marks a chapter published less than 48 hours ago, the TRENDING badge a feed score over 70,
      NEW first when both apply. */
  function BuildFeedItem(series: seq<Series>, users: seq<User>, follows: seq<Follow>, c: Chapter, now: int): (r: Option<FeedItem>)
    ensures r.None? <==> SeriesById(series, c.seriesId).None? || FindUser(users, Some(c.creatorId)).None?
    ensures r.Some? ==> r.value.chapterId == c.id && r.value.seriesId == c.seriesId && r.value.creatorId == c.creatorId
    ensures r.Some? ==> r.value.commentCount == c.commentCount && r.value.viewCount == c.viewCount
    ensures r.Some? ==>
      && (NewBadge in r.value.badges <==> PublishedAtTruthy(c) && now - c.publishedAt.value < NewBadgeWindowMs)
      && (TrendingBadge in r.value.badges <==>
            FeedScore(c, SeriesById(series, c.seriesId).value, FollowerCount(follows, c.creatorId), now) > 70.0)
      && |r.value.badges| <= 2
      && (|r.value.badges| == 2 ==> r.value.badges == [NewBadge, TrendingBadge])
  {
    match SeriesById(series, c.seriesId)
    case None => None
    case Some(s) =>
      match FindUser(users, Some(c.creatorId))
      case None => None
      case Some(k) =>
        var isNew := PublishedAtTruthy(c) && now - c.publishedAt.value < NewBadgeWindowMs;
        var trending := FeedScore(c, s, FollowerCount(follows, c.creatorId), now) > 70.0;
        Some(FeedItem(s.id, c.id, users[k].id, s.title, users[k].username, s.averageRating,
          c.commentCount, c.viewCount, c.updatedAt,
          (if isNew then [NewBadge] else []) + (if trending then [TrendingBadge] else [])))
  }

  /** Some chapter of the list builds this item. */
  predicate BuiltFrom(series: seq<Series>, users: seq<User>, follows: seq<Follow>, chapters: seq<Chapter>, it: FeedItem, now: int) {
    exists c :: c in chapters && BuildFeedItem(series, users, follows, c, now) == Some(it)
  }

  /** `chapters.map(buildFeedItem).filter(Boolean)`. */
  function FeedItems(series: seq<Series>, users: seq<User>, follows: seq<Follow>, chapters: seq<Chapter>, now: int): (r: seq<FeedItem>)
    ensures |r| <= |chapters|
    ensures forall it :: it in r <==> BuiltFrom(series, users, follows, chapters, it, now)
  {
    if |chapters| == 0 then []
    else
      var init := chapters[..|chapters| - 1];
      var last := chapters[|chapters| - 1];
      var r := FeedItems(series, users, follows, init, now) +
        (match BuildFeedItem(series, users, follows, last, now) case None => [] case Some(it) => [it]);
      assert chapters == init + [last];
      r
  }

  /** The chapters `buildFeedItem` turns into an item: their series and creator exist. */
  function Resolving(series: seq<Series>, users: seq<User>): Chapter -> bool {
    (c: Chapter) => SeriesById(series, c.seriesId).Some? && FindUser(users, Some(c.creatorId)).Some?
  }

  /** Mapping then dropping the nulls is dropping the unresolved chapters then mapping: item i
      is built from the i-th resolving chapter, so items keep the chapters' order. */
  lemma {:induction false} FeedItemsAt(series: seq<Series>, users: seq<User>, follows: seq<Follow>, chapters: seq<Chapter>, now: int)
    ensures var r := FeedItems(series, users, follows, chapters, now);
      var f := Filter(chapters, Resolving(series, users));
      && |r| == |f|
      && forall i :: 0 <= i < |r| ==> BuildFeedItem(series, users, follows, f[i], now) == Some(r[i])
  {
    if |chapters| > 0 {
      var init, last := chapters[..|chapters| - 1], chapters[|chapters| - 1];
      FeedItemsAt(series, users, follows, init, now);
      var r := FeedItems(series, users, follows, chapters, now);
      var f := Filter(chapters, Resolving(series, users));
      var r0 := FeedItems(series, users, follows, init, now);
      var f0 := Filter(init, Resolving(series, users));
      assert Resolving(series, users)(last) <==> BuildFeedItem(series, users, follows, last, now).Some?;
      forall i | 0 <= i < |r| ensures BuildFeedItem(series, users, follows, f[i], now) == Some(r[i]) {
        if i < |r0| {
          assert r[i] == r0[i] && f[i] == f0[i];
        }
      }
    }
  }

  /** `buildFeedItem` as a list of zero or one item. */
  function ItemsOf(series: seq<Series>, users: seq<User>, follows: seq<Follow>, now: int): Chapter -> seq<FeedItem> {
    (c: Chapter) => match BuildFeedItem(series, users, follows, c, now) case None => [] case Some(it) => [it]
  }

  /** Mapping then dropping the nulls is the flat map of the zero-or-one item lists. */
  lemma {:induction false} FeedItemsIsFlatMap(series: seq<Series>, users: seq<User>, follows: seq<Follow>, chapters: seq<Chapter>, now: int)
    ensures FeedItems(series, users, follows, chapters, now) == FlatMap(chapters, ItemsOf(series, users, follows, now))
  {
    if |chapters| > 0 {
      FeedItemsIsFlatMap(series, users, follows, chapters[..|chapters| - 1], now);
    }
  }

  /** Sorting the chapters first only reorders the items. */
  lemma FeedItemsOfSort(series: seq<Series>, users: seq<User>, follows: seq<Follow>, s: seq<Chapter>,
                        leq: (Chapter, Chapter) -> bool, now: int)
    ensures multiset(FeedItems(series, users, follows, Sort(s, leq), now)) == multiset(FeedItems(series, users, follows, s, now))
  {
    FeedItemsIsFlatMap(series, users, follows, s, now);
    FeedItemsIsFlatMap(series, users, follows, Sort(s, leq), now);
    FlatMapOfSort(s, leq, ItemsOf(series, users, follows, now));
  }

  /** `getHomeFeed`. */
  function HomeFeed(feedType: HomeFeedType, chapters: seq<Chapter>, series: seq<Series>, users: seq<User>, follows: seq<Follow>, now: int): seq<FeedItem> {
    FeedItems(series, users, follows, SortByFeedType(feedType, ActivePublished(chapters), series, follows, now), now)
  }

  /** The feed shows exactly the published chapters whose series and creator exist, one item
      built from each record, so as many items as such chapters; a MOST_DISCUSSED feed runs
      from the most comments down. */
  lemma HomeFeedIsPublished(feedType: HomeFeedType, chapters: seq<Chapter>, series: seq<Series>, users: seq<User>, follows: seq<Follow>, now: int)
    ensures forall it :: it in HomeFeed(feedType, chapters, series, users, follows, now) <==>
      exists c :: c in chapters && c.status == Published && BuildFeedItem(series, users, follows, c, now) == Some(it)
    ensures multiset(HomeFeed(feedType, chapters, series, users, follows, now)) ==
      multiset(FeedItems(series, users, follows, Filter(chapters, IsPublished), now))
    ensures |HomeFeed(feedType, chapters, series, users, follows, now)| ==
      |Filter(Filter(chapters, IsPublished), Resolving(series, users))|
    ensures var r := HomeFeed(feedType, chapters, series, users, follows, now);
      feedType == MostDiscussedFeed ==> forall i, j :: 0 <= i < j < |r| ==> r[i].commentCount >= r[j].commentCount
  {
    var active := ActivePublished(chapters);
    var sorted := SortByFeedType(feedType, active, series, follows, now);
    HomeFeedPermutes(feedType, chapters, series, users, follows, now);
    HomeFeedMembers(feedType, chapters, series, users, follows, now);
    if feedType == MostDiscussedFeed {
      HomeFeedMostDiscussed(chapters, series, users, follows, now);
    }
  }

  /** The feed's items are those of the published chapters in store order, reordered. */
  lemma HomeFeedPermutes(feedType: HomeFeedType, chapters: seq<Chapter>, series: seq<Series>, users: seq<User>, follows: seq<Follow>, now: int)
    ensures multiset(HomeFeed(feedType, chapters, series, users, follows, now)) ==
      multiset(FeedItems(series, users, follows, Filter(chapters, IsPublished), now))
    ensures |HomeFeed(feedType, chapters, series, users, follows, now)| ==
      |Filter(Filter(chapters, IsPublished), Resolving(series, users))|
  {
    var published := Filter(chapters, IsPublished);
    FeedItemsOfSort(series, users, follows, published, NewestPublishedFirst, now);
    FeedItemsOfSort(series, users, follows, ActivePublished(chapters), FeedOrder(feedType, series, follows, now), now);
    FeedItemsAt(series, users, follows, published, now);
    var r := HomeFeed(feedType, chapters, series, users, follows, now);
    var q := FeedItems(series, users, follows, published, now);
    assert |multiset(r)| == |r| && |multiset(q)| == |q|;
  }

  /** The MOST_DISCUSSED feed keeps the comment-count order of its sorted chapters. */
  lemma HomeFeedMostDiscussed(chapters: seq<Chapter>, series: seq<Series>, users: seq<User>, follows: seq<Follow>, now: int)
    ensures var r := HomeFeed(MostDiscussedFeed, chapters, series, users, follows, now);
      forall i, j :: 0 <= i < j < |r| ==> r[i].commentCount >= r[j].commentCount
  {
    var sorted := SortByFeedType(MostDiscussedFeed, ActivePublished(chapters), series, follows, now);
    SortByFeedTypeOrders(MostDiscussedFeed, ActivePublished(chapters), series, follows, now);
    assert Sorted(sorted, MostCommentedFirst);
    FilterSorted(sorted, Resolving(series, users), MostCommentedFirst);
    FeedItemsAt(series, users, follows, sorted, now);
    var f := Filter(sorted, Resolving(series, users));
    var r := HomeFeed(MostDiscussedFeed, chapters, series, users, follows, now);
    forall i, j | 0 <= i < j < |r| ensures r[i].commentCount >= r[j].commentCount {
      assert MostCommentedFirst(f[i], f[j]);
    }
  }

  /** Membership: the feed holds the items built from published chapters. */
  lemma HomeFeedMembers(feedType: HomeFeedType, chapters: seq<Chapter>, series: seq<Series>, users: seq<User>, follows: seq<Follow>, now: int)
    ensures forall it :: it in HomeFeed(feedType, chapters, series, users, follows, now) <==>
      exists c :: c in chapters && c.status == Published && BuildFeedItem(series, users, follows, c, now) == Some(it)
  {
    var active := ActivePublished(chapters);
    var sorted := SortByFeedType(feedType, active, series, follows, now);
    ActivePublishedIsPublished(chapters);
    SortByFeedTypeOrders(feedType, active, series, follows, now);
    SameMultisetSameMembers(sorted, active);
    forall it ensures it in HomeFeed(feedType, chapters, series, users, follows, now) <==>
      exists c :: c in chapters && c.status == Published && BuildFeedItem(series, users, follows, c, now) == Some(it)
    {
      if c :| c in chapters && c.status == Published && BuildFeedItem(series, users, follows, c, now) == Some(it) {
        assert c in sorted;
        assert BuiltFrom(series, users, follows, sorted, it, now);
      }
      if it in HomeFeed(feedType, chapters, series, users, follows, now) {
        assert BuiltFrom(series, users, follows, sorted, it, now);
        var c :| c in sorted && BuildFeedItem(series, users, follows, c, now) == Some(it);
        assert c in chapters && c.status == Published;
      }
    }
  }

  // ----- rankings -----

  /** One row of `getRankings`. */
  datatype RankingEntry = RankingEntry(chapter: Chapter, series: Option<Series>, score: real, rank: int)

  /** The fallback score: comments, 0.4 per reaction and 0.002 per view. */
  function FallbackScore(c: Chapter): real {
    c.commentCount as real + c.reactionCount as real * 0.4 + c.viewCount as real * 0.002
  }

  /** The fallback rows: the given chapters ranked 1, 2, … in order. */
  function FallbackEntries(series: seq<Series>, ranked: seq<Chapter>): (r: seq<RankingEntry>)
    ensures |r| == |ranked|
    ensures forall i :: 0 <= i < |r| ==>
      r[i] == RankingEntry(ranked[i], SeriesById(series, ranked[i].seriesId), FallbackScore(ranked[i]), i + 1)
  {
    seq(|ranked|, i requires 0 <= i < |ranked| =>
      RankingEntry(ranked[i], SeriesById(series, ranked[i].seriesId), FallbackScore(ranked[i]), i + 1))
  }

  /** The items whose chapter id names a chapter. */
  function Resolves(chapters: seq<Chapter>): RankingItem -> bool {
    (it: RankingItem) => ChapterIndex(chapters, it.chapterId).Some?
  }

  /** The row of an item whose chapter resolves: that chapter, its series, the item's score and rank. */
  function RowFor(series: seq<Series>, chapters: seq<Chapter>, it: RankingItem): (r: RankingEntry)
    requires Resolves(chapters)(it)
    ensures r.chapter in chapters && r.chapter.id == it.chapterId
    ensures r.series == SeriesById(series, r.chapter.seriesId)
    ensures r.score == it.score && r.rank == it.rank
  {
    var c := chapters[ChapterIndex(chapters, it.chapterId).value];
    RankingEntry(c, SeriesById(series, c.seriesId), it.score, it.rank)
  }

  /** The rollup rows: each item whose chapter resolves, with the rollup's score and rank;
      the others are dropped. */
  function RollupEntries(series: seq<Series>, chapters: seq<Chapter>, items: seq<RankingItem>): (r: seq<RankingEntry>)
    ensures |r| <= |items|
  {
    if |items| == 0 then []
    else
      var last := items[|items| - 1];
      RollupEntries(series, chapters, items[..|items| - 1]) +
        if Resolves(chapters)(last) then [RowFor(series, chapters, last)] else []
  }

  /** A row shows the chapter an item names, with the item's score and rank. */
  predicate RowMatches(chapters: seq<Chapter>, item: RankingItem, e: RankingEntry) {
    e.chapter in chapters && e.chapter.id == item.chapterId && e.score == item.score && e.rank == item.rank
  }

  predicate RowOfItem(chapters: seq<Chapter>, items: seq<RankingItem>, e: RankingEntry) {
    exists i :: 0 <= i < |items| && RowMatches(chapters, items[i], e)
  }

  /** The items whose chapter id names no chapter. */
  function Unresolved(chapters: seq<Chapter>, items: seq<RankingItem>): nat {
    if |items| == 0 then 0
    else Unresolved(chapters, items[..|items| - 1]) + (if ChapterIndex(chapters, items[|items| - 1].chapterId).None? then 1 else 0)
  }

  /** Row i is the row of the i-th item whose chapter resolves. */
  lemma {:induction false} RollupEntriesAt(series: seq<Series>, chapters: seq<Chapter>, items: seq<RankingItem>)
    ensures var r := RollupEntries(series, chapters, items);
      var f := Filter(items, Resolves(chapters));
      && |r| == |f|
      && (forall i :: 0 <= i < |r| ==> r[i] == RowFor(series, chapters, f[i]))
  {
    if |items| > 0 {
      var init := items[..|items| - 1];
      RollupEntriesAt(series, chapters, init);
      var r, r0 := RollupEntries(series, chapters, items), RollupEntries(series, chapters, init);
      var f, f0 := Filter(items, Resolves(chapters)), Filter(init, Resolves(chapters));
      forall i | 0 <= i < |r| ensures r[i] == RowFor(series, chapters, f[i]) {
        if i < |r0| {
          assert r[i] == r0[i] && f[i] == f0[i];
        }
      }
    }
  }

  /** Exactly the unresolved items are dropped, and row i is the row of the i-th resolving
      item: its chapter, that chapter's series, and the item's score and rank, in item order. */
  lemma {:induction false} RollupEntriesResolve(series: seq<Series>, chapters: seq<Chapter>, items: seq<RankingItem>)
    ensures var r := RollupEntries(series, chapters, items);
      var f := Filter(items, Resolves(chapters));
      && |r| == |items| - Unresolved(chapters, items)
      && (forall e :: e in r ==> RowOfItem(chapters, items, e))
      && |r| == |f|
      && (forall i :: 0 <= i < |r| ==> r[i] == RowFor(series, chapters, f[i]))
  {
    RollupEntriesAt(series, chapters, items);
    if |items| > 0 {
      var init := items[..|items| - 1];
      RollupEntriesResolve(series, chapters, init);
      forall e | e in RollupEntries(series, chapters, items)
        ensures RowOfItem(chapters, items, e)
      {
        if e in RollupEntries(series, chapters, init) {
          var i :| 0 <= i < |init| && RowMatches(chapters, init[i], e);
          assert items[i] == init[i];
        } else {
          assert RowMatches(chapters, items[|items| - 1], e);
        }
      }
    }
  }

  /** `getRankings`: the rows of the first rollup for the period and type, or, when there is
      none, the ten most recently published chapters with the fallback score. */
  function GetRankings(period: RankingPeriod, kind: RankingType, rollups: seq<RankingRollup>,
                       chapters: seq<Chapter>, series: seq<Series>): seq<RankingEntry> {
    match FirstIndex(rollups, (x: RankingRollup) => x.period == period && x.kind == kind)
    case None => FallbackEntries(series, Take(ActivePublished(chapters), FallbackRankingSize))
    case Some(k) => RollupEntries(series, chapters, rollups[k].items)
  }

  /** The first ten of `activePublishedChapters`: min(10, published) published chapters, latest
      first, and no published chapter left out is later than one kept. */
  lemma FallbackTop(chapters: seq<Chapter>)
    ensures var top := Take(ActivePublished(chapters), FallbackRankingSize);
      && |top| == (if |Filter(chapters, IsPublished)| < FallbackRankingSize then |Filter(chapters, IsPublished)| else FallbackRankingSize)
      && (forall i :: 0 <= i < |top| ==> top[i] in chapters && top[i].status == Published)
      && (forall i, j :: 0 <= i < j < |top| ==> PublishedAtOrZero(top[i]) >= PublishedAtOrZero(top[j]))
      && (forall c :: c in chapters && c.status == Published && c !in top ==>
            forall i :: 0 <= i < |top| ==> PublishedAtOrZero(top[i]) >= PublishedAtOrZero(c))
  {
    var published := Filter(chapters, IsPublished);
    FilterMembers(chapters, IsPublished);
    TopOfSorted(published, FallbackRankingSize, NewestPublishedFirst);
    var top := Take(ActivePublished(chapters), FallbackRankingSize);
    forall i | 0 <= i < |top| ensures top[i] in chapters && top[i].status == Published {
      assert top[i] in top;
    }
  }

  /** The fallback rows over the first ten of `activePublishedChapters`. */
  lemma FallbackRows(chapters: seq<Chapter>, series: seq<Series>)
    ensures var r := FallbackEntries(series, Take(ActivePublished(chapters), FallbackRankingSize));
      && (forall i :: 0 <= i < |r| ==>
            (r[i].rank == i + 1 && r[i].chapter in chapters && r[i].chapter.status == Published && r[i].score == FallbackScore(r[i].chapter)))
      && (forall i, j :: 0 <= i < j < |r| ==> PublishedAtOrZero(r[i].chapter) >= PublishedAtOrZero(r[j].chapter))
      && |r| == (if |Filter(chapters, IsPublished)| < FallbackRankingSize then |Filter(chapters, IsPublished)| else FallbackRankingSize)
      && (forall i :: 0 <= i < |r| ==> r[i].series == SeriesById(series, r[i].chapter.seriesId))
      && (forall c :: c in chapters && c.status == Published && (forall i :: 0 <= i < |r| ==> r[i].chapter != c) ==>
            forall i :: 0 <= i < |r| ==> PublishedAtOrZero(r[i].chapter) >= PublishedAtOrZero(c))
  {
    FallbackTop(chapters);
  }

  /** Without a rollup the rankings are the min(10, published) most recently published
      chapters, each with its series and the fallback score, ranked 1..n latest first. */
  lemma RankingsFallback(period: RankingPeriod, kind: RankingType, rollups: seq<RankingRollup>,
                         chapters: seq<Chapter>, series: seq<Series>)
    requires forall j :: 0 <= j < |rollups| ==> !(rollups[j].period == period && rollups[j].kind == kind)
    ensures var r := GetRankings(period, kind, rollups, chapters, series);
      && |r| <= FallbackRankingSize
      && (forall i :: 0 <= i < |r| ==>
            (r[i].rank == i + 1 && r[i].chapter in chapters && r[i].chapter.status == Published && r[i].score == FallbackScore(r[i].chapter)))
      && (forall i, j :: 0 <= i < j < |r| ==> PublishedAtOrZero(r[i].chapter) >= PublishedAtOrZero(r[j].chapter))
      && |r| == (if |Filter(chapters, IsPublished)| < FallbackRankingSize then |Filter(chapters, IsPublished)| else FallbackRankingSize)
      && (forall i :: 0 <= i < |r| ==> r[i].series == SeriesById(series, r[i].chapter.seriesId))
      && (forall c :: c in chapters && c.status == Published && (forall i :: 0 <= i < |r| ==> r[i].chapter != c) ==>
            forall i :: 0 <= i < |r| ==> PublishedAtOrZero(r[i].chapter) >= PublishedAtOrZero(c))
  {
    FallbackRows(chapters, series);
    assert GetRankings(period, kind, rollups, chapters, series) == FallbackEntries(series, Take(ActivePublished(chapters), FallbackRankingSize));
  }

  /** With a rollup the rankings are its items, less those whose chapter is missing: row i is
      the i-th resolving item's chapter with its series, score and rank. */
  lemma RankingsFromRollup(period: RankingPeriod, kind: RankingType, rollups: seq<RankingRollup>,
                           chapters: seq<Chapter>, series: seq<Series>, k: nat)
    requires k < |rollups| && rollups[k].period == period && rollups[k].kind == kind
    requires forall j :: 0 <= j < k ==> !(rollups[j].period == period && rollups[j].kind == kind)
    ensures var r := GetRankings(period, kind, rollups, chapters, series);
      && |r| == |rollups[k].items| - Unresolved(chapters, rollups[k].items)
      && (forall e :: e in r ==> RowOfItem(chapters, rollups[k].items, e))
      && |r| == |Filter(rollups[k].items, Resolves(chapters))|
      && (forall i :: 0 <= i < |r| ==> r[i] == RowFor(series, chapters, Filter(rollups[k].items, Resolves(chapters))[i]))
  {
    RollupEntriesResolve(series, chapters, rollups[k].items);
  }
}
