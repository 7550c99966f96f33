/** The shape of the store (`db`, `rateState` and the id counters, lib/api.ts:65-102) and
    the invariant every operation keeps, with one lemma per kind of write. */
module Schema {
  import opened Types
  import opened Seqs
  import opened Ledger
  import opened Lifecycle

  /** The in-memory tables (`db`, lib/api.ts:65-76). */
  datatype Db = Db(
    users: seq<User>, series: seq<Series>, chapters: seq<Chapter>, pages: seq<Page>,
    comments: seq<Comment>, commentVotes: seq<CommentVote>, reactions: seq<Reaction>,
    follows: seq<Follow>, notifications: seq<Notification>, reports: seq<Report>)

  /** The limiter state (`rateState`, lib/api.ts:80-84): last comment and reaction time per
      actor, and each actor's recent vote stamps. */
  datatype RateState = RateState(lastCommentAt: map<Id, int>, lastReactionAt: map<Id, int>,
                                 voteHistory: map<Id, seq<int>>)

  /** The id counters (`counters`, lib/api.ts:86-97): one running number per prefix. */
  datatype Counters = Counters(series: int, chapter: int, page: int, comment: int, vote: int,
                               reaction: int, follow: int, notification: int, report: int, user: int)
  {
    /** `counters[prefix]`. */
    function Of(prefix: IdPrefix): int {
      match prefix
      case SeriesPrefix => series
      case ChapterPrefix => chapter
      case PagePrefix => page
      case CommentPrefix => comment
      case VotePrefix => vote
      case ReactionPrefix => reaction
      case FollowPrefix => follow
      case NotificationPrefix => notification
      case ReportPrefix => report
      case UserPrefix => user
    }

    /** `counters[prefix] += 1`: that counter goes up by one and no other moves. */
    function Bump(prefix: IdPrefix): (r: Counters)
      ensures r.Of(prefix) == Of(prefix) + 1
      ensures forall q :: q != prefix ==> r.Of(q) == Of(q)
    {
      match prefix
      case SeriesPrefix => this.(series := series + 1)
      case ChapterPrefix => this.(chapter := chapter + 1)
      case PagePrefix => this.(page := page + 1)
      case CommentPrefix => this.(comment := comment + 1)
      case VotePrefix => this.(vote := vote + 1)
      case ReactionPrefix => this.(reaction := reaction + 1)
      case FollowPrefix => this.(follow := follow + 1)
      case NotificationPrefix => this.(notification := notification + 1)
      case ReportPrefix => this.(report := report + 1)
      case UserPrefix => this.(user := user + 1)
    }
  }

  // ----- the store invariant -----


  /** Chapters: distinct ids, all minted already, and the status/publish-time agreement. */
  ghost predicate ChaptersValid(chapters: seq<Chapter>, minted: int) {
    && (forall i, j :: 0 <= i < j < |chapters| ==> chapters[i].id != chapters[j].id)
    && (forall i :: 0 <= i < |chapters| ==> chapters[i].id.n <= minted && StatusAgrees(chapters[i]))
  }

  /** Pages: distinct minted ids, positive numbers, and no reference to an unminted chapter. */
  ghost predicate PagesValid(pages: seq<Page>, minted: int, chaptersMinted: int) {
    && (forall i, j :: 0 <= i < j < |pages| ==> pages[i].id != pages[j].id)
    && (forall i :: 0 <= i < |pages| ==>
          pages[i].id.n <= minted && pages[i].pageNumber > 0 && pages[i].chapterId.n <= chaptersMinted)
  }

  ghost predicate CommentsValid(comments: seq<Comment>, minted: int, chaptersMinted: int) {
    && (forall i, j :: 0 <= i < j < |comments| ==> comments[i].id != comments[j].id)
    && (forall i :: 0 <= i < |comments| ==> comments[i].id.n <= minted && comments[i].chapterId.n <= chaptersMinted)
  }

  ghost predicate ReactionsValid(reactions: seq<Reaction>, chaptersMinted: int) {
    forall i :: 0 <= i < |reactions| ==> reactions[i].chapterId.n <= chaptersMinted
  }

  /** `chapter.pageCount` equals the chapter's page records. */
  ghost predicate PageCountsAgree(chapters: seq<Chapter>, pages: seq<Page>) {
    forall i :: 0 <= i < |chapters| ==> chapters[i].pageCount == PageCount(pages, chapters[i].id)
  }

  ghost predicate CommentCountsAgree(chapters: seq<Chapter>, comments: seq<Comment>) {
    forall i :: 0 <= i < |chapters| ==> chapters[i].commentCount == CommentCount(comments, chapters[i].id)
  }

  ghost predicate ReactionCountsAgree(chapters: seq<Chapter>, reactions: seq<Reaction>) {
    forall i :: 0 <= i < |chapters| ==> chapters[i].reactionCount == ReactionCount(reactions, chapters[i].id)
  }

  /** Votes: tallies in step, one vote per pair, and no vote on an unminted comment. */
  ghost predicate VotesValid(comments: seq<Comment>, votes: seq<CommentVote>, commentsMinted: int) {
    && TalliesMatch(comments, votes)
    && OneVotePerPair(votes)
    && (forall k :: 0 <= k < |votes| ==> votes[k].commentId.n <= commentsMinted)
  }

  ghost predicate UsersValid(users: seq<User>) {
    && (forall i, j :: 0 <= i < j < |users| ==> users[i].id != users[j].id)
    && UsernamesUnique(users)
  }

  /** No actor's stored vote history is longer than the daily ceiling. */
  ghost predicate HistoryBounded(history: map<Id, seq<int>>) {
    forall u :: u in history ==> |history[u]| <= VotesPerDay
  }

  /** What holds of the tables between any two calls, given the id counters. */
  ghost predicate Invariant(db: Db, counters: Counters) {
    && ChaptersValid(db.chapters, counters.chapter)
    && PagesValid(db.pages, counters.page, counters.chapter)
    && CommentsValid(db.comments, counters.comment, counters.chapter)
    && ReactionsValid(db.reactions, counters.chapter)
    && PageCountsAgree(db.chapters, db.pages)
    && CommentCountsAgree(db.chapters, db.comments)
    && ReactionCountsAgree(db.chapters, db.reactions)
    && VotesValid(db.comments, db.commentVotes, counters.comment)
    && FollowsWellFormed(db.follows)
    && UsersValid(db.users)
  }

  // ----- the invariant across each kind of write -----

  /** Minting an id only raises a counter, which keeps every "already minted" bound. */
  lemma MintKeepsInvariant(db: Db, counters: Counters, prefix: IdPrefix)
    requires Invariant(db, counters)
    ensures Invariant(db, counters.Bump(prefix))
  {
  }

  /** Appending page n + 1 to chapter k of n pages, with a fresh page id, and raising the
      chapter's pageCount keeps the invariant. */
  lemma AddPageKeepsInvariant(db: Db, counters: Counters, k: nat, page: Page, now: int)
    requires Invariant(db, counters) && k < |db.chapters|
    requires page.chapterId == db.chapters[k].id && page.pageNumber > 0
    requires page.id.n == counters.page + 1
    ensures var c := db.chapters[k];
      Invariant(db.(pages := db.pages + [page],
                    chapters := db.chapters[k := c.(pageCount := c.pageCount + 1, updatedAt := now)]),
                counters.(page := page.id.n))
  {
    var c := db.chapters[k];
    var chapters := db.chapters[k := c.(pageCount := c.pageCount + 1, updatedAt := now)];
    var pages := db.pages + [page];
    forall i | 0 <= i < |chapters| ensures chapters[i].pageCount == PageCount(pages, chapters[i].id) {
      PageCountAppend(db.pages, page, chapters[i].id);
    }
    assert PageCountsAgree(chapters, pages);
    assert pages[|db.pages|] == page;
    assert PagesValid(pages, page.id.n, counters.chapter);
    assert CommentCountsAgree(chapters, db.comments);
    assert ReactionCountsAgree(chapters, db.reactions);
    assert ChaptersValid(chapters, counters.chapter);
  }

  /** A new chapter with a fresh id, consistent status and zero counts keeps the invariant:
      no page, comment or reaction can name an id that was never minted. */
  lemma AddChapterKeepsInvariant(db: Db, counters: Counters, c: Chapter)
    requires Invariant(db, counters)
    requires c.id.n == counters.chapter + 1 && StatusAgrees(c)
    requires c.pageCount == 0 && c.commentCount == 0 && c.reactionCount == 0
    ensures Invariant(db.(chapters := db.chapters + [c]), counters.(chapter := c.id.n))
  {
    var chapters := db.chapters + [c];
    PageCountAbsent(db.pages, c.id);
    CommentCountAbsent(db.comments, c.id);
    ReactionCountAbsent(db.reactions, c.id);
    assert chapters[|db.chapters|] == c;
    assert PageCountsAgree(chapters, db.pages);
    assert CommentCountsAgree(chapters, db.comments);
    assert ReactionCountsAgree(chapters, db.reactions);
    assert ChaptersValid(chapters, c.id.n);
  }

  /** Replacing chapter k by a record with the same id, a consistent status and the same
      three counts keeps the invariant. */
  lemma SetChapterKeepsInvariant(db: Db, counters: Counters, k: nat, c: Chapter)
    requires Invariant(db, counters) && k < |db.chapters|
    requires c.id == db.chapters[k].id && StatusAgrees(c)
    requires c.pageCount == db.chapters[k].pageCount && c.commentCount == db.chapters[k].commentCount
    requires c.reactionCount == db.chapters[k].reactionCount
    ensures Invariant(db.(chapters := db.chapters[k := c]), counters)
  {
    var chapters := db.chapters[k := c];
    assert PageCountsAgree(chapters, db.pages);
    assert CommentCountsAgree(chapters, db.comments);
    assert ReactionCountsAgree(chapters, db.reactions);
    assert ChaptersValid(chapters, counters.chapter);
  }

  /** Renumbering a chapter's pages per any order keeps the invariant: only page numbers
      change, and they stay positive. */
  lemma RenumberKeepsInvariant(db: Db, counters: Counters, chapterId: Id, order: seq<Id>)
    requires Invariant(db, counters)
    ensures Invariant(db.(pages := ReorderedPages(db.pages, chapterId, order)), counters)
  {
    var pages := ReorderedPages(db.pages, chapterId, order);
    ReorderFrame(db.pages, chapterId, order);
    forall i | 0 <= i < |db.chapters| ensures db.chapters[i].pageCount == PageCount(pages, db.chapters[i].id) {
      PageCountSameChapters(db.pages, pages, db.chapters[i].id);
    }
    assert PageCountsAgree(db.chapters, pages);
    assert PagesValid(pages, counters.page, counters.chapter);
  }

  /** Rewriting the image of page s keeps the invariant. */
  lemma SetImageKeepsInvariant(db: Db, counters: Counters, s: nat, imageUrl: string)
    requires Invariant(db, counters) && s < |db.pages|
    ensures Invariant(db.(pages := db.pages[s := db.pages[s].(imageUrl := imageUrl)]), counters)
  {
    var pages := db.pages[s := db.pages[s].(imageUrl := imageUrl)];
    forall i | 0 <= i < |db.chapters| ensures db.chapters[i].pageCount == PageCount(pages, db.chapters[i].id) {
      PageCountSameChapters(db.pages, pages, db.chapters[i].id);
    }
    assert PageCountsAgree(db.chapters, pages);
    assert PagesValid(pages, counters.page, counters.chapter);
  }

  /** Appending a comment with a fresh id and zero tallies to chapter k, and raising the
      chapter's commentCount, keeps the invariant. */
  lemma AddCommentKeepsInvariant(db: Db, counters: Counters, k: nat, comment: Comment)
    requires Invariant(db, counters) && k < |db.chapters|
    requires comment.chapterId == db.chapters[k].id && comment.id.n == counters.comment + 1
    requires comment.upvoteCount == 0 && comment.downvoteCount == 0 && comment.score == 0
    ensures var c := db.chapters[k];
      Invariant(db.(comments := db.comments + [comment], chapters := db.chapters[k := c.(commentCount := c.commentCount + 1)]),
                counters.(comment := comment.id.n))
  {
    var c := db.chapters[k];
    var chapters := db.chapters[k := c.(commentCount := c.commentCount + 1)];
    var comments := db.comments + [comment];
    forall i | 0 <= i < |chapters| ensures chapters[i].commentCount == CommentCount(comments, chapters[i].id) {
      CommentCountAppend(db.comments, comment, chapters[i].id);
    }
    NewCommentKeepsTallies(db.comments, db.commentVotes, comment);
    assert comments[|db.comments|] == comment;
    assert CommentCountsAgree(chapters, comments);
    assert PageCountsAgree(chapters, db.pages);
    assert ReactionCountsAgree(chapters, db.reactions);
    assert ChaptersValid(chapters, counters.chapter);
    assert CommentsValid(comments, comment.id.n, counters.chapter);
  }

  /** Recording a first vote on comment k and retallying it keeps the invariant. */
  lemma FirstVoteKeepsInvariant(db: Db, counters: Counters, k: nat, v: CommentVote)
    requires Invariant(db, counters) && k < |db.comments| && v.commentId == db.comments[k].id
    requires VoteSlot(db.commentVotes, v.commentId, v.voterId).None?
    ensures Invariant(db.(comments := db.comments[k := Retallied(db.comments[k], None, v.value)],
                          commentVotes := db.commentVotes + [v]), counters.(vote := counters.vote + 1))
  {
    var comments := db.comments[k := Retallied(db.comments[k], None, v.value)];
    FirstVoteKeepsTallies(db.comments, db.commentVotes, k, v);
    FirstVoteKeepsPairsUnique(db.commentVotes, v);
    forall i | 0 <= i < |db.chapters| ensures db.chapters[i].commentCount == CommentCount(comments, db.chapters[i].id) {
      CommentCountSameChapters(db.comments, comments, db.chapters[i].id);
    }
    assert CommentCountsAgree(db.chapters, comments);
    assert CommentsValid(comments, counters.comment, counters.chapter);
    assert (db.commentVotes + [v])[|db.commentVotes|] == v;
    assert VotesValid(comments, db.commentVotes + [v], counters.comment);
  }

  /** Switching stored vote s on comment k to the other value and retallying keeps the
      invariant. */
  lemma SwitchVoteKeepsInvariant(db: Db, counters: Counters, k: nat, s: nat, value: VoteValue, now: int)
    requires Invariant(db, counters) && k < |db.comments| && s < |db.commentVotes|
    requires db.commentVotes[s].commentId == db.comments[k].id && db.commentVotes[s].value != value
    ensures Invariant(db.(comments := db.comments[k := Retallied(db.comments[k], Some(db.commentVotes[s].value), value)],
                          commentVotes := db.commentVotes[s := db.commentVotes[s].(value := value, createdAt := now)]), counters)
  {
    var comments := db.comments[k := Retallied(db.comments[k], Some(db.commentVotes[s].value), value)];
    var votes := db.commentVotes[s := db.commentVotes[s].(value := value, createdAt := now)];
    SwitchVoteKeepsTallies(db.comments, db.commentVotes, k, s, value, now);
    SwitchVoteKeepsPairsUnique(db.commentVotes, s, value, now);
    forall i | 0 <= i < |db.chapters| ensures db.chapters[i].commentCount == CommentCount(comments, db.chapters[i].id) {
      CommentCountSameChapters(db.comments, comments, db.chapters[i].id);
    }
    assert CommentCountsAgree(db.chapters, comments);
    assert CommentsValid(comments, counters.comment, counters.chapter);
    assert VotesValid(comments, votes, counters.comment);
  }

  /** Appending a reaction to chapter k and raising its reactionCount keeps the invariant. */
  lemma AddReactionKeepsInvariant(db: Db, counters: Counters, k: nat, x: Reaction)
    requires Invariant(db, counters) && k < |db.chapters| && x.chapterId == db.chapters[k].id
    ensures var c := db.chapters[k];
      Invariant(db.(reactions := db.reactions + [x], chapters := db.chapters[k := c.(reactionCount := c.reactionCount + 1)]),
                counters.(reaction := counters.reaction + 1))
  {
    var c := db.chapters[k];
    var chapters := db.chapters[k := c.(reactionCount := c.reactionCount + 1)];
    var reactions := db.reactions + [x];
    forall i | 0 <= i < |chapters| ensures chapters[i].reactionCount == ReactionCount(reactions, chapters[i].id) {
      ReactionCountAppend(db.reactions, x, chapters[i].id);
    }
    assert reactions[|db.reactions|] == x;
    assert ReactionCountsAgree(chapters, reactions);
    assert PageCountsAgree(chapters, db.pages);
    assert CommentCountsAgree(chapters, db.comments);
    assert ChaptersValid(chapters, counters.chapter);
    assert ReactionsValid(reactions, counters.chapter);
  }

  /** Renaming, re-describing or re-stamping user k keeps the invariant when the new name is
      free (or unchanged). */
  lemma SetUserKeepsInvariant(db: Db, counters: Counters, k: nat, u: User)
    requires Invariant(db, counters) && k < |db.users| && u.id == db.users[k].id
    requires u.username == db.users[k].username || !UsernameTakenBy(db.users, u.id, u.username)
    ensures Invariant(db.(users := db.users[k := u]), counters)
  {
    var renamed := db.users[k := db.users[k].(username := u.username)];
    if u.username != db.users[k].username {
      RenameKeepsUnique(db.users, k, u.username);
    } else {
      assert renamed == db.users;
    }
    var users := db.users[k := u];
    assert forall i :: 0 <= i < |users| ==> users[i].id == renamed[i].id && users[i].username == renamed[i].username;
    assert UsersValid(users);
  }
}
