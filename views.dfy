/** The read-side aggregations of a reader page: the overlay stream of recent comments and
    reactions (`getOverlayStream`, lib/api.ts:320-340) and the page thread with its
    three-key comparator and reply grouping (`getPageThread`, lib/api.ts:342-381). */
module Views {
  import opened Types
  import opened Seqs

  // ----- overlay stream -----

  datatype OverlayStream = OverlayStream(comments: seq<Comment>, reactions: seq<Reaction>, reactingNowCount: nat)

  /** The comparator `(a, b) => b.createdAt - a.createdAt`, as "may precede". */
  const CommentNewestFirst: (Comment, Comment) -> bool := (a: Comment, b: Comment) => a.createdAt >= b.createdAt

  const ReactionNewestFirst: (Reaction, Reaction) -> bool := (a: Reaction, b: Reaction) => a.createdAt >= b.createdAt

  /** The live comments on one page, in store order. */
  function LivePageComments(comments: seq<Comment>, chapterId: Id, pageNumber: int): (r: seq<Comment>)
    ensures forall c :: c in r <==> c in comments && c.chapterId == chapterId && c.pageNumber == pageNumber && !c.isDeleted
  {
    var p := (c: Comment) => c.chapterId == chapterId && c.pageNumber == pageNumber && !c.isDeleted;
    FilterMembers(comments, p);
    Filter(comments, p)
  }

  /** The reactions on one page, in store order. */
  function PageReactions(reactions: seq<Reaction>, chapterId: Id, pageNumber: int): (r: seq<Reaction>)
    ensures forall x :: x in r <==> x in reactions && x.chapterId == chapterId && x.pageNumber == pageNumber
  {
    var p := (x: Reaction) => x.chapterId == chapterId && x.pageNumber == pageNumber;
    FilterMembers(reactions, p);
    Filter(reactions, p)
  }

  /** The users behind the reactions younger than ReactingNowWindowMs. */
  function ReactingNow(reactions: seq<Reaction>, now: int): set<Id> {
    set x | x in reactions && now - x.createdAt < ReactingNowWindowMs :: x.userId
  }

  /** `getOverlayStream`: the 12 newest live comments and the 24 newest reactions of a page,
      newest first, and the number of distinct users among those reactions who reacted
      within the last 30 seconds. */
  function GetOverlayStream(comments: seq<Comment>, reactions: seq<Reaction>, chapterId: Id, pageNumber: int, now: int): OverlayStream {
    var rs := NewestReactions(reactions, chapterId, pageNumber);
    OverlayStream(NewestComments(comments, chapterId, pageNumber), rs, |ReactingNow(rs, now)|)
  }

  function NewestComments(comments: seq<Comment>, chapterId: Id, pageNumber: int): seq<Comment> {
    Take(Sort(LivePageComments(comments, chapterId, pageNumber), CommentNewestFirst), OverlayCommentLimit)
  }

  function NewestReactions(reactions: seq<Reaction>, chapterId: Id, pageNumber: int): seq<Reaction> {
    Take(Sort(PageReactions(reactions, chapterId, pageNumber), ReactionNewestFirst), OverlayReactionLimit)
  }

  /** The overlay's comments: at most 12, each a live comment of the page shown no more often
      than it is stored, newest first, and no live comment of the page left out is newer than
      one shown. */
  lemma OverlayComments(comments: seq<Comment>, reactions: seq<Reaction>, chapterId: Id, pageNumber: int, now: int)
    ensures var r := GetOverlayStream(comments, reactions, chapterId, pageNumber, now).comments;
      && |r| == (if |LivePageComments(comments, chapterId, pageNumber)| < OverlayCommentLimit
                 then |LivePageComments(comments, chapterId, pageNumber)| else OverlayCommentLimit)
      && multiset(r) <= multiset(LivePageComments(comments, chapterId, pageNumber))
      && (forall c :: c in r ==> c in comments && c.chapterId == chapterId && c.pageNumber == pageNumber && !c.isDeleted)
      && (forall i, j :: 0 <= i < j < |r| ==> r[i].createdAt >= r[j].createdAt)
      && (forall c :: c in LivePageComments(comments, chapterId, pageNumber) && c !in r ==>
            forall i :: 0 <= i < |r| ==> r[i].createdAt >= c.createdAt)
  {
    NewestCommentsTop(comments, chapterId, pageNumber);
  }

  lemma NewestCommentsTop(comments: seq<Comment>, chapterId: Id, pageNumber: int)
    ensures var r := NewestComments(comments, chapterId, pageNumber);
      && |r| == (if |LivePageComments(comments, chapterId, pageNumber)| < OverlayCommentLimit
                 then |LivePageComments(comments, chapterId, pageNumber)| else OverlayCommentLimit)
      && multiset(r) <= multiset(LivePageComments(comments, chapterId, pageNumber))
      && (forall c :: c in r ==> c in comments && c.chapterId == chapterId && c.pageNumber == pageNumber && !c.isDeleted)
      && (forall i, j :: 0 <= i < j < |r| ==> r[i].createdAt >= r[j].createdAt)
      && (forall c :: c in LivePageComments(comments, chapterId, pageNumber) && c !in r ==>
            forall i :: 0 <= i < |r| ==> r[i].createdAt >= c.createdAt)
  {
    TopOfSorted(LivePageComments(comments, chapterId, pageNumber), OverlayCommentLimit, CommentNewestFirst);
  }

  /** The overlay's reactions: at most 24, each a reaction of the page shown no more often
      than it is stored, newest first, and no reaction of the page left out is newer than one
      shown. */
  lemma OverlayReactions(comments: seq<Comment>, reactions: seq<Reaction>, chapterId: Id, pageNumber: int, now: int)
    ensures var r := GetOverlayStream(comments, reactions, chapterId, pageNumber, now).reactions;
      && |r| == (if |PageReactions(reactions, chapterId, pageNumber)| < OverlayReactionLimit
                 then |PageReactions(reactions, chapterId, pageNumber)| else OverlayReactionLimit)
      && multiset(r) <= multiset(PageReactions(reactions, chapterId, pageNumber))
      && (forall x :: x in r ==> x in reactions && x.chapterId == chapterId && x.pageNumber == pageNumber)
      && (forall i, j :: 0 <= i < j < |r| ==> r[i].createdAt >= r[j].createdAt)
      && (forall x :: x in PageReactions(reactions, chapterId, pageNumber) && x !in r ==>
            forall i :: 0 <= i < |r| ==> r[i].createdAt >= x.createdAt)
  {
    NewestReactionsTop(reactions, chapterId, pageNumber);
  }

  lemma NewestReactionsTop(reactions: seq<Reaction>, chapterId: Id, pageNumber: int)
    ensures var r := NewestReactions(reactions, chapterId, pageNumber);
      && |r| == (if |PageReactions(reactions, chapterId, pageNumber)| < OverlayReactionLimit
                 then |PageReactions(reactions, chapterId, pageNumber)| else OverlayReactionLimit)
      && multiset(r) <= multiset(PageReactions(reactions, chapterId, pageNumber))
      && (forall x :: x in r ==> x in reactions && x.chapterId == chapterId && x.pageNumber == pageNumber)
      && (forall i, j :: 0 <= i < j < |r| ==> r[i].createdAt >= r[j].createdAt)
      && (forall x :: x in PageReactions(reactions, chapterId, pageNumber) && x !in r ==>
            forall i :: 0 <= i < |r| ==> r[i].createdAt >= x.createdAt)
  {
    TopOfSorted(PageReactions(reactions, chapterId, pageNumber), OverlayReactionLimit, ReactionNewestFirst);
  }

  /** A set of users drawn from a list of reactions has no more members than the list. */
  lemma {:induction false} ReactingNowBounded(reactions: seq<Reaction>, now: int)
    ensures |ReactingNow(reactions, now)| <= |reactions|
  {
    if |reactions| > 0 {
      var init := reactions[..|reactions| - 1];
      var last := reactions[|reactions| - 1];
      ReactingNowBounded(init, now);
      assert reactions == init + [last];
      if now - last.createdAt < ReactingNowWindowMs {
        assert ReactingNow(reactions, now) == ReactingNow(init, now) + {last.userId};
      } else {
        assert ReactingNow(reactions, now) == ReactingNow(init, now);
      }
    }
  }

  /** `reactingNowCount` never exceeds the number of reactions shown, so it is at most 24;
      several recent reactions by one user count once. */
  lemma ReactingNowCountBounded(comments: seq<Comment>, reactions: seq<Reaction>, chapterId: Id, pageNumber: int, now: int)
    ensures var o := GetOverlayStream(comments, reactions, chapterId, pageNumber, now);
      o.reactingNowCount <= |o.reactions| <= OverlayReactionLimit
  {
    var o := GetOverlayStream(comments, reactions, chapterId, pageNumber, now);
    ReactingNowBounded(o.reactions, now);
  }

  // ----- page thread -----

  datatype PageThread = PageThread(comments: seq<Comment>, repliesByParentId: map<Id, seq<Comment>>)

  /** The TOP comparator as "may precede": pinned first, then higher score, then newer. */
  const TopFirst: (Comment, Comment) -> bool := (a: Comment, b: Comment) =>
    if a.isPinned != b.isPinned then a.isPinned
    else if a.score != b.score then a.score > b.score
    else a.createdAt >= b.createdAt

  /** The comparator `getPageThread` sorts top-level comments with. */
  function ThreadOrder(sort: ThreadSort): (Comment, Comment) -> bool {
    match sort
    case SortNew => CommentNewestFirst
    case SortTop => TopFirst
  }

  const OldestFirst: (Comment, Comment) -> bool := (a: Comment, b: Comment) => a.createdAt <= b.createdAt

  lemma ThreadOrderIsPreorder(sort: ThreadSort)
    ensures TotalPreorder(ThreadOrder(sort))
  {
  }

  /** The live top-level comments of a page, in store order. */
  function TopLevelComments(comments: seq<Comment>, chapterId: Id, pageNumber: int): (r: seq<Comment>)
    ensures forall c :: c in r <==>
      c in comments && c.chapterId == chapterId && c.pageNumber == pageNumber && !c.isDeleted && c.parentCommentId.NoParent?
  {
    var p := (c: Comment) => c.chapterId == chapterId && c.pageNumber == pageNumber && !c.isDeleted && c.parentCommentId.NoParent?;
    FilterMembers(comments, p);
    Filter(comments, p)
  }

  /** The replies on a page: every comment of the page naming a parent, deleted or not. */
  function PageReplies(comments: seq<Comment>, chapterId: Id, pageNumber: int): (r: seq<Comment>)
    ensures forall c :: c in r <==> c in comments && c.chapterId == chapterId && c.pageNumber == pageNumber && c.parentCommentId.Parent?
    ensures forall i :: 0 <= i < |r| ==> r[i].parentCommentId.Parent?
    ensures forall c :: multiset(r)[c] ==
                        (if c.chapterId == chapterId && c.pageNumber == pageNumber && c.parentCommentId.Parent?
                         then multiset(comments)[c] else 0)
  {
    var p := (c: Comment) => c.chapterId == chapterId && c.pageNumber == pageNumber && c.parentCommentId.Parent?;
    FilterMembers(comments, p);
    FilterCounts(comments, p);
    Filter(comments, p)
  }

  /** The replies naming one parent, in list order (recursion from the end, as the loop
      appends). */
  function RepliesTo(replies: seq<Comment>, parentId: Id): (r: seq<Comment>)
    ensures forall c :: c in r <==> c in replies && c.parentCommentId == Parent(parentId)
  {
    if |replies| == 0 then []
    else
      var last := replies[|replies| - 1];
      assert replies == replies[..|replies| - 1] + [last];
      RepliesTo(replies[..|replies| - 1], parentId) + (if last.parentCommentId == Parent(parentId) then [last] else [])
  }

  /** Each reply naming the parent appears in its group as often as in the list. */
  lemma {:induction false} RepliesToCounts(replies: seq<Comment>, parentId: Id, c: Comment)
    ensures multiset(RepliesTo(replies, parentId))[c] == if c.parentCommentId == Parent(parentId) then multiset(replies)[c] else 0
  {
    if |replies| > 0 {
      var init, last := replies[..|replies| - 1], replies[|replies| - 1];
      RepliesToCounts(init, parentId, c);
      assert replies == init + [last];
      assert multiset(replies) == multiset(init) + multiset{last};
      var tail := if last.parentCommentId == Parent(parentId) then [last] else [];
      assert RepliesTo(replies, parentId) == RepliesTo(init, parentId) + tail;
      assert multiset(RepliesTo(replies, parentId)) == multiset(RepliesTo(init, parentId)) + multiset(tail);
    }
  }

  /** The parents named by a list of replies. */
  function ParentIds(replies: seq<Comment>): set<Id> {
    set c | c in replies && c.parentCommentId.Parent? :: c.parentCommentId.id
  }

  lemma RepliesToNamesParent(replies: seq<Comment>, parentId: Id)
    ensures parentId !in ParentIds(replies) ==> RepliesTo(replies, parentId) == []
  {
    var r := RepliesTo(replies, parentId);
    if |r| > 0 {
      assert r[0] in r;
    }
  }

  /** `getPageThread` as a value: the ordered top-level comments, and for every parent named
      on the page the replies naming it, oldest first. */
  function PageThreadOf(comments: seq<Comment>, chapterId: Id, pageNumber: int, sort: ThreadSort): PageThread {
    var replies := PageReplies(comments, chapterId, pageNumber);
    PageThread(
      Sort(TopLevelComments(comments, chapterId, pageNumber), ThreadOrder(sort)),
      map pid | pid in ParentIds(replies) :: Sort(RepliesTo(replies, pid), OldestFirst))
  }

  /** The dictionary the loop of `getPageThread` has built after the given replies, before
      its groups are sorted. */
  function GroupReplies(replies: seq<Comment>): map<Id, seq<Comment>>
    requires forall i :: 0 <= i < |replies| ==> replies[i].parentCommentId.Parent?
  {
    if |replies| == 0 then map[]
    else
      var g := GroupReplies(replies[..|replies| - 1]);
      var pid := replies[|replies| - 1].parentCommentId.id;
      g[pid := (if pid in g then g[pid] else []) + [replies[|replies| - 1]]]
  }

  /** The loop's dictionary holds, per parent named, exactly the replies naming it in list order. */
  lemma {:induction false} GroupRepliesIsRepliesTo(replies: seq<Comment>)
    requires forall i :: 0 <= i < |replies| ==> replies[i].parentCommentId.Parent?
    ensures var g := GroupReplies(replies);
      && (forall pid :: pid in g <==> pid in ParentIds(replies))
      && (forall pid :: pid in g ==> g[pid] == RepliesTo(replies, pid))
  {
    if |replies| > 0 {
      var init, last := replies[..|replies| - 1], replies[|replies| - 1];
      GroupRepliesIsRepliesTo(init);
      assert replies == init + [last];
      var g := GroupReplies(replies);
      forall pid ensures pid in g <==> pid in ParentIds(replies) {
        assert pid in ParentIds(replies) <==> pid in ParentIds(init) || pid == last.parentCommentId.id;
      }
      forall pid | pid in g ensures g[pid] == RepliesTo(replies, pid) {
        if pid != last.parentCommentId.id {
          assert pid in ParentIds(init);
        } else {
          RepliesToNamesParent(init, pid);
        }
      }
    }
  }

  /** `getPageThread`: the top-level list is sorted by the chosen comparator; the grouping loop
      runs over the page's replies, then each group is sorted oldest first. */
  method GetPageThread(comments: seq<Comment>, chapterId: Id, pageNumber: int, sort: ThreadSort) returns (t: PageThread)
    ensures t == PageThreadOf(comments, chapterId, pageNumber, sort)
  {
    var ordered := Sort(TopLevelComments(comments, chapterId, pageNumber), ThreadOrder(sort));
    var groups := GroupByParent(PageReplies(comments, chapterId, pageNumber));
    t := PageThread(ordered, SortedGroups(groups));
    GroupedThread(comments, chapterId, pageNumber, sort);
  }

  /** The grouping loop of `getPageThread`: each reply is appended to its parent's list,
      which is created on first sight. */
  method GroupByParent(replies: seq<Comment>) returns (groups: map<Id, seq<Comment>>)
    requires forall i :: 0 <= i < |replies| ==> replies[i].parentCommentId.Parent?
    ensures groups == GroupReplies(replies)
  {
    groups := map[];
    var i := 0;
    while i < |replies|
      invariant 0 <= i <= |replies|
      invariant groups == GroupReplies(replies[..i])
    {
      var reply := replies[i];
      var parentId := reply.parentCommentId.id;
      if parentId !in groups {
        groups := groups[parentId := []];
      }
      groups := groups[parentId := groups[parentId] + [reply]];
      assert replies[..i + 1][..i] == replies[..i];
      i := i + 1;
    }
    assert replies[..|replies|] == replies;
  }

  /** The closing `forEach` of `getPageThread`: every group sorted oldest first. */
  function SortedGroups(groups: map<Id, seq<Comment>>): map<Id, seq<Comment>> {
    map pid | pid in groups :: Sort(groups[pid], OldestFirst)
  }

  /** Sorting the loop's groups gives the thread's reply dictionary. */
  lemma GroupedThread(comments: seq<Comment>, chapterId: Id, pageNumber: int, sort: ThreadSort)
    ensures var replies := PageReplies(comments, chapterId, pageNumber);
      var groups := GroupReplies(replies);
      PageThreadOf(comments, chapterId, pageNumber, sort).repliesByParentId == SortedGroups(groups)
  {
    GroupRepliesIsRepliesTo(PageReplies(comments, chapterId, pageNumber));
  }

  /** The thread lists exactly the live top-level comments of the page, each once per record,
      in the chosen order. Under TOP that is pinned first, then higher score, then newer;
      under NEW it is newer first. */
  lemma ThreadTopLevel(comments: seq<Comment>, chapterId: Id, pageNumber: int, sort: ThreadSort)
    ensures var r := PageThreadOf(comments, chapterId, pageNumber, sort).comments;
      && multiset(r) == multiset(TopLevelComments(comments, chapterId, pageNumber))
      && (forall c :: c in r <==>
            c in comments && c.chapterId == chapterId && c.pageNumber == pageNumber && !c.isDeleted && c.parentCommentId.NoParent?)
      && (sort == SortNew ==> forall i, j :: 0 <= i < j < |r| ==> r[i].createdAt >= r[j].createdAt)
      && (sort == SortTop ==> forall i, j :: 0 <= i < j < |r| ==>
            && (r[j].isPinned ==> r[i].isPinned)
            && (r[i].isPinned == r[j].isPinned ==> r[i].score >= r[j].score)
            && (r[i].isPinned == r[j].isPinned && r[i].score == r[j].score ==> r[i].createdAt >= r[j].createdAt))
  {
    var top := TopLevelComments(comments, chapterId, pageNumber);
    ThreadOrderIsPreorder(sort);
    SortSorted(top, ThreadOrder(sort));
    SortPermutes(top, ThreadOrder(sort));
  }

  /** The reply groups: one per parent named on the page, holding the page's replies naming
      it (deleted ones included), each as often as it is stored, oldest first. */
  lemma ThreadReplies(comments: seq<Comment>, chapterId: Id, pageNumber: int, sort: ThreadSort)
    ensures var g: map<Id, seq<Comment>> := PageThreadOf(comments, chapterId, pageNumber, sort).repliesByParentId;
      && (forall pid :: pid in g <==> exists c :: c in comments && c.chapterId == chapterId && c.pageNumber == pageNumber && c.parentCommentId == Parent(pid))
      && (forall pid :: pid in g ==>
            && (forall c :: c in g[pid] <==> c in comments && c.chapterId == chapterId && c.pageNumber == pageNumber && c.parentCommentId == Parent(pid))
            && (forall c :: multiset(g[pid])[c] ==
                  if c.chapterId == chapterId && c.pageNumber == pageNumber && c.parentCommentId == Parent(pid)
                  then multiset(comments)[c] else 0)
            && (forall i, j :: 0 <= i < j < |g[pid]| ==> g[pid][i].createdAt <= g[pid][j].createdAt))
  {
    var replies := PageReplies(comments, chapterId, pageNumber);
    var g: map<Id, seq<Comment>> := PageThreadOf(comments, chapterId, pageNumber, sort).repliesByParentId;
    forall pid ensures pid in g <==> exists c :: c in comments && c.chapterId == chapterId && c.pageNumber == pageNumber && c.parentCommentId == Parent(pid) {
      if c :| c in comments && c.chapterId == chapterId && c.pageNumber == pageNumber && c.parentCommentId == Parent(pid) {
        assert c in replies;
      }
    }
    forall pid: Id | pid in g
      ensures forall c :: c in g[pid] <==> c in comments && c.chapterId == chapterId && c.pageNumber == pageNumber && c.parentCommentId == Parent(pid)
      ensures forall c :: multiset(g[pid])[c] ==
                          (if c.chapterId == chapterId && c.pageNumber == pageNumber && c.parentCommentId == Parent(pid)
                           then multiset(comments)[c] else 0)
      ensures forall i, j :: 0 <= i < j < |g[pid]| ==> g[pid][i].createdAt <= g[pid][j].createdAt
    {
      SortSorted(RepliesTo(replies, pid), OldestFirst);
      SortPermutes(RepliesTo(replies, pid), OldestFirst);
      forall c ensures multiset(g[pid])[c] ==
        if c.chapterId == chapterId && c.pageNumber == pageNumber && c.parentCommentId == Parent(pid)
        then multiset(comments)[c] else 0
      {
        RepliesToCounts(replies, pid, c);
      }
    }
  }

  /** A comment stored with the empty parent id `""` is neither top-level (`=== null` fails)
      nor a reply (`!!""` is false), so the thread shows it nowhere. */
  lemma EmptyParentUnlisted(comments: seq<Comment>, chapterId: Id, pageNumber: int, sort: ThreadSort, c: Comment)
    requires c.parentCommentId.EmptyParent?
    ensures var t := PageThreadOf(comments, chapterId, pageNumber, sort);
      && c !in t.comments
      && forall pid :: pid in t.repliesByParentId ==> c !in t.repliesByParentId[pid]
  {
    ThreadTopLevel(comments, chapterId, pageNumber, sort);
    ThreadReplies(comments, chapterId, pageNumber, sort);
  }
}
