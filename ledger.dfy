/** The engagement ledger as specification functions: comment validation and reply
    routing, the vote tallies, reaction and comment counts, follow edges, notification
    read state and username uniqueness (lib/api.ts:451-466, 498-531, 864-1102, 1126). */
module Ledger {
  import opened Types
  import opened Seqs
  import opened Text

  // ----- comments -----

  /** The refusal `addComment` gives for a body, if any: empty after trimming, or longer
      than CommentMaxLength UTF-16 code units after trimming. */
  function CommentBodyError(body: string): (r: Option<Error>)
    ensures r.None? <==> !AllWhitespace(body) && Utf16Length(Trim(body)) <= CommentMaxLength
    ensures r == Some(EmptyComment) <==> AllWhitespace(body)
    ensures r.None? ==> 1 <= |Trim(body)| <= CommentMaxLength
  {
    TrimEmptyIff(body);
    var t := Trim(body);
    if t == [] then Some(EmptyComment)
    else if Utf16Length(t) > CommentMaxLength then Some(CommentTooLong)
    else None
  }

  /** An accepted body is stored trimmed: trimming it again changes nothing, and it neither
      starts nor ends with whitespace. */
  lemma AcceptedBodyIsTrimmed(body: string)
    requires CommentBodyError(body).None?
    ensures Trim(Trim(body)) == Trim(body)
    ensures var t := Trim(body); !IsJsWhitespace(t[0]) && !IsJsWhitespace(t[|t| - 1])
  {
    TrimIdempotent(body);
    var (a, c) := TrimBounds(body);
    assert Trim(body)[0] == body[a];
    assert Trim(body)[|Trim(body)| - 1] == body[c - 1];
  }

  /** The number of comment records on a chapter: what `chapter.commentCount` must equal. */
  function CommentCount(comments: seq<Comment>, chapterId: Id): (n: nat)
    ensures n <= |comments|
  {
    if |comments| == 0 then 0
    else CommentCount(comments[..|comments| - 1], chapterId) + (if comments[|comments| - 1].chapterId == chapterId then 1 else 0)
  }

  lemma CommentCountAppend(comments: seq<Comment>, c: Comment, chapterId: Id)
    ensures CommentCount(comments + [c], chapterId) == CommentCount(comments, chapterId) + (if c.chapterId == chapterId then 1 else 0)
  {
    assert (comments + [c])[..|comments|] == comments;
  }

  /** Rewriting comment records in place without moving them keeps every chapter's count. */
  lemma {:induction false} CommentCountSameChapters(a: seq<Comment>, b: seq<Comment>, chapterId: Id)
    requires |a| == |b|
    requires forall k :: 0 <= k < |a| ==> a[k].chapterId == b[k].chapterId
    ensures CommentCount(a, chapterId) == CommentCount(b, chapterId)
  {
    if |a| > 0 {
      CommentCountSameChapters(a[..|a| - 1], b[..|b| - 1], chapterId);
    }
  }

  lemma {:induction false} CommentCountAbsent(comments: seq<Comment>, chapterId: Id)
    requires forall k :: 0 <= k < |comments| ==> comments[k].chapterId != chapterId
    ensures CommentCount(comments, chapterId) == 0
  {
    if |comments| > 0 {
      CommentCountAbsent(comments[..|comments| - 1], chapterId);
    }
  }

  /** `db.comments.find((entry) => entry._id === id)`. */
  function CommentById(comments: seq<Comment>, id: Id): (r: Option<Comment>)
    ensures r.Some? ==> r.value in comments && r.value.id == id
    ensures r.None? <==> forall k :: 0 <= k < |comments| ==> comments[k].id != id
  {
    match FirstIndex(comments, (c: Comment) => c.id == id)
    case None => None
    case Some(k) => Some(comments[k])
  }

  /** Who gets the REPLY notification for a new comment by `author` naming `parentId`:
      the parent's author, when a comment with that id exists (looked up after the new
      comment was stored) and was written by someone else. `null` and `""` are falsy and notify
      nobody. The parent is not required to be in the same chapter, on the same page, top-level,
      or live. */
  function ReplyRecipient(comments: seq<Comment>, parentId: ParentRef, author: Id): (r: Option<Id>)
    ensures r.Some? ==> (parentId.Parent? && r.value != author &&
      exists k :: 0 <= k < |comments| && comments[k].id == parentId.id && comments[k].authorId == r.value)
    ensures r.None? <==>
      !parentId.Parent? || CommentById(comments, parentId.id).None? || CommentById(comments, parentId.id).value.authorId == author
  {
    match parentId
    case NoParent => None
    case EmptyParent => None
    case Parent(pid) =>
      match CommentById(comments, pid)
      case None => None
      case Some(parent) => if parent.authorId != author then Some(parent.authorId) else None
  }

  /** A reply to one's own comment notifies nobody; a reply to someone else's existing comment
      notifies that comment's author. */
  lemma ReplyNotifiesOthersOnly(comments: seq<Comment>, k: nat, author: Id)
    requires k < |comments|
    requires forall i, j :: 0 <= i < j < |comments| ==> comments[i].id != comments[j].id
    ensures ReplyRecipient(comments, Parent(comments[k].id), author) ==
      if comments[k].authorId == author then None else Some(comments[k].authorId)
  {
    var r := CommentById(comments, comments[k].id);
    var j :| 0 <= j < |comments| && comments[j] == r.value;
    assert j == k;
  }

  // ----- votes -----

  /** The number of votes of the given value on a comment. */
  function VoteCount(votes: seq<CommentVote>, commentId: Id, value: VoteValue): (n: nat)
    ensures n <= |votes|
  {
    if |votes| == 0 then 0
    else
      var v := votes[|votes| - 1];
      VoteCount(votes[..|votes| - 1], commentId, value) + (if v.commentId == commentId && v.value == value then 1 else 0)
  }

  lemma {:induction false} VoteCountAbsent(votes: seq<CommentVote>, commentId: Id, value: VoteValue)
    requires forall k :: 0 <= k < |votes| ==> votes[k].commentId != commentId
    ensures VoteCount(votes, commentId, value) == 0
  {
    if |votes| > 0 {
      VoteCountAbsent(votes[..|votes| - 1], commentId, value);
    }
  }

  lemma VoteCountAppend(votes: seq<CommentVote>, v: CommentVote, commentId: Id, value: VoteValue)
    ensures VoteCount(votes + [v], commentId, value) ==
      VoteCount(votes, commentId, value) + (if v.commentId == commentId && v.value == value then 1 else 0)
  {
    assert (votes + [v])[..|votes|] == votes;
  }

  /** Replacing one vote record moves its contribution from the old (comment, value) to the new one. */
  lemma {:induction false} VoteCountUpdate(votes: seq<CommentVote>, k: nat, v: CommentVote, commentId: Id, value: VoteValue)
    requires k < |votes|
    ensures VoteCount(votes[k := v], commentId, value) ==
      VoteCount(votes, commentId, value)
        - (if votes[k].commentId == commentId && votes[k].value == value then 1 else 0)
        + (if v.commentId == commentId && v.value == value then 1 else 0)
  {
    var n := |votes|;
    if k == n - 1 {
      assert votes[k := v][..n - 1] == votes[..n - 1];
    } else {
      VoteCountUpdate(votes[..n - 1], k, v, commentId, value);
      assert votes[k := v][..n - 1] == votes[..n - 1][k := v];
    }
  }

  /** The stored tallies and score of every comment agree with the vote records. */
  ghost predicate TalliesMatch(comments: seq<Comment>, votes: seq<CommentVote>) {
    forall i :: 0 <= i < |comments| ==>
      && comments[i].upvoteCount == VoteCount(votes, comments[i].id, Up)
      && comments[i].downvoteCount == VoteCount(votes, comments[i].id, Down)
      && comments[i].score == comments[i].upvoteCount - comments[i].downvoteCount
  }

  /** At most one vote record per (voter, comment) pair. */
  ghost predicate OneVotePerPair(votes: seq<CommentVote>) {
    forall i, j :: 0 <= i < j < |votes| ==>
      !(votes[i].commentId == votes[j].commentId && votes[i].voterId == votes[j].voterId)
  }

  /** The index of the voter's existing vote on the comment, if any. */
  function VoteSlot(votes: seq<CommentVote>, commentId: Id, voterId: Id): (r: Option<nat>)
    ensures r.Some? ==> r.value < |votes| && votes[r.value].commentId == commentId && votes[r.value].voterId == voterId
    ensures r.None? <==> forall k :: 0 <= k < |votes| ==> !(votes[k].commentId == commentId && votes[k].voterId == voterId)
  {
    FirstIndex(votes, (v: CommentVote) => v.commentId == commentId && v.voterId == voterId)
  }

  /** The comment after a vote of `value` by a voter whose previous vote was `previous`
      (None for a first vote), when the two differ: the previous tally loses one, the new
      tally gains one, and the score is recomputed from the tallies. */
  function Retallied(c: Comment, previous: Option<VoteValue>, value: VoteValue): (r: Comment)
    requires previous != Some(value)
    ensures r.score == r.upvoteCount - r.downvoteCount
    ensures r == c.(upvoteCount := r.upvoteCount, downvoteCount := r.downvoteCount, score := r.score)
  {
    var up := c.upvoteCount - (if previous == Some(Up) then 1 else 0) + (if value == Up then 1 else 0);
    var down := c.downvoteCount - (if previous == Some(Down) then 1 else 0) + (if value == Down then 1 else 0);
    c.(upvoteCount := up, downvoteCount := down, score := up - down)
  }

  /** A first vote raises exactly the matching tally by one. */
  lemma FirstVoteTally(c: Comment, value: VoteValue)
    ensures var r := Retallied(c, None, value);
      && r.upvoteCount == c.upvoteCount + (if value == Up then 1 else 0)
      && r.downvoteCount == c.downvoteCount + (if value == Down then 1 else 0)
  {
  }

  /** Switching an upvote to a downvote moves one from the up tally to the down tally, so a
      consistent score drops by exactly 2; the reverse switch raises it by 2. */
  lemma SwitchVoteMovesScoreByTwo(c: Comment)
    requires c.score == c.upvoteCount - c.downvoteCount
    ensures var r := Retallied(c, Some(Up), Down);
      r.upvoteCount == c.upvoteCount - 1 && r.downvoteCount == c.downvoteCount + 1 && r.score == c.score - 2
    ensures Retallied(c, Some(Down), Up).score == c.score + 2
  {
  }

  /** Recording a first vote (append) and retallying its comment keeps the tallies in step
      with the vote records. */
  lemma {:induction false} FirstVoteKeepsTallies(comments: seq<Comment>, votes: seq<CommentVote>, k: nat, v: CommentVote)
    requires TalliesMatch(comments, votes)
    requires forall i, j :: 0 <= i < j < |comments| ==> comments[i].id != comments[j].id
    requires k < |comments| && v.commentId == comments[k].id
    ensures TalliesMatch(comments[k := Retallied(comments[k], None, v.value)], votes + [v])
  {
    var cs := comments[k := Retallied(comments[k], None, v.value)];
    forall i | 0 <= i < |cs|
      ensures cs[i].upvoteCount == VoteCount(votes + [v], cs[i].id, Up)
      ensures cs[i].downvoteCount == VoteCount(votes + [v], cs[i].id, Down)
      ensures cs[i].score == cs[i].upvoteCount - cs[i].downvoteCount
    {
      VoteCountAppend(votes, v, cs[i].id, Up);
      VoteCountAppend(votes, v, cs[i].id, Down);
      if i != k {
        assert comments[i].id != comments[k].id;
      }
    }
  }

  /** Changing an existing vote's value in place and retallying its comment keeps the tallies
      in step with the vote records. */
  lemma {:induction false} SwitchVoteKeepsTallies(comments: seq<Comment>, votes: seq<CommentVote>, k: nat, s: nat, value: VoteValue, now: int)
    requires TalliesMatch(comments, votes)
    requires forall i, j :: 0 <= i < j < |comments| ==> comments[i].id != comments[j].id
    requires k < |comments| && s < |votes| && votes[s].commentId == comments[k].id && votes[s].value != value
    ensures TalliesMatch(comments[k := Retallied(comments[k], Some(votes[s].value), value)],
                         votes[s := votes[s].(value := value, createdAt := now)])
  {
    var cs := comments[k := Retallied(comments[k], Some(votes[s].value), value)];
    var vs := votes[s := votes[s].(value := value, createdAt := now)];
    forall i | 0 <= i < |cs|
      ensures cs[i].upvoteCount == VoteCount(vs, cs[i].id, Up)
      ensures cs[i].downvoteCount == VoteCount(vs, cs[i].id, Down)
      ensures cs[i].score == cs[i].upvoteCount - cs[i].downvoteCount
    {
      VoteCountUpdate(votes, s, votes[s].(value := value, createdAt := now), cs[i].id, Up);
      VoteCountUpdate(votes, s, votes[s].(value := value, createdAt := now), cs[i].id, Down);
      if i != k {
        assert comments[i].id != comments[k].id;
      }
    }
  }

  /** A new comment with zero tallies that no vote names keeps the tallies in step. */
  lemma NewCommentKeepsTallies(comments: seq<Comment>, votes: seq<CommentVote>, c: Comment)
    requires TalliesMatch(comments, votes)
    requires forall k :: 0 <= k < |votes| ==> votes[k].commentId != c.id
    requires c.upvoteCount == 0 && c.downvoteCount == 0 && c.score == 0
    ensures TalliesMatch(comments + [c], votes)
  {
    VoteCountAbsent(votes, c.id, Up);
    VoteCountAbsent(votes, c.id, Down);
    assert (comments + [c])[|comments|] == c;
  }

  /** A vote by a voter with no vote on the comment yet keeps at most one vote per pair. */
  lemma FirstVoteKeepsPairsUnique(votes: seq<CommentVote>, v: CommentVote)
    requires OneVotePerPair(votes)
    requires VoteSlot(votes, v.commentId, v.voterId).None?
    ensures OneVotePerPair(votes + [v])
  {
  }

  /** Changing the value of a stored vote keeps at most one vote per pair. */
  lemma SwitchVoteKeepsPairsUnique(votes: seq<CommentVote>, s: nat, value: VoteValue, now: int)
    requires OneVotePerPair(votes) && s < |votes|
    ensures OneVotePerPair(votes[s := votes[s].(value := value, createdAt := now)])
  {
    var vs := votes[s := votes[s].(value := value, createdAt := now)];
    forall i, j | 0 <= i < j < |vs| ensures !(vs[i].commentId == vs[j].commentId && vs[i].voterId == vs[j].voterId) {
      assert vs[i].commentId == votes[i].commentId && vs[i].voterId == votes[i].voterId;
      assert vs[j].commentId == votes[j].commentId && vs[j].voterId == votes[j].voterId;
    }
  }

  /** `isCommentCollapsed`. */
  predicate IsCommentCollapsed(c: Comment) {
    c.score <= LowScoreCollapseThreshold
  }

  /** With the tallies in step, a comment collapses exactly when its downvotes outnumber its
      upvotes by at least five. */
  lemma CollapseByVotes(comments: seq<Comment>, votes: seq<CommentVote>, k: nat)
    requires TalliesMatch(comments, votes) && k < |comments|
    ensures IsCommentCollapsed(comments[k]) <==>
      VoteCount(votes, comments[k].id, Down) - VoteCount(votes, comments[k].id, Up) >= -LowScoreCollapseThreshold
  {
  }

  // ----- reactions -----

  /** The number of reaction records on a chapter: what `chapter.reactionCount` must equal. */
  function ReactionCount(reactions: seq<Reaction>, chapterId: Id): (n: nat)
    ensures n <= |reactions|
  {
    if |reactions| == 0 then 0
    else ReactionCount(reactions[..|reactions| - 1], chapterId) + (if reactions[|reactions| - 1].chapterId == chapterId then 1 else 0)
  }

  lemma ReactionCountAppend(reactions: seq<Reaction>, x: Reaction, chapterId: Id)
    ensures ReactionCount(reactions + [x], chapterId) == ReactionCount(reactions, chapterId) + (if x.chapterId == chapterId then 1 else 0)
  {
    assert (reactions + [x])[..|reactions|] == reactions;
  }

  lemma {:induction false} ReactionCountAbsent(reactions: seq<Reaction>, chapterId: Id)
    requires forall k :: 0 <= k < |reactions| ==> reactions[k].chapterId != chapterId
    ensures ReactionCount(reactions, chapterId) == 0
  {
    if |reactions| > 0 {
      ReactionCountAbsent(reactions[..|reactions| - 1], chapterId);
    }
  }

  // ----- follows -----

  /** `db.follows.findIndex(...)` for the (follower, creator) edge. */
  function FollowSlot(follows: seq<Follow>, followerId: Id, creatorId: Id): (r: Option<nat>)
    ensures r.Some? ==> r.value < |follows| && follows[r.value].followerId == followerId && follows[r.value].creatorId == creatorId
    ensures r.Some? ==> forall k :: 0 <= k < r.value ==> !(follows[k].followerId == followerId && follows[k].creatorId == creatorId)
    ensures r.None? <==> forall k :: 0 <= k < |follows| ==> !(follows[k].followerId == followerId && follows[k].creatorId == creatorId)
  {
    FirstIndex(follows, (f: Follow) => f.followerId == followerId && f.creatorId == creatorId)
  }

  ghost predicate HasEdge(follows: seq<Follow>, followerId: Id, creatorId: Id) {
    exists k :: 0 <= k < |follows| && follows[k].followerId == followerId && follows[k].creatorId == creatorId
  }

  /** No (follower, creator) edge is stored twice, and nobody follows themselves. */
  ghost predicate FollowsWellFormed(follows: seq<Follow>) {
    && (forall i, j :: 0 <= i < j < |follows| ==>
          !(follows[i].followerId == follows[j].followerId && follows[i].creatorId == follows[j].creatorId))
    && (forall i :: 0 <= i < |follows| ==> follows[i].followerId != follows[i].creatorId)
  }

  /** `splice(index, 1)`. */
  function RemoveAt<T>(s: seq<T>, i: nat): (r: seq<T>)
    requires i < |s|
    ensures |r| == |s| - 1
    ensures forall k :: 0 <= k < i ==> r[k] == s[k]
    ensures forall k :: i <= k < |r| ==> r[k] == s[k + 1]
  {
    s[..i] + s[i + 1..]
  }

  /** Appending a new edge that is not yet stored, between two different users, keeps the
      follow table well formed, and the edge is then present. */
  lemma FollowKeepsWellFormed(follows: seq<Follow>, f: Follow)
    requires FollowsWellFormed(follows)
    requires FollowSlot(follows, f.followerId, f.creatorId).None? && f.followerId != f.creatorId
    ensures FollowsWellFormed(follows + [f])
    ensures HasEdge(follows + [f], f.followerId, f.creatorId)
  {
    assert (follows + [f])[|follows|] == f;
  }

  /** Unfollowing removes the edge: with edges stored once, none is left afterwards, and every
      other edge is kept. */
  lemma UnfollowRemovesEdge(follows: seq<Follow>, followerId: Id, creatorId: Id)
    requires FollowsWellFormed(follows)
    requires FollowSlot(follows, followerId, creatorId).Some?
    ensures var r := RemoveAt(follows, FollowSlot(follows, followerId, creatorId).value);
      && !HasEdge(r, followerId, creatorId)
      && FollowsWellFormed(r)
      && forall g :: g in follows && !(g.followerId == followerId && g.creatorId == creatorId) ==> g in r
  {
    var i := FollowSlot(follows, followerId, creatorId).value;
    var r := RemoveAt(follows, i);
    forall k | 0 <= k < |r| ensures !(r[k].followerId == followerId && r[k].creatorId == creatorId) {
      if k < i {
        assert r[k] == follows[k];
      } else {
        assert r[k] == follows[k + 1];
      }
    }
    forall a, b | 0 <= a < b < |r|
      ensures !(r[a].followerId == r[b].followerId && r[a].creatorId == r[b].creatorId)
    {
      var a', b' := if a < i then a else a + 1, if b < i then b else b + 1;
      assert r[a] == follows[a'] && r[b] == follows[b'];
    }
    forall g | g in follows && !(g.followerId == followerId && g.creatorId == creatorId)
      ensures g in r
    {
      var k :| 0 <= k < |follows| && follows[k] == g;
      if k < i {
        assert r[k] == g;
      } else {
        assert k != i;
        assert r[k - 1] == g;
      }
    }
  }

  // ----- notifications -----

  /** The number of unread notifications addressed to the user. */
  function UnreadCount(ns: seq<Notification>, userId: Id): (n: nat)
    ensures n <= |ns|
  {
    if |ns| == 0 then 0
    else UnreadCount(ns[..|ns| - 1], userId) + (if ns[|ns| - 1].userId == userId && !ns[|ns| - 1].isRead then 1 else 0)
  }

  /** One notification after `markAllNotificationsRead` for the user. */
  function MarkedFor(n: Notification, userId: Id): Notification {
    if n.userId == userId then n.(isRead := true) else n
  }

  /** The notification table after `markAllNotificationsRead` for the user. */
  function MarkedRead(ns: seq<Notification>, userId: Id): (r: seq<Notification>)
    ensures |r| == |ns|
    ensures forall k :: 0 <= k < |ns| ==> r[k] == MarkedFor(ns[k], userId)
  {
    seq(|ns|, k requires 0 <= k < |ns| => MarkedFor(ns[k], userId))
  }

  /** Afterwards the user has no unread notification, and everybody else's are untouched. */
  lemma {:induction false} MarkedReadLeavesNoneUnread(ns: seq<Notification>, userId: Id, other: Id)
    requires other != userId
    ensures UnreadCount(MarkedRead(ns, userId), userId) == 0
    ensures UnreadCount(MarkedRead(ns, userId), other) == UnreadCount(ns, other)
  {
    if |ns| > 0 {
      MarkedReadLeavesNoneUnread(ns[..|ns| - 1], userId, other);
      assert MarkedRead(ns, userId)[..|ns| - 1] == MarkedRead(ns[..|ns| - 1], userId);
    }
  }

  /** Marking twice is marking once. */
  lemma MarkedReadIdempotent(ns: seq<Notification>, userId: Id)
    ensures MarkedRead(MarkedRead(ns, userId), userId) == MarkedRead(ns, userId)
  {
  }

  /** The loop of `markAllNotificationsRead`: mark the user's unread notifications read and
      count them. */
  method MarkAllRead(ns: seq<Notification>, userId: Id) returns (marked: seq<Notification>, updated: nat)
    ensures marked == MarkedRead(ns, userId)
    ensures updated == UnreadCount(ns, userId)
  {
    marked := ns;
    updated := 0;
    var i := 0;
    while i < |ns|
      invariant 0 <= i <= |ns| && |marked| == |ns|
      invariant forall k :: 0 <= k < i ==> marked[k] == MarkedFor(ns[k], userId)
      invariant forall k :: i <= k < |ns| ==> marked[k] == ns[k]
      invariant updated == UnreadCount(ns[..i], userId)
    {
      assert ns[..i + 1][..i] == ns[..i];
      if marked[i].userId == userId && !marked[i].isRead {
        marked := marked[i := marked[i].(isRead := true)];
        updated := updated + 1;
      }
      i := i + 1;
    }
    assert ns[..i] == ns;
  }

  // ----- profiles -----

  /** Another user already has this username. */
  predicate UsernameTakenBy(users: seq<User>, userId: Id, username: string) {
    exists k :: 0 <= k < |users| && users[k].id != userId && users[k].username == username
  }

  ghost predicate UsernamesUnique(users: seq<User>) {
    forall i, j :: 0 <= i < j < |users| ==> users[i].username != users[j].username
  }

  /** Renaming user k to a name nobody else holds keeps usernames unique. */
  lemma RenameKeepsUnique(users: seq<User>, k: nat, username: string)
    requires UsernamesUnique(users) && k < |users|
    requires forall i, j :: 0 <= i < j < |users| ==> users[i].id != users[j].id
    requires !UsernameTakenBy(users, users[k].id, username)
    ensures UsernamesUnique(users[k := users[k].(username := username)])
  {
    var r := users[k := users[k].(username := username)];
    forall i, j | 0 <= i < j < |r| ensures r[i].username != r[j].username {
      if i == k {
        assert users[j].id != users[k].id;
      } else if j == k {
        assert users[i].id != users[k].id;
      }
    }
  }
}
