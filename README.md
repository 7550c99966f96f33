# Engagement engine of a serialized-comics backend, in Dafny

This project models the in-memory engine in `lib/api.ts`: one mutable store that holds the
platform's users, series, chapters, pages, comments, comment votes, reactions, follows,
notifications and reports. Beside the store sit a per-actor rate limiter and the id counters.
The project proves what the engine promises about that store.

- **Store** (`store.dfy`, module `Api`). The class `Api.Store` has three fields, which its methods update in place:
  - `db`: the ten tables, a record of sequences (`Schema.Db`);
  - `rateState`: the last comment and reaction stamps and the vote history per actor, three maps;
  - `counters`: the ten id counters, a record (`Schema.Counters`).

  Each exported mutation of the source is one method with the same name:
  - `createChapterDraft`, `addPageToDraft`, `reorderDraftPages`, `publishChapter`, `unpublishChapter`, `replacePublishedPageImage`;
  - `addComment`, `voteComment`, `addReaction`, `followCreator`, `unfollowCreator`, `reportTarget`, `markAllNotificationsRead`, `updateProfile`.

  Every method:
  - runs the source's checks in the source's order, as a `…Refusal` function that names the first failing check;
  - returns `Err(e)` with nothing written when a check fails;
  - otherwise states the whole new store.

  `Store.Valid()` is the store invariant, and every method keeps it. It requires:
  - ids are unique and not above their counter;
  - pages, comments, reactions and votes refer only to chapter and comment ids already minted;
  - every page number is positive;
  - `status == Published` exactly when `publishedAt` is set;
  - `pageCount`, `commentCount` and `reactionCount` agree with the page, comment and reaction records;
  - `score == upvoteCount - downvoteCount`, and the tallies agree with the vote records;
  - a (voter, comment) pair has at most one vote;
  - follow edges are unique and nobody follows themself;
  - usernames are unique;
  - no actor's vote history is longer than the daily limit.

  The source's loops stay loops:
  - the renumbering `forEach` of `reorderDraftPages`;
  - the follower loop of `publishChapter`;
  - the counting loop of `markAllNotificationsRead`;
  - the grouping loop of `getPageThread`.
- **Supporting modules.** Their invariants are stated as functions with lemmas, and the `Store` methods rely on them:
  - `Schema`: the store's records and invariant, with one lemma per kind of write;
  - `Guard`: sign-in and ownership checks;
  - `RateLimit`: the two-window vote limiter and the single-stamp cooldowns;
  - `Ledger`: comments, votes, reactions, follows, notifications and usernames;
  - `Lifecycle`: pages, reordering, publish and unpublish, and the follower fan-out;
  - `Text`: JavaScript `trim()` and UTF-16 `length`.
- **Reads.** These are pure functions over the tables:
  - `Views`: the overlay stream and the page thread;
  - `Discovery`: chapters by series, the home feed with its badges, and rankings.

  `Seqs` holds the array primitives they use: `filter`, `find`/`findIndex`, `slice`, and the stable comparator sort.

Modelling choices:
- **Clock.** `now()` is an explicit integer-millisecond parameter, read once per operation.
- **Ids.** An id is the abstract value `Id(prefix, n)`. `nextId` bumps the counter and mints `Id(prefix, counter + 1)`.
- **Missing caller ids.** An absent or empty user id is `None`.
- **Comment parents.** `parentCommentId` is `ParentRef`: `NoParent` for `null`, `EmptyParent` for the empty string, which `addComment` stores as given, or `Parent(id)`. The thread's top-level filter tests `=== null` and its reply filter tests truthiness, so an `EmptyParent` comment is in neither (`Views.EmptyParentUnlisted`).
- **Failures.** `MutationResult<T>` is `Result<T>`, and each failure is an `Error` constructor. Most constructors stand for one message. `NotChapterOwner` stands for the five ownership messages "You cannot edit / reorder / publish / unpublish / update this chapter." (lib/api.ts:668, 720, 764, 805, 846), because the model does not keep message text.

Where the source's code and its stated design differ, the model follows the code:
- `addComment` does not check that a reply's parent exists, is in the same chapter, or is top-level.
- The vote limiter records the new stamp before the target comment is looked up.
- Thread replies are not filtered by `isDeleted`.
- `reorderDraftPages` accepts an order with repeated ids; `Lifecycle.DuplicateOrderBreaksNumbering` shows the page numbering this leaves behind.

## Model

| member | source | states |
|---|---|---|
| Schema.Counters.Bump | lib/api.ts:99-102 | minting an id raises exactly that prefix's counter by one and leaves the other nine alone |
| Schema.MintKeepsInvariant | lib/api.ts:86-102 | raising a counter keeps every stored id at or below its counter, so the store invariant survives |
| Schema.AddChapterKeepsInvariant | lib/api.ts:632-649 | appending a fresh DRAFT chapter with zeroed counts keeps the store invariant (status/publishedAt agreement, unique ids, per-chapter counts) |
| Schema.AddPageKeepsInvariant | lib/api.ts:680-699 | appending a page to chapter k and raising its `pageCount` by one keeps every chapter's `pageCount` equal to its number of page records |
| Schema.SetChapterKeepsInvariant | lib/api.ts:776-779 | replacing a chapter by one with the same id and counts whose status agrees with `publishedAt` keeps the invariant |
| Schema.RenumberKeepsInvariant | lib/api.ts:737-743 | renumbering a chapter's pages changes no page's chapter, so per-chapter page counts and ids are kept |
| Schema.SetImageKeepsInvariant | lib/api.ts:858 | replacing one page's `imageUrl` keeps the invariant |
| Schema.AddCommentKeepsInvariant | lib/api.ts:914-915 | appending a fresh comment with zero tallies and raising its chapter's `commentCount` keeps comment counts and vote tallies in agreement |
| Schema.FirstVoteKeepsInvariant | lib/api.ts:971-987 | appending a first vote and retallying its comment keeps tallies equal to the vote records and one vote per pair |
| Schema.SwitchVoteKeepsInvariant | lib/api.ts:959-987 | rewriting an existing vote to the other value and retallying keeps tallies and pair-uniqueness |
| Schema.AddReactionKeepsInvariant | lib/api.ts:1025-1026 | appending a reaction and raising its chapter's `reactionCount` keeps reaction counts in agreement |
| Schema.SetUserKeepsInvariant | lib/api.ts:509-529 | rewriting a user with the same id and a name nobody else holds keeps ids and usernames unique |
| Guard.FindUser | lib/api.ts:106-111 | no user for an absent id; otherwise the first user whose id matches, and none exists exactly when no record matches |
| Guard.FindUserAfterSet | lib/api.ts:106-111 | rewriting the found user with a record of the same id leaves `findUser` at the same record |
| Guard.AssertAuthed | lib/api.ts:126-135 | "Sign in required" exactly when no user matches, "restricted" when the matching user is banned, and a pass exactly when the user exists and is not banned |
| Guard.ChapterIndex | lib/api.ts:231 | the first chapter with that id, and none exactly when no chapter carries it |
| Guard.SeriesById | lib/api.ts:229 | the first series with that id, as `find` returns, and none exactly when no series carries it |
| Guard.ChapterIndexUnique | lib/api.ts:231 | under unique ids the lookup finds exactly the chapter holding the id |
| Seqs.Filter | lib/api.ts:313 | `filter` keeps only satisfying elements and never grows |
| Seqs.FilterMembers | lib/api.ts:313 | an element is in the filtered sequence exactly when it is in the input and satisfies the predicate |
| Seqs.FilterMultiset | lib/api.ts:313 | filtering keeps each satisfying element with its full multiplicity and drops the rest |
| Seqs.FilterCounts | lib/api.ts:313 | every element keeps its multiplicity when it satisfies the predicate and is dropped otherwise |
| Seqs.FilterSorted | lib/api.ts:315 | filtering a sorted sequence leaves it sorted |
| Seqs.FirstIndex | lib/api.ts:231 | `findIndex`: the first index whose element satisfies the predicate, none exactly when no element does |
| Seqs.SortPermutes | lib/api.ts:183 | the comparator sort is a permutation of its input |
| Seqs.SortSorted | lib/api.ts:183 | under a total-preorder comparator the sort's output is ordered by it |
| Seqs.InsertPermutes | lib/api.ts:183 | one insertion step adds exactly the inserted element |
| Seqs.InsertSorted | lib/api.ts:183 | inserting into an ordered sequence keeps it ordered |
| Seqs.InsertAt | lib/api.ts:183 | one insertion step puts the element at one position and keeps the rest in order around it |
| Seqs.TakeSubMultiset | lib/api.ts:324 | `slice(0, n)` holds no element more often than the whole list |
| Seqs.TakeSortedKeepsFirst | lib/api.ts:324 | what `slice` drops from a sorted sequence comes after everything it keeps |
| Seqs.TopOfSorted | lib/api.ts:321-329 | the first n of a sorted copy: drawn from the list with no element more often than in it, ordered, and nothing left out precedes a kept one |
| Seqs.FlatMapAppend | lib/api.ts:262 | mapping each element to a list and joining distributes over concatenation |
| Seqs.FlatMapInsert | lib/api.ts:262 | one insertion step adds exactly the inserted element's list to the joined result |
| Seqs.FlatMapOfSort | lib/api.ts:262 | sorting before mapping and joining only reorders the result |
| Text.LeadingWhitespace | lib/api.ts:889 | the length of the leading run of JavaScript whitespace/line terminators |
| Text.TrailingWhitespaceStart | lib/api.ts:889 | where the trailing whitespace run starts |
| Text.Trim | lib/api.ts:889 | `trim()` as the slice between the two runs; `TrimBounds`, `TrimIdempotent` and `TrimEmptyIff` state its properties |
| Text.TrimBounds | lib/api.ts:889 | `trim()` is the slice between the leading and trailing whitespace runs, and its ends are not whitespace |
| Text.TrimIdempotent | lib/api.ts:889 | trimming twice is trimming once |
| Text.TrimEmptyIff | lib/api.ts:890 | the trimmed text is empty exactly when every character is whitespace |
| Text.Utf16Length | lib/api.ts:894 | JavaScript `length` counts UTF-16 code units: between one and two per character, zero only for the empty string |
| RateLimit.KeepAfter | lib/api.ts:248 | pruning keeps exactly the stamps newer than the cut-off, and as many as it counts |
| RateLimit.VoteLimitError | lib/api.ts:237-246 | the limiter's refusal, minute window first; `VoteRefusedIff` states when it refuses |
| RateLimit.RecordedVotes | lib/api.ts:248 | the history written back on acceptance; `RecordedVotesWindow`, `AcceptedHistoryBounded` and `AcceptedWindowsBounded` state what it holds |
| RateLimit.CountAfterPruned | lib/api.ts:237-248 | after pruning at the day boundary, counting at any later boundary gives the same answer as before pruning |
| RateLimit.VoteRefusedIff | lib/api.ts:233-246 | a vote is refused exactly when at least 20 stamps are inside the last minute or at least 300 inside the last day |
| RateLimit.RecordedVotesWindow | lib/api.ts:248 | an accepted vote leaves the history holding exactly `now` and the old stamps newer than a day ago |
| RateLimit.AcceptedHistoryBounded | lib/api.ts:233-250 | an accepted vote never leaves more than 300 stamps |
| RateLimit.AcceptedWindowsBounded | lib/api.ts:233-250 | after an accepted vote the minute window holds at most 20 stamps and the day window at most 300 |
| RateLimit.CooldownBlocksRepeat | lib/api.ts:881-882 | once an actor's stamp is set (non-zero), a second attempt inside the cooldown is refused |
| RateLimit.CooldownPerActor | lib/api.ts:916 | stamping one actor never changes another actor's cooldown |
| Ledger.CommentBodyError | lib/api.ts:889-896 | a body is accepted exactly when it is not all whitespace and its trimmed UTF-16 length is at most 140; "empty" exactly when it is all whitespace |
| Ledger.CommentCount | lib/api.ts:915 | the number of comment records of a chapter, what `commentCount` must equal; `CommentCountAppend`, `CommentCountSameChapters` and `CommentCountAbsent` state how writes change it |
| Ledger.AcceptedBodyIsTrimmed | lib/api.ts:905 | a stored comment body is already trimmed and starts and ends with a non-whitespace character |
| Ledger.CommentCountAppend | lib/api.ts:914-915 | appending a comment raises exactly its chapter's comment count by one |
| Ledger.CommentCountSameChapters | lib/api.ts:915 | rewriting comments without moving them between chapters keeps every chapter's count |
| Ledger.CommentCountAbsent | lib/api.ts:915 | a chapter no comment references has count zero |
| Ledger.CommentById | lib/api.ts:919 | `find` by id: a stored comment with that id, none exactly when no comment has it |
| Ledger.ReplyRecipient | lib/api.ts:918-927 | a REPLY goes only to the author of an existing parent named by id, never for a `null` or `""` parent, and never to the commenter themself |
| Ledger.ReplyNotifiesOthersOnly | lib/api.ts:918-927 | replying to stored comment k notifies its author exactly when that author is not the replier |
| Ledger.VoteSlot | lib/api.ts:956 | the stored vote of that voter on that comment, none exactly when there is none |
| Ledger.Retallied | lib/api.ts:963-987 | the retallied comment differs only in its tallies and score, and its score equals up minus down |
| Ledger.FirstVoteTally | lib/api.ts:971-986 | a first vote raises exactly the matching tally by one |
| Ledger.SwitchVoteMovesScoreByTwo | lib/api.ts:963-987 | switching +1 to -1 lowers `upvoteCount` by one, raises `downvoteCount` by one, and lowers the score by exactly 2 |
| Ledger.VoteCountAppend | lib/api.ts:972 | appending a vote raises exactly its (comment, value) count by one |
| Ledger.VoteCountUpdate | lib/api.ts:968 | rewriting one vote moves one unit between the old and new (comment, value) counts |
| Ledger.VoteCountAbsent | lib/api.ts:972 | a comment with no votes counts zero of each value |
| Ledger.FirstVoteKeepsTallies | lib/api.ts:971-987 | a first vote with retally keeps every comment's tallies equal to its vote records |
| Ledger.SwitchVoteKeepsTallies | lib/api.ts:959-987 | a switched vote with retally keeps every comment's tallies equal to its vote records |
| Ledger.NewCommentKeepsTallies | lib/api.ts:909-914 | a new comment with zero tallies and no votes keeps tallies in agreement |
| Ledger.TalliesMatch | lib/api.ts:963-987 | every comment's up and down tallies equal its vote records and its score is up minus down; the vote lemmas prove each write keeps it |
| Ledger.FirstVoteKeepsPairsUnique | lib/api.ts:956-978 | appending a vote only when the pair has none keeps one vote per (voter, comment) |
| Ledger.SwitchVoteKeepsPairsUnique | lib/api.ts:968-969 | rewriting a vote's value and stamp keeps one vote per pair |
| Ledger.IsCommentCollapsed | lib/api.ts:1126 | `score <= -5`; `CollapseByVotes` restates it in vote records |
| Ledger.CollapseByVotes | lib/api.ts:1126 | a comment is collapsed exactly when its downvotes exceed its upvotes by at least 5 |
| Ledger.ReactionCount | lib/api.ts:1026 | the number of reaction records of a chapter, what `reactionCount` must equal; `ReactionCountAppend` and `ReactionCountAbsent` state how writes change it |
| Ledger.ReactionCountAppend | lib/api.ts:1025-1026 | appending a reaction raises exactly its chapter's reaction count by one |
| Ledger.ReactionCountAbsent | lib/api.ts:1026 | a chapter no reaction references has count zero |
| Ledger.FollowSlot | lib/api.ts:1047 | the first follow edge of that (follower, creator) pair, none exactly when there is none |
| Ledger.RemoveAt | lib/api.ts:1071 | `splice(i, 1)` removes exactly element i and keeps the order of the rest |
| Ledger.FollowKeepsWellFormed | lib/api.ts:1052-1059 | adding a new, non-self follow edge keeps edges unique and creates the edge |
| Ledger.UnfollowRemovesEdge | lib/api.ts:1069-1072 | removing the found edge leaves no edge for that pair and keeps every other edge |
| Ledger.UnreadCount | lib/api.ts:458-463 | the number of a user's unread notifications |
| Ledger.MarkedRead | lib/api.ts:458-463 | marking keeps the list's length and sets `isRead` on precisely the user's notifications |
| Ledger.MarkedReadLeavesNoneUnread | lib/api.ts:458-463 | after marking, the user has no unread notification and every other user's unread count is unchanged |
| Ledger.MarkedReadIdempotent | lib/api.ts:451-466 | marking twice is marking once |
| Ledger.MarkAllRead | lib/api.ts:457-465 | the loop marks the notifications as `MarkedRead` says and returns the user's former unread count |
| Ledger.RenameKeepsUnique | lib/api.ts:512-518 | taking a username no other user holds keeps usernames unique |
| Lifecycle.PagesOf | lib/api.ts:313 | exactly the pages of that chapter |
| Lifecycle.PageCount | lib/api.ts:698 | the number of page records of a chapter, what `pageCount` must equal; the `PageCount…` lemmas state how writes change it |
| Lifecycle.PageCountAppend | lib/api.ts:697-698 | appending a page raises exactly its chapter's page count by one |
| Lifecycle.PageCountSameChapters | lib/api.ts:739-740 | rewriting pages without moving them between chapters keeps every chapter's page count |
| Lifecycle.PageCountAbsent | lib/api.ts:644 | a chapter with no page records has page count zero |
| Lifecycle.ChapterPages | lib/api.ts:307-316 | no pages for an unknown chapter; otherwise exactly that chapter's pages with a positive number |
| Lifecycle.ListedPagesMembers | lib/api.ts:312-315 | the listed pages are exactly the chapter's pages numbered above zero |
| Lifecycle.ListedPagesSorted | lib/api.ts:314 | the listed pages ascend by page number |
| Lifecycle.ListedPagesCount | lib/api.ts:312-315 | when every page number is positive the listing holds all of the chapter's pages |
| Lifecycle.PageIds | lib/api.ts:732 | the ids of the pages, position by position |
| Lifecycle.ReorderError | lib/api.ts:728-735 | "must include all pages" exactly when the lengths differ; "invalid payload" exactly when the lengths agree and some id is not one of the chapter's pages; repeated ids pass |
| Lifecycle.LastPosition | lib/api.ts:737-743 | the 1-based position of an id's last occurrence, the one a later `forEach` write leaves |
| Lifecycle.ReorderedPages | lib/api.ts:737-743 | renumbering keeps the length and renumbers each page independently of the others |
| Lifecycle.ReorderFrame | lib/api.ts:737-743 | renumbering changes only `pageNumber`, touches no other chapter's page, and keeps page counts |
| Lifecycle.ReorderStep | lib/api.ts:738-741 | one `forEach` step writes its index + 1 into the matching page and nothing else |
| Lifecycle.PageById | lib/api.ts:738 | `pageById.get`: the listed page with that id, none exactly when there is none |
| Lifecycle.ReorderedNothing | lib/api.ts:737 | an empty order renumbers nothing |
| Lifecycle.ReorderSkip | lib/api.ts:739 | an id with no page is skipped |
| Lifecycle.RenumberListed | lib/api.ts:737-743 | the `forEach` loop produces exactly `ReorderedPages` |
| Lifecycle.ReorderPositions | lib/api.ts:737-743 | with no repeated ids the page at position i of the order gets number i + 1 |
| Lifecycle.ReorderDense | lib/api.ts:723-743 | an order that is a permutation of the chapter's pages leaves them numbered densely 1..N with no repeats |
| Lifecycle.ReorderInRange | lib/api.ts:737-743 | every renumbered page lands in 1..order length |
| Lifecycle.ReorderDistinct | lib/api.ts:737-743 | with unique page ids renumbered pages get distinct numbers |
| Lifecycle.ReorderSlots | lib/api.ts:737-743 | each renumbered page takes the position of its id in the order |
| Lifecycle.ReorderCovers | lib/api.ts:737-743 | with no repeated ids, every number 1..order length is taken by some page |
| Lifecycle.RenumberedSlot | lib/api.ts:739-740 | a page whose id is in the order gets the position of its last occurrence |
| Lifecycle.RenumberedHit | lib/api.ts:739-740 | the page named at position m ends up numbered m |
| Lifecycle.DuplicateOrderBreaksNumbering | lib/api.ts:728-743 | the order [a, a, b] over pages a, b, c passes both checks, yet leaves numbers 2, 3, 3, which are not dense |
| Lifecycle.ReorderMovesLastToFront | lib/api.ts:737-743 | reordering [A, B, C] to [C, A, B] numbers C = 1, A = 2, B = 3 |
| Lifecycle.AppendKeepsDense | lib/api.ts:680-698 | appending page N + 1 to a densely numbered 1..N chapter keeps it dense for 1..N + 1 |
| Lifecycle.PageSlot | lib/api.ts:853 | the first page of that chapter with that number, as `find` returns, and none exactly when there is none |
| Lifecycle.StatusAgrees | lib/api.ts:776-779 | PUBLISHED exactly when `publishedAt` is set; the publish and unpublish lemmas keep it |
| Lifecycle.PublishError | lib/api.ts:767-774 | publishing is refused exactly when the chapter is already published or has no page, with "already published" first |
| Lifecycle.PublishedChapter | lib/api.ts:776-779 | a published chapter has status PUBLISHED, `publishedAt = now` and the listed page count, and keeps its identity |
| Lifecycle.SecondPublishRefused | lib/api.ts:767-769 | publishing a chapter that was just published is always refused |
| Lifecycle.UnpublishError | lib/api.ts:808-820 | unpublishing is allowed exactly when the chapter is published and has neither a live comment nor any reaction |
| Lifecycle.UnpublishedChapter | lib/api.ts:822-824 | an unpublished chapter is DRAFT with no `publishedAt` and keeps its pages |
| Lifecycle.ReactionPinsPublished | lib/api.ts:813-820 | once a chapter has a reaction, no later state lets it be unpublished |
| Lifecycle.FollowersOf | lib/api.ts:781 | exactly the follow edges whose creator is the chapter's creator |
| Lifecycle.FanOut | lib/api.ts:782-788 | one notification per follower |
| Lifecycle.FanOutOnePerFollower | lib/api.ts:782-788 | notification i goes to follower i, is unread, has type FOLLOWED_CREATOR_NEW_CHAPTER and the chapter's payload, and takes the next fresh id |
| Lifecycle.FanOutRecipients | lib/api.ts:781-788 | after a publish, someone is notified exactly when they follow the chapter's creator |
| Api.ChapterEditRefusal | lib/api.ts:756-766 | a chapter edit passes exactly when the actor is signed in and unbanned, the chapter exists and the actor created it; each failure names its check |
| Api.AddPageRefusal | lib/api.ts:656-678 | adding a page passes exactly when the edit checks pass, the chapter is DRAFT and holds fewer than 80 listed pages |
| Api.AddPageLimits | lib/api.ts:671-678 | a published chapter takes no page, and a draft with 80 pages takes no more |
| Api.ReorderRefusal | lib/api.ts:708-735 | reordering passes exactly when the edit checks pass, the chapter is DRAFT and the order passes the length and membership checks |
| Api.PublishRefusal | lib/api.ts:752-774 | publishing passes exactly when the edit checks pass, the chapter is DRAFT and has at least one page |
| Api.UnpublishRefusal | lib/api.ts:793-820 | unpublishing passes exactly when the edit checks pass, the chapter is PUBLISHED and has no engagement |
| Api.ReplaceImageRefusal | lib/api.ts:835-856 | replacing passes exactly when the edit checks pass, the chapter is PUBLISHED and a page has that number |
| Api.CommentRefusal | lib/api.ts:870-896 | a comment passes exactly when the actor is signed in, the chapter is published, the actor is out of cooldown and the body is valid; the failures come in that order |
| Api.ReactionRefusal | lib/api.ts:997-1013 | a reaction passes exactly when the actor is signed in, the chapter is published and the actor is out of the 1000 ms cooldown |
| Api.LiveCommentSlot | lib/api.ts:947 | the first comment with that id that is not deleted, none exactly when there is none |
| Api.VoteTargetRefusal | lib/api.ts:947-954 | the vote target passes exactly when a live comment has that id and its chapter is published |
| Api.CreatorSlot | lib/api.ts:1042 | the first user with that id who is a creator, none exactly when there is none |
| Api.FollowRefusal | lib/api.ts:1033-1045 | a follow passes exactly when the actor is signed in, is not the creator, and the creator exists |
| Api.Patched | lib/api.ts:512-529 | the returned user is the edited record stamped active now: id, creator and ban flags kept, a trimmed username or avatar only when non-empty after trimming, any given bio trimmed |
| Api.PatchIdempotent | lib/api.ts:512-529 | applying the same profile patch twice gives the same user as applying it once |
| Api.Edited | lib/api.ts:512-527 | before the stamp: id, flags and `lastActiveAt` kept, a trimmed username or avatar only when non-empty after trimming, any given bio trimmed |
| Api.Store.constructor | lib/api.ts:65-102 | the store starts from any tables, limiter state and counters that satisfy the invariant |
| Api.Store.NextId | lib/api.ts:99-102 | mints `Id(prefix, counter + 1)`, raises only that counter and changes nothing else |
| Api.Store.PushNotification | lib/api.ts:218-227 | appends one unread notification with the next notification id and changes nothing else |
| Api.Store.TouchUser | lib/api.ts:209-214 | sets `lastActiveAt` of the first matching user, or changes nothing when no user matches; `updateProfile` reaches it through `WriteProfile` |
| Api.Store.EnforceVoteRateLimit | lib/api.ts:233-250 | returns the limiter's verdict; on acceptance the actor's history becomes the pruned stamps plus `now`, and on refusal nothing changes |
| Api.Store.SetChapter | lib/api.ts:776-779 | replaces one chapter record with one of the same id and counts, and keeps the invariant |
| Api.Store.InsertChapter | lib/api.ts:632-648 | appends a DRAFT chapter with fresh id, null `publishedAt` and zero counts |
| Api.Store.CreateChapterDraft | lib/api.ts:617-650 | fails, with nothing written, exactly when the actor is not signed in, is banned, or does not own the series, each with its own error; otherwise appends the fresh DRAFT chapter and returns it |
| Api.Store.InsertPage | lib/api.ts:681-699 | appends a page with fresh id and raises the chapter's `pageCount` by one |
| Api.Store.AddPageToDraft | lib/api.ts:652-702 | fails exactly when `AddPageRefusal` names a check, with nothing written; otherwise appends a page numbered page count + 1, raises `pageCount` by exactly one and changes no other page |
| Api.Store.RenumberPages | lib/api.ts:737-743 | the pages become `ReorderedPages` of the order and nothing else changes |
| Api.Store.ReorderDraftPages | lib/api.ts:704-750 | fails exactly when `ReorderRefusal` names a check, with nothing written; otherwise renumbers the chapter's pages by the order, stamps `updatedAt` and returns the new listing |
| Api.Store.NotifyFollowers | lib/api.ts:781-788 | the loop appends `FanOut` of the followers, one fresh notification each |
| Api.Store.PublishChapter | lib/api.ts:752-791 | fails exactly when `PublishRefusal` names a check, with nothing written; otherwise publishes the chapter with its page count and notifies each follower of its creator once |
| Api.Store.Announce | lib/api.ts:776-788 | writes the published chapter, then fans the notice out to the creator's followers |
| Api.Store.UnpublishChapter | lib/api.ts:793-827 | fails exactly when `UnpublishRefusal` names a check, with nothing written; otherwise reverts the chapter to DRAFT with no `publishedAt` |
| Api.Store.ReplacePublishedPageImage | lib/api.ts:829-862 | fails with nothing written when `ReplaceImageRefusal` names a check; otherwise changes only the matching page's `imageUrl` and the chapter's `updatedAt` |
| Api.Store.SetPageImage | lib/api.ts:858-859 | changes only one page's `imageUrl` and the chapter's `updatedAt` |
| Api.Store.InsertComment | lib/api.ts:898-916 | appends a fresh comment with zero tallies, raises the chapter's `commentCount` by one, and stamps the author's cooldown |
| Api.Store.PostComment | lib/api.ts:898-927 | stores the comment, then pushes one REPLY notification exactly when `ReplyRecipient` names someone |
| Api.Store.AddComment | lib/api.ts:864-930 | a refusal changes no table, counter or limiter state; otherwise the trimmed comment is stored, `commentCount` rises by one, `lastCommentAt` becomes `now`, and a REPLY goes to the parent's author only when that author differs |
| Api.Store.InsertVote | lib/api.ts:971-987 | appends the first vote of this voter on the comment and retallies it |
| Api.Store.SwitchVote | lib/api.ts:959-987 | rewrites the existing vote's value and stamp and moves one unit between the tallies |
| Api.Store.CastVote | lib/api.ts:956-988 | the same value again changes nothing; another value switches the existing vote; a first vote appends one |
| Api.Store.VoteComment | lib/api.ts:932-989 | refuses unsigned or limited actors with nothing written; once the limiter accepts, the stamp is recorded even when the target is then refused; otherwise it casts the vote as `CastVote` describes |
| Api.Store.InsertReaction | lib/api.ts:1016-1027 | appends a fresh reaction, raises `reactionCount` by one and stamps the actor's reaction cooldown |
| Api.Store.AddReaction | lib/api.ts:991-1030 | a refusal changes nothing; otherwise one reaction is appended, `reactionCount` rises by exactly one and `lastReactionAt` becomes `now` |
| Api.Store.FollowCreator | lib/api.ts:1032-1061 | fails exactly when `FollowRefusal` names a check; a repeat follow returns the existing edge with nothing written; otherwise one fresh edge is appended |
| Api.Store.UnfollowCreator | lib/api.ts:1063-1075 | any signed-in actor succeeds; the pair's edge is spliced out when present, and afterwards no edge for the pair remains |
| Api.Store.ReportTarget | lib/api.ts:1077-1102 | a signed-in actor's report is appended as OPEN with a fresh id; otherwise nothing changes |
| Api.Store.MarkAllNotificationsRead | lib/api.ts:451-466 | a signed-in actor's notifications all become read and the call returns how many were unread; otherwise nothing changes |
| Api.Store.UpdateProfile | lib/api.ts:498-531 | refuses unsigned or banned actors and a username held by another user with nothing written; otherwise the actor's record becomes `Patched` and is returned, and usernames stay unique |
| Api.Store.WriteProfile | lib/api.ts:518-529 | the edited record replaces the actor's, then `touchUser` stamps it; the new record is returned and the invariant kept |
| Views.LivePageComments | lib/api.ts:322 | exactly the non-deleted comments on that chapter page |
| Views.PageReactions | lib/api.ts:327 | exactly the reactions on that chapter page |
| Views.OverlayComments | lib/api.ts:321-324 | the overlay holds min(12, live comments on the page) comments; each is a live page comment shown no more often than it is stored; they run newest first; no omitted comment is newer than a kept one |
| Views.NewestCommentsTop | lib/api.ts:321-324 | the newest-first slice of live page comments: its length, a sub-multiset of the live comments, ordered newest first, and no omitted comment newer than a kept one |
| Views.OverlayReactions | lib/api.ts:326-329 | the overlay holds min(24, page reactions) reactions; each is a page reaction shown no more often than it is stored; they run newest first; no omitted reaction is newer than a kept one |
| Views.NewestReactionsTop | lib/api.ts:326-329 | the newest-first slice of page reactions: its length, a sub-multiset of the page reactions, ordered newest first, and no omitted reaction newer than a kept one |
| Views.ReactingNowBounded | lib/api.ts:331-333 | the distinct actors reacting within 30 s number at most the reactions |
| Views.ReactingNowCountBounded | lib/api.ts:331-333 | `reactingNowCount` (distinct users among the returned reactions younger than 30 000 ms) never exceeds the number of returned reactions, which is at most 24 |
| Views.GetOverlayStream | lib/api.ts:320-340 | the overlay value; `OverlayComments`, `OverlayReactions` and `ReactingNowCountBounded` state its parts |
| Views.ThreadOrderIsPreorder | lib/api.ts:351-362 | both thread comparators (TOP: pinned, score, recency; NEW: recency) are total preorders, so the stable sort orders by them |
| Views.TopLevelComments | lib/api.ts:343-349 | exactly the non-deleted comments on that page whose parent is `null` |
| Views.PageReplies | lib/api.ts:365-367 | exactly the comments on that page whose parent is an id, deleted ones included, each as often as it is stored |
| Views.RepliesTo | lib/api.ts:368-372 | exactly the replies naming that parent |
| Views.RepliesToNamesParent | lib/api.ts:368-372 | a parent no reply names has no replies |
| Views.RepliesToCounts | lib/api.ts:368-372 | each reply naming the parent is in its group exactly as often as in the list |
| Views.PageThreadOf | lib/api.ts:342-381 | the thread as a value; `ThreadTopLevel` and `ThreadReplies` state its parts |
| Views.GroupRepliesIsRepliesTo | lib/api.ts:365-373 | the grouping has a key exactly for each named parent, and each group is exactly that parent's replies in order |
| Views.GroupByParent | lib/api.ts:364-373 | the grouping loop builds exactly the dictionary `GroupReplies` describes |
| Views.GetPageThread | lib/api.ts:342-381 | sorting the top-level comments and the groups the loop builds gives the thread `PageThreadOf` defines |
| Views.GroupedThread | lib/api.ts:365-375 | the reply groups are the grouped replies, each sorted oldest first |
| Views.ThreadTopLevel | lib/api.ts:343-362 | the thread's list is a permutation of the live top-level page comments; under TOP it is pinned first, then higher score, then newer; under NEW it is newest first |
| Views.ThreadReplies | lib/api.ts:364-375 | a group exists exactly for each parent some page reply names; each holds every page reply naming that parent, deleted ones included, exactly as often as it is stored, oldest first |
| Views.EmptyParentUnlisted | lib/api.ts:343-373 | a comment stored with parent `""` is in neither the top-level list nor any reply group |
| Discovery.ChaptersBySeries | lib/api.ts:299-305 | the visible chapters of a series, sorted; `ChaptersBySeriesVisible` states what it holds |
| Discovery.ChaptersBySeriesVisible | lib/api.ts:299-305 | exactly the series' chapters that are published, or all of them when the viewer owns the series, each as often as it is stored, ordered by chapter number descending |
| Discovery.ActivePublished | lib/api.ts:177-178 | the published chapters, sorted; `ActivePublishedIsPublished` states what it holds |
| Discovery.ActivePublishedIsPublished | lib/api.ts:177-178 | exactly the published chapters, each as often as it is stored, most recently published first |
| Discovery.RecencyHours | lib/api.ts:142 | the recency divisor is never below one hour |
| Discovery.FeedScore | lib/api.ts:141-145 | `computeFeedScore`; `FeedScoreParts` states its recency boost and comment weight |
| Discovery.FeedScoreParts | lib/api.ts:141-145 | the feed score is the weighted sum of views, comments, reactions, rating and followers plus a recency boost in (0, 24]: 24 within the first hour, 24/72 when unpublished; one more comment adds exactly 2 |
| Discovery.FeedOrder | lib/api.ts:180-207 | the comparator each feed type sorts by |
| Discovery.SortByFeedType | lib/api.ts:180-207 | the feed sort; `SortByFeedTypeOrders` states what it guarantees |
| Discovery.SortByFeedTypeOrders | lib/api.ts:180-207 | each feed sort permutes its input; NEW orders by publish time, MOST_DISCUSSED by comments, RISING by its score, all descending |
| Discovery.BuildFeedItem | lib/api.ts:147-175 | no item exactly when the series or creator is missing; otherwise the item carries the chapter's ids, comment and view counts, NEW exactly when it was published less than 48 h ago, TRENDING exactly when its score exceeds 70, NEW first when both apply |
| Discovery.FeedItems | lib/api.ts:262 | an item is listed exactly when some chapter builds it, and there are never more items than chapters |
| Discovery.Resolving | lib/api.ts:147-155 | the chapters whose series and creator exist, the ones `buildFeedItem` turns into an item |
| Discovery.ItemsOf | lib/api.ts:262 | one chapter's item as a list of zero or one |
| Discovery.FeedItemsAt | lib/api.ts:262 | there are as many items as resolving chapters, and item i is built from the i-th resolving chapter, so items keep the chapters' order |
| Discovery.FeedItemsIsFlatMap | lib/api.ts:262 | mapping and dropping the nulls is joining the zero-or-one item lists |
| Discovery.FeedItemsOfSort | lib/api.ts:260-262 | sorting the chapters first only reorders the items |
| Discovery.HomeFeed | lib/api.ts:260-263 | `getHomeFeed`; `HomeFeedIsPublished` states what it holds |
| Discovery.HomeFeedIsPublished | lib/api.ts:260-263 | an item is in the home feed exactly when some published chapter builds it; the feed is a reordering of the items of the published chapters, so it holds one item per published chapter whose series and creator resolve; a MOST_DISCUSSED feed runs from the most comments down |
| Discovery.HomeFeedPermutes | lib/api.ts:260-263 | the feed is a reordering of the items of the published chapters in store order, and has one item per published chapter whose series and creator resolve |
| Discovery.HomeFeedMostDiscussed | lib/api.ts:260-263 | a MOST_DISCUSSED feed (sorted by the comparator at lib/api.ts:185) runs from the most comments down |
| Discovery.HomeFeedMembers | lib/api.ts:260-263 | an item is in the feed exactly when some published chapter builds it |
| Discovery.FallbackEntries | lib/api.ts:424-429 | the fallback row i has rank i + 1, the chapter at index i and its fallback score |
| Discovery.FallbackTop | lib/api.ts:423-424 | the first ten of the active published chapters: min(10, published) published chapters, newest first, none left out newer than one kept |
| Discovery.FallbackRows | lib/api.ts:423-430 | the fallback rows over those chapters: count, series, fallback score, rank i + 1 and newest-first order |
| Discovery.RollupEntries | lib/api.ts:432-445 | the rollup mapping never adds rows |
| Discovery.RowFor | lib/api.ts:434-443 | the row of a resolving item shows the chapter it names, that chapter's series, and the item's score and rank |
| Discovery.RollupEntriesAt | lib/api.ts:432-445 | there are as many rows as resolving items, and row i is the row of the i-th one |
| Discovery.RollupEntriesResolve | lib/api.ts:432-445 | the rows number the rollup items less those whose chapter does not resolve; row i is the row of the i-th resolving item: its chapter, that chapter's series, and the item's score and rank, in item order |
| Discovery.RankingsFallback | lib/api.ts:423-430 | with no rollup for (period, type) the rankings are the min(10, published) most recently published chapters, no published chapter left out being newer than one kept, each with its series and fallback score, ranked 1.. newest first |
| Discovery.RankingsFromRollup | lib/api.ts:421-445 | with a rollup for (period, type), the first such rollup supplies the rows: row i is the i-th item whose chapter resolves, with that chapter, its series, and the item's score and rank |
| Discovery.GetRankings | lib/api.ts:420-446 | `getRankings`; `RankingsFallback` and `RankingsFromRollup` state its two cases |

## Left out

- Aliasing: the source returns the live record, which later writes change, but the model returns a copy of the value at the time.
- Floating point: feed scores, RISING scores and the fallback ranking score are exact `real` arithmetic, so IEEE rounding is not captured.
- The TRENDING comparator returns 0 when either series is missing. That is not a consistent ordering, so the model's stable sort may place such chapters differently from the engine's `sort`; only NEW, MOST_DISCUSSED and RISING orderings are proved.
- Discovery.SortByFeedTypeOrders: proves no ordering for TRENDING, because of the inconsistent comparator above.
- Discovery.HomeFeedIsPublished: carries only the MOST_DISCUSSED order onto the feed items, because an item keeps the chapter's `commentCount` but not its `publishedAt`, `reactionCount` or follower count, so the NEW and RISING orders are stated on the sorted chapters (`SortByFeedTypeOrders`) and item order follows them by `FeedItemsAt`.
- String formats: ids are abstract `Id(prefix, n)` values rather than `${prefix}_${n}` strings, and storage ids, picsum URLs (`coverUrl`) and page dimensions are not modelled.
- The starting state: `deepClone` and the seed data are not modelled. The store starts from any state satisfying the invariant, including counters other than 100. The invariant requires every page number to be positive, which no operation breaks, so starting states with a page numbered 0 or below are excluded and the `pageNumber > 0` filter of `getChapterPages` (lib/api.ts:315) never drops a page in the model.
- `searchDiscovery`: it depends on Unicode `toLowerCase`/`includes`.
- Other operations outside the engagement engine: `loginWithProvider` (random usernames), `createSeries`, `updateSeries`, `getCreatorProfile`, `getCreatorStats`, `getNotifications`, `listSeries`, `listCreators` and the session helpers.
- Concurrency: each operation is one atomic method that reads the clock once, where the source calls `now()` several times within one synchronous call.
- updateProfile's "User not found" branch (lib/api.ts:508-510): unreachable after `assertAuthed` has found the user, so it is not modelled.
- Empty-string caller ids: an empty or missing caller user id is `None`, matching the truthiness test in `findUser` (lib/api.ts:107). Comment parents keep `""` apart from `null` (`ParentRef`).
- Parent ids that are built-in object keys: `repliesByParentId` is a plain `{}`, so a `parentCommentId` such as "constructor" or "toString" finds an inherited member, and the `push` at lib/api.ts:371 throws. Ids are abstract, so the model cannot name such a string, and `Views.GetPageThread` always returns a thread.
- Reply group order: `repliesByParentId` is a `map`, so the insertion order of the source object's keys, which `Object.values` (lib/api.ts:375) and callers see, is not kept.
- Usernames: the store invariant keeps usernames unique, but `loginWithProvider` (lib/api.ts:480) picks `${provider}_reader_` with a random number below 1000 without checking, so reachable states with two equal usernames are excluded. No modelled operation's result depends on it.
- Numbers: `pageNumber` and `chapterNumber` are `int`, while the source takes any JavaScript number from the caller. Fractional values and `NaN` are not modelled; a comment or reaction with a `NaN` page number would never match its own page, so it would never be listed.
- Record fields the engine never reads or writes are dropped, for example storage ids, dimensions, provider, reputation and series tags.
- Page density is not part of the store invariant, because a reorder with repeated ids breaks it. `Lifecycle.DuplicateOrderBreaksNumbering` exhibits this, and `Lifecycle.ReorderDense` proves density for permutations.
- UTF-16: `Text.Utf16Length` counts two units for characters above U+FFFF, but lone surrogates in source strings are not distinguished.
- The React/Next components, the browser session plumbing and the caller-side de-duplication of overlay items are UI code and are not part of this model.
