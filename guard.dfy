/** Identity resolution, ownership checks and by-id lookups (lib/api.ts:106-139, 216-231). */
module Guard {
  import opened Types
  import opened Seqs

  /** `findUser`: the index of the first user with the given id; no id means no user. */
  function FindUser(users: seq<User>, userId: Option<Id>): (r: Option<nat>)
    ensures r.Some? ==> userId.Some? && r.value < |users| && users[r.value].id == userId.value
    ensures r.Some? ==> forall j :: 0 <= j < r.value ==> users[j].id != userId.value
    ensures r.None? <==> userId.None? || forall j :: 0 <= j < |users| ==> users[j].id != userId.value
  {
    match userId
    case None => None
    case Some(u) => FirstIndex(users, (x: User) => x.id == u)
  }

  /** Rewriting the found user with a record of the same id leaves the lookup where it was. */
  lemma FindUserAfterSet(users: seq<User>, userId: Option<Id>, k: nat, u: User)
    requires FindUser(users, userId) == Some(k) && u.id == users[k].id
    ensures FindUser(users[k := u], userId) == Some(k)
  {
    var users' := users[k := u];
    assert users'[k].id == userId.value;
  }

  /** `assertAuthed`: sign-in is required, and the account must not be banned. */
  function AssertAuthed(users: seq<User>, userId: Option<Id>): (r: Outcome)
    ensures r == Fail(SignInRequired) <==> userId.None? || forall j :: 0 <= j < |users| ==> users[j].id != userId.value
    ensures r == Fail(AccountRestricted) ==> FindUser(users, userId).Some? && users[FindUser(users, userId).value].isBanned
    ensures r.Pass? <==> FindUser(users, userId).Some? && !users[FindUser(users, userId).value].isBanned
    ensures r.Pass? || r == Fail(SignInRequired) || r == Fail(AccountRestricted)
  {
    match FindUser(users, userId)
    case None => Fail(SignInRequired)
    case Some(k) => if users[k].isBanned then Fail(AccountRestricted) else Pass
  }

  /** `ensureCreatorOwnsSeries`: some series has this id and this creator. */
  predicate EnsureCreatorOwnsSeries(series: seq<Series>, creatorId: Id, seriesId: Id) {
    exists j :: 0 <= j < |series| && series[j].id == seriesId && series[j].creatorId == creatorId
  }

  /** `isCreatorOrOwner`: in the source this is creator identity only. */
  predicate IsCreatorOrOwner(userId: Id, chapter: Chapter) {
    chapter.creatorId == userId
  }

  /** `getChapterById`, as the index of the first chapter with that id. */
  function ChapterIndex(chapters: seq<Chapter>, id: Id): (r: Option<nat>)
    ensures r.Some? ==> r.value < |chapters| && chapters[r.value].id == id
    ensures r.Some? ==> forall j :: 0 <= j < r.value ==> chapters[j].id != id
    ensures r.None? <==> forall j :: 0 <= j < |chapters| ==> chapters[j].id != id
  {
    FirstIndex(chapters, (c: Chapter) => c.id == id)
  }

  /** `getSeriesById`: the first series with that id. */
  function SeriesById(series: seq<Series>, id: Id): (r: Option<Series>)
    ensures r.Some? ==> r.value in series && r.value.id == id
    ensures r.Some? ==> exists k :: 0 <= k < |series| && series[k] == r.value && forall j :: 0 <= j < k ==> series[j].id != id
    ensures r.None? <==> forall j :: 0 <= j < |series| ==> series[j].id != id
  {
    match FirstIndex(series, (s: Series) => s.id == id)
    case None => None
    case Some(k) => Some(series[k])
  }

  /** `isChapterPublished`: the first chapter with that id exists and is PUBLISHED. */
  predicate IsChapterPublished(chapters: seq<Chapter>, id: Id) {
    ChapterIndex(chapters, id).Some? && chapters[ChapterIndex(chapters, id).value].status == Published
  }

  /** With distinct ids the first match is the only match. */
  lemma ChapterIndexUnique(chapters: seq<Chapter>, id: Id, k: nat)
    requires forall i, j :: 0 <= i < j < |chapters| ==> chapters[i].id != chapters[j].id
    requires k < |chapters| && chapters[k].id == id
    ensures ChapterIndex(chapters, id) == Some(k)
  {
  }
}
