/** The chapter lifecycle as specification functions: the page list of a chapter, the
    validation and renumbering of `reorderDraftPages`, the status edges of `publishChapter`
    and `unpublishChapter`, and the follower fan-out of a publish (lib/api.ts:307-316,
    617-862). The methods of `Api.Store` are proved against these. */
module Lifecycle {
  import opened Types
  import opened Seqs
  import opened Guard

  // ----- pages of a chapter -----

  /** The page records of one chapter, in store order. */
  function PagesOf(pages: seq<Page>, chapterId: Id): (r: seq<Page>)
    ensures forall p :: p in r <==> p in pages && p.chapterId == chapterId
  {
    FilterMembers(pages, OfChapter(chapterId));
    Filter(pages, OfChapter(chapterId))
  }

  function OfChapter(chapterId: Id): Page -> bool {
    (p: Page) => p.chapterId == chapterId
  }

  /** The number of page records a chapter owns: what `chapter.pageCount` must equal. */
  function PageCount(pages: seq<Page>, chapterId: Id): nat {
    |PagesOf(pages, chapterId)|
  }

  lemma PageCountAppend(pages: seq<Page>, p: Page, chapterId: Id)
    ensures PageCount(pages + [p], chapterId) == PageCount(pages, chapterId) + (if p.chapterId == chapterId then 1 else 0)
  {
    assert (pages + [p])[..|pages|] == pages;
  }

  /** Rewriting page records without moving them between chapters keeps every count. */
  lemma {:induction false} PageCountSameChapters(a: seq<Page>, b: seq<Page>, chapterId: Id)
    requires |a| == |b|
    requires forall k :: 0 <= k < |a| ==> a[k].chapterId == b[k].chapterId
    ensures PageCount(a, chapterId) == PageCount(b, chapterId)
  {
    if |a| > 0 {
      PageCountSameChapters(a[..|a| - 1], b[..|b| - 1], chapterId);
    }
  }

  /** A chapter no page record names has no pages. */
  lemma PageCountAbsent(pages: seq<Page>, chapterId: Id)
    requires forall k :: 0 <= k < |pages| ==> pages[k].chapterId != chapterId
    ensures PageCount(pages, chapterId) == 0
  {
    FilterNone(pages, OfChapter(chapterId));
  }

  /** The comparator `(a, b) => a.pageNumber - b.pageNumber`, as "may precede". */
  const ByPageNumber: (Page, Page) -> bool := (a: Page, b: Page) => a.pageNumber <= b.pageNumber

  const PositivePage: Page -> bool := (p: Page) => p.pageNumber > 0

  /** `getChapterPages`: nothing for an unknown chapter; otherwise the chapter's pages with a
      positive number, by ascending page number, ties kept in store order. When every page
      number is positive the list has exactly `PageCount` entries. */
  function ChapterPages(chapters: seq<Chapter>, pages: seq<Page>, chapterId: Id): (r: seq<Page>)
    ensures ChapterIndex(chapters, chapterId).None? ==> r == []
    ensures forall p :: p in r <==>
      ChapterIndex(chapters, chapterId).Some? && p in pages && p.chapterId == chapterId && p.pageNumber > 0
    ensures forall i, j :: 0 <= i < j < |r| ==> r[i].pageNumber <= r[j].pageNumber
    ensures |r| <= PageCount(pages, chapterId)
    ensures ChapterIndex(chapters, chapterId).Some? && (forall k :: 0 <= k < |pages| ==> pages[k].pageNumber > 0)
      ==> |r| == PageCount(pages, chapterId)
  {
    if ChapterIndex(chapters, chapterId).None? then []
    else
      ListedPagesMembers(pages, chapterId);
      ListedPagesSorted(pages, chapterId);
      ListedPagesCount(pages, chapterId);
      ListedPages(pages, chapterId)
  }

  /** The list `getChapterPages` builds for a chapter that exists. */
  function ListedPages(pages: seq<Page>, chapterId: Id): (r: seq<Page>)
    ensures |r| <= PageCount(pages, chapterId)
  {
    Filter(Sort(PagesOf(pages, chapterId), ByPageNumber), PositivePage)
  }

  lemma ListedPagesMembers(pages: seq<Page>, chapterId: Id)
    ensures forall p :: p in ListedPages(pages, chapterId) <==> p in pages && p.chapterId == chapterId && p.pageNumber > 0
  {
    var own := PagesOf(pages, chapterId);
    var sorted := Sort(own, ByPageNumber);
    SortPermutes(own, ByPageNumber);
    FilterMembers(sorted, PositivePage);
  }

  lemma ListedPagesSorted(pages: seq<Page>, chapterId: Id)
    ensures var r := ListedPages(pages, chapterId);
      forall i, j :: 0 <= i < j < |r| ==> r[i].pageNumber <= r[j].pageNumber
  {
    var sorted := Sort(PagesOf(pages, chapterId), ByPageNumber);
    SortSorted(PagesOf(pages, chapterId), ByPageNumber);
    FilterSorted(sorted, PositivePage, ByPageNumber);
  }

  lemma ListedPagesCount(pages: seq<Page>, chapterId: Id)
    ensures (forall k :: 0 <= k < |pages| ==> pages[k].pageNumber > 0) ==>
      |ListedPages(pages, chapterId)| == PageCount(pages, chapterId)
  {
    if forall k :: 0 <= k < |pages| ==> pages[k].pageNumber > 0 {
      var own := PagesOf(pages, chapterId);
      var sorted := Sort(own, ByPageNumber);
      SortPermutes(own, ByPageNumber);
      forall i | 0 <= i < |sorted| ensures PositivePage(sorted[i]) {
        assert sorted[i] in own;
      }
      FilterAll(sorted, PositivePage);
    }
  }

  // ----- reorderDraftPages -----

  /** The ids of a page list, in order. */
  function PageIds(ps: seq<Page>): (r: seq<Id>)
    ensures |r| == |ps|
    ensures forall i :: 0 <= i < |ps| ==> r[i] == ps[i].id
  {
    seq(|ps|, i requires 0 <= i < |ps| => ps[i].id)
  }

  /** The payload checks of `reorderDraftPages`, in the source's order: one entry per page,
      then every entry naming one of the chapter's pages. Duplicates are not refused. */
  function ReorderError(chapterPages: seq<Page>, newOrder: seq<Id>): (r: Option<Error>)
    ensures r == Some(IncompleteOrder) <==> |chapterPages| != |newOrder|
    ensures r == Some(InvalidOrder) <==>
      |chapterPages| == |newOrder| && exists i :: 0 <= i < |newOrder| && newOrder[i] !in PageIds(chapterPages)
    ensures r.None? <==>
      |chapterPages| == |newOrder| && forall i :: 0 <= i < |newOrder| ==> newOrder[i] in PageIds(chapterPages)
  {
    if |chapterPages| != |newOrder| then Some(IncompleteOrder)
    else if exists i :: 0 <= i < |newOrder| && newOrder[i] !in PageIds(chapterPages) then Some(InvalidOrder)
    else None
  }

  /** The 1-based position of the LAST occurrence of id in order: the forEach writes every
      occurrence, so the last write is the one that stays. */
  function LastPosition(order: seq<Id>, id: Id): (r: Option<nat>)
    ensures r.Some? ==> 1 <= r.value <= |order| && order[r.value - 1] == id
    ensures r.Some? ==> forall j :: r.value <= j < |order| ==> order[j] != id
    ensures r.None? <==> id !in order
  {
    if |order| == 0 then None
    else if order[|order| - 1] == id then Some(|order|)
    else
      assert order == order[..|order| - 1] + [order[|order| - 1]];
      LastPosition(order[..|order| - 1], id)
  }

  /** A page the reorder may touch: one of the chapter's listed (positive-numbered) pages. */
  predicate InChapterPages(p: Page, chapterId: Id) {
    p.chapterId == chapterId && p.pageNumber > 0
  }

  /** One page record after the forEach over `order` has run. */
  function Renumbered(p: Page, chapterId: Id, order: seq<Id>): Page {
    if InChapterPages(p, chapterId) && LastPosition(order, p.id).Some?
    then p.(pageNumber := LastPosition(order, p.id).value)
    else p
  }

  /** The page table after `reorderDraftPages` has renumbered the chapter per `order`. */
  function ReorderedPages(pages: seq<Page>, chapterId: Id, order: seq<Id>): (r: seq<Page>)
    ensures |r| == |pages|
    ensures forall k :: 0 <= k < |pages| ==> r[k] == Renumbered(pages[k], chapterId, order)
  {
    seq(|pages|, k requires 0 <= k < |pages| => Renumbered(pages[k], chapterId, order))
  }

  predicate NoDuplicates(order: seq<Id>) {
    forall i, j :: 0 <= i < j < |order| ==> order[i] != order[j]
  }

  /** order lists each of the chapter's pages exactly once. */
  predicate IsPagePermutation(order: seq<Id>, pages: seq<Page>, chapterId: Id) {
    && NoDuplicates(order)
    && |order| == PageCount(pages, chapterId)
    && (forall i {:trigger IsPageOf(pages, chapterId, order[i])} :: 0 <= i < |order| ==> IsPageOf(pages, chapterId, order[i]))
    && (forall k :: 0 <= k < |pages| && pages[k].chapterId == chapterId ==> pages[k].id in order)
  }

  /** Some page record of the chapter has this id. */
  predicate IsPageOf(pages: seq<Page>, chapterId: Id, id: Id) {
    exists k :: 0 <= k < |pages| && pages[k].chapterId == chapterId && pages[k].id == id
  }

  /** The chapter's pages are numbered 1..n, each number used exactly once. */
  ghost predicate DenseNumbering(pages: seq<Page>, chapterId: Id, n: int) {
    && (forall k :: 0 <= k < |pages| && pages[k].chapterId == chapterId ==> 1 <= pages[k].pageNumber <= n)
    && (forall k1, k2 :: 0 <= k1 < k2 < |pages| && pages[k1].chapterId == chapterId && pages[k2].chapterId == chapterId
          ==> pages[k1].pageNumber != pages[k2].pageNumber)
    && (forall m :: 1 <= m <= n ==> HasPageNumbered(pages, chapterId, m))
  }

  ghost predicate HasPageNumbered(pages: seq<Page>, chapterId: Id, m: int) {
    exists k :: 0 <= k < |pages| && pages[k].chapterId == chapterId && pages[k].pageNumber == m
  }

  /** The reorder touches only page numbers, and only those of the chapter's listed pages. */
  lemma ReorderFrame(pages: seq<Page>, chapterId: Id, order: seq<Id>)
    ensures var r := ReorderedPages(pages, chapterId, order);
      && (forall k :: 0 <= k < |pages| ==> r[k] == pages[k].(pageNumber := r[k].pageNumber))
      && (forall k :: 0 <= k < |pages| && !InChapterPages(pages[k], chapterId) ==> r[k] == pages[k])
      && (forall k :: 0 <= k < |pages| ==> (r[k].pageNumber > 0 <==> pages[k].pageNumber > 0))
      && PageCount(r, chapterId) == PageCount(pages, chapterId)
  {
    PageCountSameChapters(pages, ReorderedPages(pages, chapterId, order), chapterId);
  }

  /** One step of the forEach: writing number |order| + 1 into the chapter page with the next
      id extends the order by that id. */
  lemma ReorderStep(pages: seq<Page>, chapterId: Id, order: seq<Id>, j: nat)
    requires forall a, b :: 0 <= a < b < |pages| ==> pages[a].id != pages[b].id
    requires j < |pages| && InChapterPages(pages[j], chapterId)
    ensures var before := ReorderedPages(pages, chapterId, order);
      ReorderedPages(pages, chapterId, order + [pages[j].id]) == before[j := before[j].(pageNumber := |order| + 1)]
  {
    var id := pages[j].id;
    var o := order + [id];
    assert o[..|order|] == order;
    var before := ReorderedPages(pages, chapterId, order);
    var after := ReorderedPages(pages, chapterId, o);
    forall k | 0 <= k < |pages| ensures after[k] == before[j := before[j].(pageNumber := |order| + 1)][k] {
      if k != j {
        assert pages[k].id != id;
      }
    }
  }

  /** The index of the first page of the chapter's listed pages with this id
      (`chapterPages.find(...)` inside the forEach). */
  function PageById(pages: seq<Page>, chapterId: Id, id: Id): (r: Option<nat>)
    ensures r.Some? ==> r.value < |pages| && InChapterPages(pages[r.value], chapterId) && pages[r.value].id == id
    ensures r.None? <==> forall k :: 0 <= k < |pages| ==> !(InChapterPages(pages[k], chapterId) && pages[k].id == id)
  {
    FirstIndex(pages, (p: Page) => InChapterPages(p, chapterId) && p.id == id)
  }

  /** Before the forEach has looked at any entry, no page has changed. */
  lemma ReorderedNothing(pages: seq<Page>, chapterId: Id)
    ensures ReorderedPages(pages, chapterId, []) == pages
  {
    assert forall k :: 0 <= k < |pages| ==> ReorderedPages(pages, chapterId, [])[k] == pages[k];
  }

  /** An entry naming none of the chapter's pages changes nothing. */
  lemma ReorderSkip(pages: seq<Page>, chapterId: Id, order: seq<Id>, id: Id)
    requires forall k :: 0 <= k < |pages| ==> !(InChapterPages(pages[k], chapterId) && pages[k].id == id)
    ensures ReorderedPages(pages, chapterId, order + [id]) == ReorderedPages(pages, chapterId, order)
  {
    var o := order + [id];
    assert o[..|order|] == order;
    forall k | 0 <= k < |pages|
      ensures ReorderedPages(pages, chapterId, o)[k] == ReorderedPages(pages, chapterId, order)[k]
    {
      if InChapterPages(pages[k], chapterId) {
        assert LastPosition(o, pages[k].id) == LastPosition(order, pages[k].id);
      }
    }
  }

  /** The forEach of `reorderDraftPages` on the page table: for each entry of order, in
      order, the chapter page with that id gets the entry's 1-based position as its number. */
  method RenumberListed(listed: seq<Page>, chapterId: Id, order: seq<Id>) returns (ps: seq<Page>)
    requires forall a, b :: 0 <= a < b < |listed| ==> listed[a].id != listed[b].id
    ensures ps == ReorderedPages(listed, chapterId, order)
  {
    ps := listed;
    var i := 0;
    ReorderedNothing(listed, chapterId);
    while i < |order|
      invariant 0 <= i <= |order|
      invariant ps == ReorderedPages(listed, chapterId, order[..i])
    {
      assert order[..i + 1] == order[..i] + [order[i]];
      match PageById(listed, chapterId, order[i]) {
        case Some(j) =>
          ReorderStep(listed, chapterId, order[..i], j);
          ps := ps[j := ps[j].(pageNumber := i + 1)];
        case None =>
          ReorderSkip(listed, chapterId, order[..i], order[i]);
      }
      i := i + 1;
    }
    assert order[..i] == order;
  }

  /** With no duplicate in the order, the page named at index i gets number i + 1. */
  lemma ReorderPositions(pages: seq<Page>, chapterId: Id, order: seq<Id>)
    requires NoDuplicates(order)
    ensures forall k, i :: 0 <= k < |pages| && 0 <= i < |order| && InChapterPages(pages[k], chapterId) && pages[k].id == order[i] ==>
      ReorderedPages(pages, chapterId, order)[k].pageNumber == i + 1
  {
    forall k, i | 0 <= k < |pages| && 0 <= i < |order| && InChapterPages(pages[k], chapterId) && pages[k].id == order[i]
      ensures ReorderedPages(pages, chapterId, order)[k].pageNumber == i + 1
    {
      var pos := LastPosition(order, order[i]);
      assert order[i] in order;
      assert pos.value - 1 == i;
    }
  }

  /** A reorder by a permutation of a chapter's pages leaves them numbered 1..n without
      gaps or repeats, whatever their numbers were before. */
  lemma {:induction false} ReorderDense(pages: seq<Page>, chapterId: Id, order: seq<Id>)
    requires forall i, j :: 0 <= i < j < |pages| ==> pages[i].id != pages[j].id
    requires forall k :: 0 <= k < |pages| && pages[k].chapterId == chapterId ==> pages[k].pageNumber > 0
    requires IsPagePermutation(order, pages, chapterId)
    ensures PageCount(ReorderedPages(pages, chapterId, order), chapterId) == PageCount(pages, chapterId)
    ensures DenseNumbering(ReorderedPages(pages, chapterId, order), chapterId, PageCount(pages, chapterId))
  {
    PageCountSameChapters(pages, ReorderedPages(pages, chapterId, order), chapterId);
    ReorderInRange(pages, chapterId, order);
    ReorderDistinct(pages, chapterId, order);
    ReorderCovers(pages, chapterId, order);
  }

  /** After a permuting reorder each of the chapter's pages is numbered within 1..|order|. */
  lemma ReorderInRange(pages: seq<Page>, chapterId: Id, order: seq<Id>)
    requires forall k :: 0 <= k < |pages| && pages[k].chapterId == chapterId ==> pages[k].pageNumber > 0
    requires forall k :: 0 <= k < |pages| && pages[k].chapterId == chapterId ==> pages[k].id in order
    ensures var r := ReorderedPages(pages, chapterId, order);
      forall k :: 0 <= k < |r| && r[k].chapterId == chapterId ==> 1 <= r[k].pageNumber <= |order|
  {
    ReorderSlots(pages, chapterId, order);
  }

  /** After a permuting reorder no two of the chapter's pages share a number. */
  lemma {:induction false} ReorderDistinct(pages: seq<Page>, chapterId: Id, order: seq<Id>)
    requires forall i, j :: 0 <= i < j < |pages| ==> pages[i].id != pages[j].id
    requires forall k :: 0 <= k < |pages| && pages[k].chapterId == chapterId ==> pages[k].pageNumber > 0
    requires forall k :: 0 <= k < |pages| && pages[k].chapterId == chapterId ==> pages[k].id in order
    ensures var r := ReorderedPages(pages, chapterId, order);
      forall k1, k2 :: 0 <= k1 < k2 < |r| && r[k1].chapterId == chapterId && r[k2].chapterId == chapterId
        ==> r[k1].pageNumber != r[k2].pageNumber
  {
    var r := ReorderedPages(pages, chapterId, order);
    ReorderSlots(pages, chapterId, order);
    forall k1, k2 | 0 <= k1 < k2 < |r| && r[k1].chapterId == chapterId && r[k2].chapterId == chapterId
      ensures r[k1].pageNumber != r[k2].pageNumber
    {
      assert r[k1].id == pages[k1].id && r[k2].id == pages[k2].id;
    }
  }

  /** After a permuting reorder each of the chapter's pages sits at the slot of its id. */
  lemma ReorderSlots(pages: seq<Page>, chapterId: Id, order: seq<Id>)
    requires forall k :: 0 <= k < |pages| && pages[k].chapterId == chapterId ==> pages[k].pageNumber > 0
    requires forall k :: 0 <= k < |pages| && pages[k].chapterId == chapterId ==> pages[k].id in order
    ensures var r := ReorderedPages(pages, chapterId, order);
      forall k :: 0 <= k < |r| && r[k].chapterId == chapterId ==>
        1 <= r[k].pageNumber <= |order| && order[r[k].pageNumber - 1] == r[k].id
  {
    var r := ReorderedPages(pages, chapterId, order);
    forall k | 0 <= k < |r| && r[k].chapterId == chapterId
      ensures 1 <= r[k].pageNumber <= |order| && order[r[k].pageNumber - 1] == r[k].id
    {
      RenumberedSlot(pages, chapterId, order, k);
    }
  }

  /** After a permuting reorder every number 1..|order| is used by some page. */
  lemma ReorderCovers(pages: seq<Page>, chapterId: Id, order: seq<Id>)
    requires forall k :: 0 <= k < |pages| && pages[k].chapterId == chapterId ==> pages[k].pageNumber > 0
    requires NoDuplicates(order)
    requires forall i :: 0 <= i < |order| ==> IsPageOf(pages, chapterId, order[i])
    ensures forall m :: 1 <= m <= |order| ==> HasPageNumbered(ReorderedPages(pages, chapterId, order), chapterId, m)
  {
    forall m | 1 <= m <= |order|
      ensures HasPageNumbered(ReorderedPages(pages, chapterId, order), chapterId, m)
    {
      assert IsPageOf(pages, chapterId, order[m - 1]);
      RenumberedHit(pages, chapterId, order, m);
    }
  }

  /** A page of the chapter is numbered by where its id sits in a permuting order. */
  lemma RenumberedSlot(pages: seq<Page>, chapterId: Id, order: seq<Id>, k: nat)
    requires k < |pages| && pages[k].chapterId == chapterId && pages[k].pageNumber > 0
    requires pages[k].id in order
    ensures var q := Renumbered(pages[k], chapterId, order);
      1 <= q.pageNumber <= |order| && order[q.pageNumber - 1] == pages[k].id
  {
  }

  /** The page named at position m of a duplicate-free order receives number m. */
  lemma RenumberedHit(pages: seq<Page>, chapterId: Id, order: seq<Id>, m: int)
    requires forall k :: 0 <= k < |pages| && pages[k].chapterId == chapterId ==> pages[k].pageNumber > 0
    requires NoDuplicates(order) && 1 <= m <= |order|
    requires IsPageOf(pages, chapterId, order[m - 1])
    ensures HasPageNumbered(ReorderedPages(pages, chapterId, order), chapterId, m)
  {
    var k :| 0 <= k < |pages| && pages[k].chapterId == chapterId && pages[k].id == order[m - 1];
    var pos := LastPosition(order, order[m - 1]);
    assert order[m - 1] in order;
    assert pos.value == m;
    assert ReorderedPages(pages, chapterId, order)[k].pageNumber == m;
  }

  /** The order check accepts duplicates: for pages A, B, C the order [A, A, B] passes, and
      leaves A numbered 2 and both B and C numbered 3, so the numbering is no longer dense. */
  lemma DuplicateOrderBreaksNumbering()
    ensures
      var cid, sid := Id(ChapterPrefix, 1), Id(SeriesPrefix, 1);
      var a := Page(Id(PagePrefix, 1), cid, sid, 1, "a", 0);
      var b := Page(Id(PagePrefix, 2), cid, sid, 2, "b", 0);
      var c := Page(Id(PagePrefix, 3), cid, sid, 3, "c", 0);
      var order := [a.id, a.id, b.id];
      var r := ReorderedPages([a, b, c], cid, order);
      && ReorderError([a, b, c], order).None?
      && r[0].pageNumber == 2 && r[1].pageNumber == 3 && r[2].pageNumber == 3
      && !DenseNumbering(r, cid, 3)
  {
    var cid, sid := Id(ChapterPrefix, 1), Id(SeriesPrefix, 1);
    var a := Page(Id(PagePrefix, 1), cid, sid, 1, "a", 0);
    var b := Page(Id(PagePrefix, 2), cid, sid, 2, "b", 0);
    var c := Page(Id(PagePrefix, 3), cid, sid, 3, "c", 0);
    var order := [a.id, a.id, b.id];
    assert LastPosition(order, a.id) == Some(2);
    assert LastPosition(order, b.id) == Some(3);
    assert LastPosition(order, c.id) == None;
    assert PageIds([a, b, c]) == [a.id, b.id, c.id];
    var r := ReorderedPages([a, b, c], cid, order);
    assert r[1].pageNumber == r[2].pageNumber;
  }

  /** Moving the last of three pages to the front: [A, B, C] reordered to [C, A, B]. */
  lemma ReorderMovesLastToFront()
    ensures
      var cid, sid := Id(ChapterPrefix, 1), Id(SeriesPrefix, 1);
      var a := Page(Id(PagePrefix, 1), cid, sid, 1, "a", 0);
      var b := Page(Id(PagePrefix, 2), cid, sid, 2, "b", 0);
      var c := Page(Id(PagePrefix, 3), cid, sid, 3, "c", 0);
      var r := ReorderedPages([a, b, c], cid, [c.id, a.id, b.id]);
      r == [a.(pageNumber := 2), b.(pageNumber := 3), c.(pageNumber := 1)]
  {
    var cid, sid := Id(ChapterPrefix, 1), Id(SeriesPrefix, 1);
    var a := Page(Id(PagePrefix, 1), cid, sid, 1, "a", 0);
    var b := Page(Id(PagePrefix, 2), cid, sid, 2, "b", 0);
    var c := Page(Id(PagePrefix, 3), cid, sid, 3, "c", 0);
    var order := [c.id, a.id, b.id];
    assert LastPosition(order, a.id) == Some(2);
    assert LastPosition(order, b.id) == Some(3);
    assert LastPosition(order, c.id) == Some(1);
  }

  /** Appending a page numbered n + 1 to a densely numbered chapter of n pages keeps the
      numbering dense: what `addPageToDraft` does. */
  lemma AppendKeepsDense(pages: seq<Page>, p: Page, chapterId: Id)
    requires DenseNumbering(pages, chapterId, PageCount(pages, chapterId))
    requires p.chapterId == chapterId && p.pageNumber == PageCount(pages, chapterId) + 1
    ensures PageCount(pages + [p], chapterId) == PageCount(pages, chapterId) + 1
    ensures DenseNumbering(pages + [p], chapterId, PageCount(pages, chapterId) + 1)
  {
    var q := pages + [p];
    var n := PageCount(pages, chapterId);
    PageCountAppend(pages, p, chapterId);
    forall m | 1 <= m <= n + 1
      ensures HasPageNumbered(q, chapterId, m)
    {
      if m <= n {
        assert HasPageNumbered(pages, chapterId, m);
        var k :| 0 <= k < |pages| && pages[k].chapterId == chapterId && pages[k].pageNumber == m;
        assert q[k] == pages[k];
      } else {
        assert q[|pages|] == p;
      }
    }
    forall k1, k2 | 0 <= k1 < k2 < |q| && q[k1].chapterId == chapterId && q[k2].chapterId == chapterId
      ensures q[k1].pageNumber != q[k2].pageNumber
    {
      if k2 < |pages| {
        assert q[k1] == pages[k1] && q[k2] == pages[k2];
      } else {
        assert q[k1] == pages[k1];
      }
    }
  }

  // ----- page image replacement -----

  /** The store index of the first page of the chapter with that page number
      (`db.pages.find(...)` in `replacePublishedPageImage`). */
  function PageSlot(pages: seq<Page>, chapterId: Id, pageNumber: int): (r: Option<nat>)
    ensures r.Some? ==> r.value < |pages| && pages[r.value].chapterId == chapterId && pages[r.value].pageNumber == pageNumber
    ensures r.Some? ==> forall j :: 0 <= j < r.value ==> !(pages[j].chapterId == chapterId && pages[j].pageNumber == pageNumber)
    ensures r.None? <==> forall k :: 0 <= k < |pages| ==> !(pages[k].chapterId == chapterId && pages[k].pageNumber == pageNumber)
  {
    FirstIndex(pages, (p: Page) => p.chapterId == chapterId && p.pageNumber == pageNumber)
  }

  // ----- publish and unpublish -----

  /** PUBLISHED exactly when a publish time is recorded. */
  predicate StatusAgrees(c: Chapter) {
    c.status == Published <==> c.publishedAt.Some?
  }

  /** The refusals of `publishChapter` after the ownership check. */
  function PublishError(chapter: Chapter, chapterPages: seq<Page>): (r: Option<Error>)
    ensures r.None? <==> chapter.status != Published && |chapterPages| >= 1
    ensures chapter.status == Published ==> r == Some(AlreadyPublished)
  {
    if chapter.status == Published then Some(AlreadyPublished)
    else if |chapterPages| < 1 then Some(EmptyChapter)
    else None
  }

  /** The chapter record after a publish at `now` with `pageCount` listed pages. */
  function PublishedChapter(chapter: Chapter, pageCount: nat, now: int): (r: Chapter)
    ensures r.status == Published && r.publishedAt == Some(now) && r.pageCount == pageCount
    ensures StatusAgrees(r)
    ensures r.id == chapter.id && r.creatorId == chapter.creatorId && r.seriesId == chapter.seriesId
  {
    chapter.(status := Published, publishedAt := Some(now), updatedAt := now, pageCount := pageCount)
  }

  /** A chapter cannot be published twice: the second publish is refused. */
  lemma SecondPublishRefused(chapter: Chapter, pageCount: nat, now: int, chapterPages: seq<Page>)
    ensures PublishError(PublishedChapter(chapter, pageCount, now), chapterPages) == Some(AlreadyPublished)
  {
  }

  /** `unpublishChapter`'s engagement test: a live comment or any reaction on the chapter. */
  predicate Engaged(comments: seq<Comment>, reactions: seq<Reaction>, chapterId: Id) {
    || (exists c :: c in comments && c.chapterId == chapterId && !c.isDeleted)
    || (exists x :: x in reactions && x.chapterId == chapterId)
  }

  /** The refusals of `unpublishChapter` after the ownership check. */
  function UnpublishError(chapter: Chapter, comments: seq<Comment>, reactions: seq<Reaction>): (r: Option<Error>)
    ensures r.None? <==> chapter.status == Published && !Engaged(comments, reactions, chapter.id)
    ensures Engaged(comments, reactions, chapter.id) ==> r.Some?
  {
    if chapter.status != Published then Some(AlreadyDraft)
    else if Engaged(comments, reactions, chapter.id) then Some(HasEngagement)
    else None
  }

  /** The chapter record after an unpublish at `now`. */
  function UnpublishedChapter(chapter: Chapter, now: int): (r: Chapter)
    ensures r.status == Draft && r.publishedAt.None? && StatusAgrees(r)
    ensures r.id == chapter.id && r.pageCount == chapter.pageCount
  {
    chapter.(status := Draft, publishedAt := None, updatedAt := now)
  }

  /** Reactions are never deleted, so once a chapter has one it can never be unpublished,
      whatever is appended later. */
  lemma ReactionPinsPublished(chapter: Chapter, comments: seq<Comment>, reactions: seq<Reaction>, later: seq<Reaction>, x: Reaction)
    requires x in reactions && x.chapterId == chapter.id
    ensures UnpublishError(chapter, comments, reactions + later).Some?
  {
    assert x in reactions + later;
  }

  // ----- follower fan-out -----

  /** `db.follows.filter((follow) => follow.creatorId === creatorId)`. */
  function FollowersOf(follows: seq<Follow>, creatorId: Id): (r: seq<Follow>)
    ensures forall f :: f in r <==> f in follows && f.creatorId == creatorId
    ensures forall i :: 0 <= i < |r| ==> r[i].creatorId == creatorId
  {
    FilterMembers(follows, OfCreator(creatorId));
    Filter(follows, OfCreator(creatorId))
  }

  function OfCreator(creatorId: Id): Follow -> bool {
    (f: Follow) => f.creatorId == creatorId
  }

  /** The notification `publishChapter` pushes to one follower. */
  function ChapterNotice(id: Id, recipient: Id, chapter: Chapter, now: int): Notification {
    Notification(id, recipient, FollowedCreatorNewChapter,
      ChapterPayload(chapter.id, chapter.seriesId, chapter.creatorId), false, now)
  }

  /** The notifications pushed for `followers`, in order, with ids minted from the
      notification counter starting after `after`. */
  function FanOut(followers: seq<Follow>, chapter: Chapter, after: int, now: int): (r: seq<Notification>)
    ensures |r| == |followers|
  {
    if |followers| == 0 then []
    else
      FanOut(followers[..|followers| - 1], chapter, after, now)
        + [ChapterNotice(Id(NotificationPrefix, after + |followers|), followers[|followers| - 1].followerId, chapter, now)]
  }

  /** Every follower gets exactly one unread FOLLOWED_CREATOR_NEW_CHAPTER notification naming
      the chapter, in follower order, with consecutive fresh ids. */
  lemma {:induction false} FanOutOnePerFollower(followers: seq<Follow>, chapter: Chapter, after: int, now: int)
    ensures var r := FanOut(followers, chapter, after, now);
      forall j :: 0 <= j < |r| ==> r[j] == ChapterNotice(Id(NotificationPrefix, after + j + 1), followers[j].followerId, chapter, now)
  {
    if |followers| > 0 {
      FanOutOnePerFollower(followers[..|followers| - 1], chapter, after, now);
    }
  }

  /** The recipients of a publish are exactly the creator's followers. */
  lemma FanOutRecipients(follows: seq<Follow>, chapter: Chapter, after: int, now: int)
    ensures var r := FanOut(FollowersOf(follows, chapter.creatorId), chapter, after, now);
      (set j | 0 <= j < |r| :: r[j].userId) == (set f | f in follows && f.creatorId == chapter.creatorId :: f.followerId)
  {
    var fs := FollowersOf(follows, chapter.creatorId);
    var r := FanOut(fs, chapter, after, now);
    FanOutOnePerFollower(fs, chapter, after, now);
    var lhs := set j | 0 <= j < |r| :: r[j].userId;
    var rhs := set f | f in follows && f.creatorId == chapter.creatorId :: f.followerId;
    forall u | u in lhs ensures u in rhs {
      var j :| 0 <= j < |r| && r[j].userId == u;
      assert fs[j] in fs;
    }
    forall u | u in rhs ensures u in lhs {
      var f :| f in follows && f.creatorId == chapter.creatorId && f.followerId == u;
      var j :| 0 <= j < |fs| && fs[j] == f;
      assert r[j].userId == u;
    }
  }
}
