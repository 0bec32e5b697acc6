/**
 * The pure page arithmetic of the comment board: the `paginator` record
 * (controllers/comment.js:13-24) and the skip/limit window the listing query
 * selects (controllers/comment.js:63-64).
 */
module Pagination {

  const ItemsPerPage: nat := 5

  datatype Pagination = Pagination(
    hasItems: bool,
    currentPage: int,
    hasNextPage: bool,
    hasPreviousPage: bool,
    nextPage: int,
    previousPage: int,
    lastPage: int)

  /** `Math.ceil(totalItems / ItemsPerPage)` for a positive count, and 1 for an empty board. */
  function LastPage(totalItems: nat): (last: int)
    ensures last >= 1
    ensures totalItems > 0 ==> (last - 1) * ItemsPerPage < totalItems <= last * ItemsPerPage
    ensures totalItems == 0 ==> last == 1
  {
    if totalItems > 0 then (totalItems + ItemsPerPage - 1) / ItemsPerPage else 1
  }

  /** The `paginator` record for a page of a board holding `totalItems` comments. */
  function Paginator(page: int, totalItems: nat): (p: Pagination)
    ensures p.hasItems <==> totalItems > 0
    ensures p.currentPage == page
    ensures p.hasNextPage <==> ItemsPerPage * page < totalItems
    ensures p.hasPreviousPage <==> page > 1
    ensures p.nextPage == page + 1 && p.previousPage == page - 1
    ensures p.lastPage == LastPage(totalItems) && p.lastPage >= 1
  {
    Pagination(
      hasItems := totalItems > 0,
      currentPage := page,
      hasNextPage := ItemsPerPage * page < totalItems,
      hasPreviousPage := page > 1,
      nextPage := page + 1,
      previousPage := page - 1,
      lastPage := LastPage(totalItems))
  }

  /** For a real page of a non-empty board, a next page is announced exactly when this is not the last page. */
  lemma NextPageIffBeforeLast(page: int, totalItems: nat)
    requires page >= 1 && totalItems > 0
    ensures Paginator(page, totalItems).hasNextPage <==> page < Paginator(page, totalItems).lastPage
  {
    var last := LastPage(totalItems);
    if page < last {
      assert ItemsPerPage * page <= ItemsPerPage * (last - 1);
    }
  }

  /** A previous page is announced exactly from page 2 on, and it is never below page 1. */
  lemma PreviousPageInRange(page: int, totalItems: nat)
    ensures Paginator(page, totalItems).hasPreviousPage <==> Paginator(page, totalItems).previousPage >= 1
  {
  }

  /** Number of listing entries the query skips for a page: `(page - 1) * ItemsPerPage`. */
  function Skip(page: int): int {
    (page - 1) * ItemsPerPage
  }

  /**
   * The entries `skip(Skip(page)).limit(ItemsPerPage)` selects: at most
   * `ItemsPerPage` consecutive entries starting at offset `Skip(page)`.
   */
  function Window<T>(listing: seq<T>, page: int): (w: seq<T>)
    requires page >= 1
    ensures |w| <= ItemsPerPage
    ensures |w| > 0 ==> Skip(page) + |w| <= |listing|
    ensures forall i :: 0 <= i < |w| ==> w[i] == listing[Skip(page) + i]
    ensures |w| < ItemsPerPage ==> Skip(page) + |w| >= |listing|
  {
    var lo := if Skip(page) < |listing| then Skip(page) else |listing|;
    var hi := if lo + ItemsPerPage < |listing| then lo + ItemsPerPage else |listing|;
    listing[lo..hi]
  }

  /** Every entry `i` of the listing is shown on page `i / ItemsPerPage + 1`, at position `i % ItemsPerPage`. */
  lemma WindowsCoverListing<T>(listing: seq<T>, i: nat)
    requires i < |listing|
    ensures var page := i / ItemsPerPage + 1;
            i % ItemsPerPage < |Window(listing, page)| && Window(listing, page)[i % ItemsPerPage] == listing[i]
  {
    var page := i / ItemsPerPage + 1;
    assert Skip(page) + i % ItemsPerPage == i;
  }

  /** Pages past the last one are empty; pages up to it are not (for a non-empty listing). */
  lemma WindowNonEmptyIffUpToLast<T>(listing: seq<T>, page: int)
    requires page >= 1
    ensures |Window(listing, page)| > 0 <==> |listing| > 0 && page <= LastPage(|listing|)
  {
    var last := LastPage(|listing|);
    if |listing| > 0 && page <= last {
      assert Skip(page) <= Skip(last);
    }
  }

  /** The paginator's `hasNextPage` flag is true exactly when the next window holds entries. */
  lemma HasNextPageIffNextWindow<T>(listing: seq<T>, page: int)
    requires page >= 1
    ensures Paginator(page, |listing|).hasNextPage <==> |Window(listing, page + 1)| > 0
  {
  }
}
