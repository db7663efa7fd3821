/** `getPage`: one page of an ordered list, as `subList(from, to)` with `from = page * size`
    and `to = min(from + size, length)`. `subList` throws when `from` is negative or beyond
    the list or when `to` falls before `from`; that is the error result here. */
module Paging {
  import opened Entity

  const DEFAULT_PAGE_NUMBER := 0
  const DEFAULT_PAGE_SIZE := 3

  /** `SubListError` is the exception `subList` throws: `IndexOutOfBoundsException` for a
      `from` or `to` outside the list, `IllegalArgumentException` for `from > to`. */
  datatype PageResult = Page(players: seq<Player>) | SubListError

  function Min(a: int, b: int): int {
    if a <= b then a else b
  }

  /** The size actually used: 3 when none is given. */
  function SizeOf(pageSize: Option<int>): int {
    pageSize.GetOr(DEFAULT_PAGE_SIZE)
  }

  /** The index of the page's first record: page number (0 when none is given) times size. */
  function FromOf(pageNumber: Option<int>, pageSize: Option<int>): int {
    pageNumber.GetOr(DEFAULT_PAGE_NUMBER) * SizeOf(pageSize)
  }

  /** The page exists exactly when it starts within the list (at its end at the latest)
      and the size is not negative; it is then the run of at most `size` records starting
      at `from`, cut short only by the end of the list. */
  function GetPage(players: seq<Player>, pageNumber: Option<int>, pageSize: Option<int>): (r: PageResult)
    ensures
      var from, size := FromOf(pageNumber, pageSize), SizeOf(pageSize);
      && (r.Page? <==> 0 <= from <= |players| && size >= 0)
      && (r.Page? ==>
            && |r.players| <= size
            && from + |r.players| <= |players|
            && (|r.players| < size ==> from + |r.players| == |players|)
            && r.players == players[from..from + |r.players|])
  {
    var size := SizeOf(pageSize);
    var from := FromOf(pageNumber, pageSize);
    var to := Min(from + size, |players|);
    if from < 0 || to > |players| || from > to then SubListError
    else Page(players[from..to])
  }

  /** With no page number and no page size the first three records are returned. */
  lemma DefaultPage(players: seq<Player>)
    ensures GetPage(players, None, None) == Page(players[..Min(3, |players|)])
  {
  }

  /** The page that starts right at the end is empty; any page after it is an error. */
  lemma PageAtAndPastEnd(players: seq<Player>, page: int, size: int)
    requires size > 0
    ensures page * size == |players| ==> GetPage(players, Some(page), Some(size)) == Page([])
    ensures page * size > |players| ==> GetPage(players, Some(page), Some(size)) == SubListError
  {
  }

  /** Pages 0, 1, ..., k - 1 of size `size`, one after the other. */
  function PagesUpTo(players: seq<Player>, size: int, k: nat): seq<Player>
    requires size > 0 && (k - 1) * size <= |players|
  {
    if k == 0 then []
    else
      assert (k - 2) * size <= (k - 1) * size;
      var p := GetPage(players, Some(k - 1), Some(size));
      PagesUpTo(players, size, k - 1) + (if p.Page? then p.players else [])
  }

  lemma {:induction false} PagesUpToPrefix(players: seq<Player>, size: int, k: nat)
    requires size > 0 && (k - 1) * size <= |players|
    ensures PagesUpTo(players, size, k) == players[..Min(k * size, |players|)]
  {
    if k != 0 {
      assert (k - 2) * size <= (k - 1) * size;
      PagesUpToPrefix(players, size, k - 1);
      assert (k - 1) * size + size == k * size;
    }
  }

  /** Reading the pages in order from page 0 until the one that reaches the end gives back
      the whole list. */
  lemma PagesReconstruct(players: seq<Player>, size: int, k: nat)
    requires size > 0 && (k - 1) * size <= |players| <= k * size
    ensures PagesUpTo(players, size, k) == players
  {
    PagesUpToPrefix(players, size, k);
  }
}
