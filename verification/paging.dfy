/** Page and limit: reading them from a table's meta data (page defaults to 1, limit to 0,
    which means "everything"), and the window of 1-based row positions a page covers. */
module Paging {
  import opened Domain

  /** The validated page and limit of a request. */
  datatype PageRequest = PageRequest(page: int, limit: int)

  /** The texts of the two rejections; the view controller and the services word them differently. */
  datatype PageMessages = PageMessages(pageError: string, limitError: string)

  const SERVICE_MESSAGES := PageMessages("msg.PageError", "msg.LimitError")
  const CONTROLLER_MESSAGES := PageMessages("Page must be higher than 0", "Limited must be higher or equal to 0")

  /** Missing meta data, a missing page or a missing limit take their defaults; a page below 1
      or a negative limit is rejected before anything else happens. */
  function PageAndLimit(md: Option<MetaData>, msgs: PageMessages): (r: Result<PageRequest>)
    ensures r.Ok? ==> r.value.page >= 1 && r.value.limit >= 0
    ensures r.Ok? <==>
      md.None? || ((md.value.page.None? || md.value.page.value > 0) && (md.value.limited.None? || md.value.limited.value >= 0))
    ensures md.None? ==> r == Ok(PageRequest(1, 0))
    ensures md.Some? && md.value.page.Some? && md.value.page.value <= 0 ==> r == Err(IllegalArgument(msgs.pageError))
    ensures r.Ok? && md.Some? ==>
      (md.value.page.Some? ==> r.value.page == md.value.page.value) &&
      (md.value.limited.Some? ==> r.value.limit == md.value.limited.value)
  {
    var m := if md.None? then MetaData(None, None) else md.value;
    var page :- if m.page.None? then Ok(1)
                else if m.page.value <= 0 then Err(IllegalArgument(msgs.pageError))
                else Ok(m.page.value);
    var limit :- if m.limited.None? then Ok(0)
                 else if m.limited.value < 0 then Err(IllegalArgument(msgs.limitError))
                 else Ok(m.limited.value);
    Ok(PageRequest(page, limit))
  }

  /** The 1-based position `pos` lies on page `page` of size `limit`. */
  predicate InWindow(pos: int, page: int, limit: int) {
    (page - 1) * limit < pos <= page * limit
  }

  /** The page that holds position `pos` (both 1-based). */
  function PageOf(pos: int, limit: int): int
    requires pos >= 1 && limit > 0
  {
    (pos - 1) / limit + 1
  }

  /** Multiplying by a positive page size keeps the order of page numbers. */
  lemma MulMonotone(a: int, b: int, limit: int)
    requires a <= b && limit > 0
    ensures a * limit <= b * limit
  {
  }

  /** No position lies on two different pages of the same positive limit. */
  lemma WindowUnique(pos: int, p1: int, p2: int, limit: int)
    requires limit > 0 && InWindow(pos, p1, limit) && InWindow(pos, p2, limit)
    ensures p1 == p2
  {
    if p1 < p2 {
      MulMonotone(p1, p2 - 1, limit);
    } else if p2 < p1 {
      MulMonotone(p2, p1 - 1, limit);
    }
  }

  /** The pages of a positive limit tile the positions: every position lies on exactly one page,
      the page `PageOf` computes. */
  lemma PagesTile(pos: int, page: int, limit: int)
    requires pos >= 1 && limit > 0
    ensures InWindow(pos, PageOf(pos, limit), limit)
    ensures InWindow(pos, page, limit) ==> page == PageOf(pos, limit)
  {
    var q := (pos - 1) / limit;
    var m := (pos - 1) % limit;
    assert pos - 1 == q * limit + m && 0 <= m < limit;
    assert (PageOf(pos, limit) - 1) * limit == q * limit;
    assert PageOf(pos, limit) * limit == q * limit + limit;
    if InWindow(pos, page, limit) {
      WindowUnique(pos, page, PageOf(pos, limit), limit);
    }
  }

  /** A page of a positive limit holds exactly `limit` consecutive positions, starting right after
      the previous page ends. */
  lemma WindowIsConsecutive(page: int, limit: int)
    requires page >= 1 && limit > 0
    ensures page * limit - (page - 1) * limit == limit
    ensures forall pos :: InWindow(pos, page, limit) <==> (page - 1) * limit + 1 <= pos <= (page - 1) * limit + limit
  {
    assert page * limit == (page - 1) * limit + limit;
  }

  function Min(a: int, b: int): int {
    if a <= b then a else b
  }

  function Max(a: int, b: int): int {
    if a >= b then a else b
  }

  /** The items whose 1-based position lies on page `page` of size `limit`, in their order: the
      rows a windowed conversion keeps. */
  function WindowItems<T>(xs: seq<T>, page: int, limit: int): (r: seq<T>)
    ensures |r| <= |xs|
    ensures forall x :: x in r ==> x in xs
  {
    if |xs| == 0 then []
    else WindowItems(xs[..|xs| - 1], page, limit) + (if InWindow(|xs|, page, limit) then [xs[|xs| - 1]] else [])
  }
}
