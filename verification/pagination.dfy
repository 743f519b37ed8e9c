/** The pagination helpers of the utility service: normalising a page query,
    and shaping a table page and an infinite-scroll page. Query fields arrive
    already coerced to numbers; `None` stands for an absent field. */
module Pagination {
  import opened Results
  import opened Text

  datatype PageQuery = PageQuery(
    page: Option<int>,
    limit: Option<int>,
    status: Option<int>,
    orderBy: Option<string>,
    sort: Option<string>,
    search: Option<string>)

  datatype Paging = Paging(
    page: int,
    limit: int,
    status: Option<int>,
    orderBy: string,
    sort: string,
    search: string,
    skip: int)

  /** `v ? +v : default` for a number: an absent field and `0` are both falsy. */
  function NumberOr(v: Option<int>, default: int): int
  {
    if v.Some? && v.value != 0 then v.value else default
  }

  /** `v ? v : default` for a string: an absent field and `''` are both falsy. */
  function TextOr(v: Option<string>, default: string): string
  {
    if v.Some? && v.value != "" then v.value else default
  }

  /** `pagination(request)`, without the date fields. */
  function Paginate(q: PageQuery): (p: Paging)
    ensures p.page != 0 && p.limit != 0
    ensures q.page.Some? && q.page.value != 0 ==> p.page == q.page.value
    ensures q.page.None? || q.page == Some(0) ==> p.page == 1
    ensures q.limit.Some? && q.limit.value != 0 ==> p.limit == q.limit.value
    ensures q.limit.None? || q.limit == Some(0) ==> p.limit == 10
    ensures q.status.Some? && q.status.value != 0 ==> p.status == q.status
    ensures q.status.None? || q.status == Some(0) ==> p.status.None?
    ensures q.orderBy.Some? ==> p.orderBy == q.orderBy.value
    ensures q.orderBy.None? ==> p.orderBy == ""
    ensures q.sort.Some? && q.sort.value != "" ==> p.sort == UpperAll(q.sort.value)
    ensures q.sort.None? || q.sort == Some("") ==> p.sort == "DESC"
    ensures q.search.Some? ==> p.search == q.search.value
    ensures q.search.None? ==> p.search == ""
    ensures p.skip == (p.page - 1) * p.limit
  {
    var page := NumberOr(q.page, 1);
    var limit := NumberOr(q.limit, 10);
    Paging(
      page,
      limit,
      if q.status.Some? && q.status.value != 0 then q.status else None,
      TextOr(q.orderBy, ""),
      if q.sort.Some? && q.sort.value != "" then UpperAll(q.sort.value) else "DESC",
      TextOr(q.search, ""),
      (page - 1) * limit)
  }

  /** An empty query means page 1 of 10 rows, newest first, nothing skipped. */
  lemma PaginateDefaults()
    ensures Paginate(PageQuery(None, None, None, None, None, None)) == Paging(1, 10, None, "", "DESC", "", 0)
  {
  }

  /** A zero page or limit counts as absent, and a status filter of 0 is dropped. */
  lemma PaginateFalsyFields(q: PageQuery)
    ensures q.page == Some(0) ==> Paginate(q).page == 1
    ensures q.limit == Some(0) ==> Paginate(q).limit == 10
    ensures q.status == Some(0) ==> Paginate(q).status.None?
    ensures q.sort.Some? && q.sort.value != "" ==> Paginate(q).sort == UpperAll(q.sort.value)
  {
  }

  /** With positive page and limit, the pages tile the rows: page 1 skips nothing and
      each next page starts exactly `limit` rows after the previous one. */
  lemma PagesTile(q: PageQuery, page: int, limit: int)
    requires page >= 1 && limit >= 1
    ensures Paginate(q.(page := Some(1), limit := Some(limit))).skip == 0
    ensures Paginate(q.(page := Some(page), limit := Some(limit))).skip >= 0
    ensures Paginate(q.(page := Some(page + 1), limit := Some(limit))).skip
         == Paginate(q.(page := Some(page), limit := Some(limit))).skip + limit
  {
  }

  /** `Math.ceil(a / b)` for integers. */
  function CeilDiv(a: int, b: int): (r: int)
    requires b != 0
    ensures b > 0 ==> (r - 1) * b < a <= r * b
    ensures b < 0 ==> r * b <= a < (r - 1) * b
  {
    if b > 0 then -((-a) / b) else -(a / (-b))
  }

  datatype TablePage<T> = TablePage(data: seq<T>, page: int, totalData: int, totalPage: int, totalPerPage: int)

  /** `paginationResponse(request)`. */
  function PaginationResponse<T>(data: seq<T>, page: Option<int>, limit: Option<int>, totalData: Option<int>): (r: TablePage<T>)
    ensures r.data == data
    ensures r.page == NumberOr(page, 1) && r.totalData == NumberOr(totalData, 0)
    ensures r.totalPerPage == NumberOr(limit, 10)
    ensures r.totalPerPage > 0 ==> (r.totalPage - 1) * r.totalPerPage < r.totalData <= r.totalPage * r.totalPerPage
    ensures r.totalPerPage < 0 ==> r.totalPage * r.totalPerPage <= r.totalData < (r.totalPage - 1) * r.totalPerPage
  {
    var l := NumberOr(limit, 10);
    var total := NumberOr(totalData, 0);
    TablePage(data, NumberOr(page, 1), total, CeilDiv(total, l), l)
  }

  /** With a positive limit, page `p` of the same query holds rows exactly when
      `p` is at most the reported page count. */
  lemma PageHoldsRowsIffWithinTotal<T>(data: seq<T>, q: PageQuery, p: int, totalData: nat)
    requires p >= 1 && NumberOr(q.limit, 10) >= 1
    ensures var paging := Paginate(q.(page := Some(p)));
            var table := PaginationResponse(data, Some(p), q.limit, Some(totalData));
            paging.skip < totalData <==> p <= table.totalPage
  {
    var l := NumberOr(q.limit, 10);
    var table := PaginationResponse(data, Some(p), q.limit, Some(totalData));
    assert table.totalData == totalData && table.totalPerPage == l;
    CeilBound(p, table.totalPage, l, totalData);
  }

  lemma MulMonotone(a: int, b: int, l: int)
    requires a <= b && l >= 0
    ensures a * l <= b * l
  {
    assert b * l - a * l == (b - a) * l;
  }

  lemma CeilBound(p: int, tp: int, l: int, total: int)
    requires l >= 1 && (tp - 1) * l < total <= tp * l
    ensures (p - 1) * l < total <==> p <= tp
  {
    if p <= tp {
      MulMonotone(p - 1, tp - 1, l);
    } else {
      MulMonotone(tp, p - 1, l);
    }
  }

  datatype InfinitePage<T> = InfinitePage(data: seq<T>, getMore: bool)

  /** `paginationInfiniteResponse(request)`. */
  function PaginationInfiniteResponse<T>(data: seq<T>, limit: Option<int>): (r: InfinitePage<T>)
    ensures r.data == data
    ensures r.getMore <==> |data| >= NumberOr(limit, 10)
  {
    InfinitePage(data, |data| >= NumberOr(limit, 10))
  }

  /** For a page cut from `rows` at offset `skip`, `getMore` says whether the page
      came back full; it is therefore also set on a last page that is exactly full. */
  lemma InfiniteMoreMeansFullPage<T>(rows: seq<T>, skip: nat, limit: int)
    requires limit >= 1 && skip <= |rows|
    ensures var page := rows[skip..if skip + limit <= |rows| then skip + limit else |rows|];
            PaginationInfiniteResponse(page, Some(limit)).getMore <==> skip + limit <= |rows|
  {
  }
}
